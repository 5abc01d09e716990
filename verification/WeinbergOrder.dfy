/** The order in which the walk leaves a vertex: neighbours found before it follow one another as they lie around it. */
module WeinbergOrder {
  import opened RotationSystem
  import opened WeinbergWalk
  import opened WeinbergCode

  // Turning --------------------------------------------------------------------------------------------------

  lemma NextInjective(g: Surface, b: int, x: int, y: int)
    requires Triangulated(g) && Edge(g, b, x) && Edge(g, b, y) && Next(g, b, x) == Next(g, b, y)
    ensures x == y
  {
    assert Edge(g, x, b) && Edge(g, y, b);
    var c := g.common[x][b];
    assert c == g.common[y][b];
    assert g.common[b][c] == x && g.common[b][c] == y;
  }

  /** Turns that lead to the same place differ by full circles. */
  lemma {:induction false} SamePlace(g: Surface, b: int, x: int, k: nat, l: nat)
    requires Triangulated(g) && Edge(g, b, x) && k <= l && Turn(g, b, x, k) == Turn(g, b, x, l)
    ensures Turn(g, b, x, l - k) == x
  {
    if k > 0 {
      hide Triangulated;
      NextInjective(g, b, Turn(g, b, x, k - 1), Turn(g, b, x, l - 1));
      SamePlace(g, b, x, k - 1, l - 1);
    }
  }

  // The invariant --------------------------------------------------------------------------------------------

  /** From which vertex each vertex other than the start was found. */
  ghost function Parents(g: Surface, start: int, first: int, k: nat): map<int, int>
    requires Triangulated(g)
  {
    if k == 0 then map[] else
      var w := After(g, start, first, k - 1);
      var p := Parents(g, start, first, k - 1);
      if w.b in w.found then p else p[w.b := w.a]
  }

  /** y was found before z. */
  predicate Lower(found: map<int, int>, y: int, z: int) {
    y in found && z in found && found[y] < found[z]
  }

  ghost predicate Within(g: Surface, v: int, first: int, j: nat, y: int)
    requires Triangulated(g) && Edge(g, v, first)
  {
    exists k: nat :: k <= j && Turn(g, v, first, k) == y
  }

  /** The sweep from `first` to `last` has all the edges taken to vertices found before. */
  ghost predicate SweptLow(g: Surface, taken: set<(int, int)>, found: map<int, int>, v: int, first: int, last: int)
    requires Triangulated(g)
  {
    Edge(g, v, first) && exists j: nat :: SweptLowBy(g, taken, found, v, first, last, j)
  }

  ghost predicate SweptLowBy(g: Surface, taken: set<(int, int)>, found: map<int, int>, v: int, first: int, last: int,
    j: nat)
    requires Triangulated(g) && Edge(g, v, first)
  {
    SweptBy(g, taken, v, first, last, j) &&
    forall y :: Edge(g, v, y) && (v, y) in taken && Lower(found, y, v) ==> Within(g, v, first, j, y)
  }

  /** The edge by which the walk last left the i-th vertex of its path. */
  function LastOf(w: Walk, path: seq<int>, i: nat, returning: bool): int
    requires i < |path|
  {
    if i < |path| - 1 then path[i + 1] else if returning then w.a else w.b
  }

  ghost predicate Rising(found: map<int, int>, path: seq<int>) {
    forall i {:trigger path[i]} :: 0 <= i < |path| - 1 ==> Lower(found, path[i], path[i + 1])
  }

  ghost predicate LowAt(g: Surface, w: Walk, path: seq<int>, first: int, returning: bool, i: nat)
    requires Triangulated(g) && (forall k :: 0 <= k < |path| ==> 0 <= path[k] < g.n) && i < |path|
  {
    SweptLow(g, Taken(w), w.found, path[i], First(g, path, first, i), LastOf(w, path, i, returning))
  }

  ghost predicate SweptLowPath(g: Surface, w: Walk, path: seq<int>, first: int, returning: bool)
    requires Triangulated(g) && (forall k :: 0 <= k < |path| ==> 0 <= path[k] < g.n)
  {
    forall i :: 1 <= i < |path| ==> LowAt(g, w, path, first, returning, i)
  }

  ghost predicate ParentsOnPath(parents: map<int, int>, path: seq<int>) {
    forall i {:trigger path[i]} :: 1 <= i < |path| ==> path[i] in parents && parents[path[i]] == path[i - 1]
  }

  /** The walk comes back from further down its path, or from a vertex that is finished to its parent. */
  ghost predicate ComesBack(w: Walk, path: seq<int>, parents: map<int, int>)
    requires path != []
  {
    w.a in path[..|path| - 1] || (w.a in parents && parents[w.a] == w.b)
  }

  ghost predicate Ordered(g: Surface, w: Walk, path: seq<int>, first: int, returning: bool, parents: map<int, int>)
    requires Triangulated(g)
  {
    && path != [] && (forall k :: 0 <= k < |path| ==> 0 <= path[k] < g.n)
    && Rising(w.found, path) && SweptLowPath(g, w, path, first, returning) && ParentsOnPath(parents, path)
    && (returning ==> ComesBack(w, path, parents))
  }

  lemma {:induction false} RisingFar(found: map<int, int>, path: seq<int>, i: nat, j: nat)
    requires Rising(found, path) && i < j < |path|
    ensures Lower(found, path[i], path[j])
  {
    assert Lower(found, path[j - 1], path[j - 1 + 1]);
    if i < j - 1 {
      RisingFar(found, path, i, j - 1);
    }
  }

  /** More edges are taken, none of them from v to a vertex found before it. */
  lemma SweptLowGrows(g: Surface, taken: set<(int, int)>, found: map<int, int>, more: set<(int, int)>,
    found': map<int, int>, v: int, first: int, last: int)
    requires Triangulated(g) && SweptLow(g, taken, found, v, first, last) && taken <= more
    requires forall y :: (v, y) in more && Lower(found', y, v) ==> (v, y) in taken && Lower(found, y, v)
    ensures SweptLow(g, more, found', v, first, last)
  {
    hide Turn, Triangulated;
    var j: nat :| SweptLowBy(g, taken, found, v, first, last, j);
    assert SweptLowBy(g, more, found', v, first, last, j);
  }

  // One step -------------------------------------------------------------------------------------------------

  lemma PathFound(g: Surface, w: Walk, path: seq<int>, start: int, first: int, returning: bool)
    requires Triangulated(g) && Searching(g, w, path, start, first, returning)
    ensures path != [] && (forall i :: 0 <= i < |path| ==> 0 <= path[i] < g.n && path[i] in w.found)
    ensures !returning ==> w.a == path[|path| - 1]
    ensures returning ==> w.b == path[|path| - 1] && (w.b, w.a) in w.used
    ensures Edge(g, w.a, w.b) && (w.a, w.b) !in w.used
    ensures forall i, j :: 0 <= i < j < |path| ==> path[i] != path[j]
    ensures forall x, y :: (x, y) in w.used ==> x in w.found && y in w.found
  {
  }

  lemma OrderedParts(g: Surface, w: Walk, path: seq<int>, first: int, returning: bool, parents: map<int, int>)
    requires Triangulated(g) && Ordered(g, w, path, first, returning, parents)
    ensures path != [] && (forall k :: 0 <= k < |path| ==> 0 <= path[k] < g.n)
    ensures Rising(w.found, path) && ParentsOnPath(parents, path)
    ensures forall i :: 1 <= i < |path| ==> LowAt(g, w, path, first, returning, i)
    ensures returning ==> ComesBack(w, path, parents)
  {
    hide Triangulated, Rising, LowAt, ParentsOnPath;
  }

  lemma MakeOrdered(g: Surface, w: Walk, path: seq<int>, first: int, returning: bool, parents: map<int, int>)
    requires Triangulated(g)
    requires path != [] && (forall k :: 0 <= k < |path| ==> 0 <= path[k] < g.n)
    requires Rising(w.found, path) && ParentsOnPath(parents, path)
    requires forall i :: 1 <= i < |path| ==> LowAt(g, w, path, first, returning, i)
    requires returning ==> ComesBack(w, path, parents)
    ensures Ordered(g, w, path, first, returning, parents)
  {
    hide Triangulated, Rising, LowAt, ParentsOnPath;
  }

  /** One vertex of the path that is left as it is. */
  lemma LowStays(g: Surface, w: Walk, v: Walk, path: seq<int>, path': seq<int>, first: int, returning: bool,
    returning': bool, i: nat)
    requires Triangulated(g) && (forall k :: 0 <= k < |path| ==> 0 <= path[k] < g.n)
    requires (forall k :: 0 <= k < |path'| ==> 0 <= path'[k] < g.n) && 1 <= i < |path| && i < |path'|
    requires path'[i] == path[i] && path'[i - 1] == path[i - 1] && LowAt(g, w, path, first, returning, i)
    requires LastOf(v, path', i, returning') == LastOf(w, path, i, returning) && v.used == Taken(w)
    requires v.a == path[i] ==> !Lower(v.found, v.b, path[i])
    requires forall y :: Lower(v.found, y, path[i]) ==> Lower(w.found, y, path[i])
    ensures LowAt(g, v, path', first, returning', i)
  {
    SurfaceTable(g);
    hide Triangulated, IsTable, SweptLow, Turn, LastOf, Lower;
    TakenIs(w, v);
    SweptLowGrows(g, Taken(w), w.found, Taken(v), v.found, path[i], First(g, path, first, i),
      LastOf(w, path, i, returning));
  }

  /** The walk goes on to a new vertex. */
  lemma OrderedNew(g: Surface, w: Walk, path: seq<int>, start: int, first: int, parents: map<int, int>)
    requires Triangulated(g) && Searching(g, w, path, start, first, false) && w.b !in w.found && Numbered(w.found)
    requires Ordered(g, w, path, first, false, parents)
    ensures Ordered(g, Step(g, w), path + [w.b], first, false, parents[w.b := w.a])
  {
    hide *;
    PathFound(g, w, path, start, first, false);
    OrderedParts(g, w, path, first, false, parents);
    SurfaceTable(g);
    NewStep(g, w);
    EdgeInRange(g, w.a, w.b);
    var v, path' := Step(g, w), path + [w.b];
    NewRising(w, v, path);
    forall i | 1 <= i < |path'|
      ensures LowAt(g, v, path', first, false, i)
    {
      if i < |path| {
        NewerStays(w, v, path[i]);
        LastStays(w, v, path, i);
        LowStays(g, w, v, path, path', first, false, false, i);
      } else {
        NewLow(g, w, v);
        LowAtNew(g, w, v, path, first);
      }
    }
    NewParents(parents, path, w.a, w.b);
    MakeOrdered(g, v, path', first, false, parents[w.b := w.a]);
  }

  lemma LastStays(w: Walk, v: Walk, path: seq<int>, i: nat)
    requires i < |path|
    ensures LastOf(v, path + [w.b], i, false) == LastOf(w, path, i, false)
  {
  }

  lemma NewParents(parents: map<int, int>, path: seq<int>, a: int, b: int)
    requires ParentsOnPath(parents, path) && path != [] && path[|path| - 1] == a && b !in path
    ensures ParentsOnPath(parents[b := a], path + [b])
  {
    var path', p := path + [b], parents[b := a];
    forall i {:trigger path'[i]} | 1 <= i < |path'|
      ensures path'[i] in p && p[path'[i]] == path'[i - 1]
    {
      if i < |path| {
        assert path'[i] == path[i] && path'[i - 1] == path[i - 1];
      }
    }
  }

  /** The new vertex is above all others. */
  lemma NewerStays(w: Walk, v: Walk, x: int)
    requires Numbered(w.found) && w.b !in w.found && v.found == w.found[w.b := |w.found|] && x in w.found && v.a == w.b
    ensures forall y :: Lower(v.found, y, x) ==> Lower(w.found, y, x)
    ensures v.a != x
  {
  }

  lemma LowAtNew(g: Surface, w: Walk, v: Walk, path: seq<int>, first: int)
    requires Triangulated(g) && (forall k :: 0 <= k < |path + [w.b]| ==> 0 <= (path + [w.b])[k] < g.n)
    requires path != [] && path[|path| - 1] == w.a && 0 <= w.a < g.n && 0 <= w.b < g.n
    requires SweptLow(g, Taken(v), v.found, w.b, Next(g, w.b, w.a), v.b)
    ensures LowAt(g, v, path + [w.b], first, false, |path|)
  {
    hide SweptLow, Triangulated;
  }

  lemma SurfaceTable(g: Surface)
    requires Triangulated(g)
    ensures IsTable(g)
  {
  }

  lemma TakenIs(w: Walk, v: Walk)
    requires v.used == Taken(w)
    ensures Taken(v) == Taken(w) + {(v.a, v.b)}
  {
  }

  lemma NewRising(w: Walk, v: Walk, path: seq<int>)
    requires Rising(w.found, path) && Numbered(w.found) && w.b !in w.found && v.found == w.found[w.b := |w.found|]
    requires forall i :: 0 <= i < |path| ==> path[i] in w.found
    ensures Rising(v.found, path + [w.b])
  {
    var path' := path + [w.b];
    forall i {:trigger path'[i]} | 0 <= i < |path'| - 1
      ensures Lower(v.found, path'[i], path'[i + 1])
    {
      assert path'[i] == path[i];
      if i < |path| - 1 {
        assert path'[i + 1] == path[i + 1];
      }
    }
  }

  lemma NewLow(g: Surface, w: Walk, v: Walk)
    requires Triangulated(g) && Edge(g, w.a, w.b) && w.b !in w.found && w.a in w.found
    requires v == Walk(w.b, Next(g, w.b, w.a), Taken(w), v.found)
    requires forall x, y :: (x, y) in w.used ==> x in w.found
    ensures SweptLow(g, Taken(v), v.found, w.b, Next(g, w.b, w.a), v.b)
  {
    var c := Next(g, w.b, w.a);
    assert Edge(g, w.b, w.a) && Edge(g, w.b, c);
    assert SweptBy(g, Taken(v), w.b, c, c, 0);
    forall y | Edge(g, w.b, y) && (w.b, y) in Taken(v) && Lower(v.found, y, w.b)
      ensures Within(g, w.b, c, 0, y)
    {
      assert Turn(g, w.b, c, 0) == y;
    }
    assert SweptLowBy(g, Taken(v), v.found, w.b, c, c, 0);
  }

  /** The walk is sent back from a vertex of its path. */
  lemma OrderedBack(g: Surface, w: Walk, path: seq<int>, start: int, first: int, parents: map<int, int>)
    requires IsSurface(g) && Searching(g, w, path, start, first, false) && w.b in w.found
    requires Ordered(g, w, path, first, false, parents)
    ensures Ordered(g, Step(g, w), path, first, true, parents)
    ensures Step(g, w) == Walk(w.b, w.a, Taken(w), w.found)
  {
    hide *;
    SurfaceTriangulated(g);
    PathFound(g, w, path, start, first, false);
    OrderedParts(g, w, path, first, false, parents);
    BackOnPath(g, w, path, start, first);
    BackStep(g, w, path, start, first);
    var v := Step(g, w);
    var m :| 0 <= m < |path| - 1 && path[m] == w.b;
    RisingFar(w.found, path, m, |path| - 1);
    NotLower(w.found, path[m], path[|path| - 1]);
    forall i | 1 <= i < |path|
      ensures LowAt(g, v, path, first, true, i)
    {
      LastTurned(w, v, path, i);
      LowStays(g, w, v, path, path, first, false, true, i);
    }
    BackFrom(v, path, parents, m);
    MakeOrdered(g, v, path, first, true, parents);
  }

  lemma LastTurned(w: Walk, v: Walk, path: seq<int>, i: nat)
    requires i < |path| && v.a == w.b
    ensures LastOf(v, path, i, true) == LastOf(w, path, i, false)
  {
  }

  lemma BackFrom(v: Walk, path: seq<int>, parents: map<int, int>, m: int)
    requires 0 <= m < |path| - 1 && path[m] == v.a
    ensures ComesBack(v, path, parents)
  {
    assert path[..|path| - 1][m] == v.a;
  }

  lemma NotLower(found: map<int, int>, x: int, y: int)
    requires Lower(found, x, y)
    ensures !Lower(found, y, x)
  {
  }

  lemma BackStep(g: Surface, w: Walk, path: seq<int>, start: int, first: int)
    requires IsSurface(g) && Searching(g, w, path, start, first, false) && w.b in w.found
    ensures Edge(g, w.a, w.b) && Step(g, w) == Walk(w.b, w.a, Taken(w), w.found)
  {
    StepBack(g, w, path, start, first);
  }

  /** A vertex that is found and not finished is on the path. */
  lemma BackOnPath(g: Surface, w: Walk, path: seq<int>, start: int, first: int)
    requires IsSurface(g) && Searching(g, w, path, start, first, false) && w.b in w.found
    ensures path != [] && exists m :: 0 <= m < |path| - 1 && path[m] == w.b
  {
    StepBack(g, w, path, start, first);
    hide Manifold, Connected, SweptPath, Swept;
    assert Edge(g, w.b, w.a) && w.a != w.b;
    if w.b !in path {
      NotFinished(g, w, path);
    }
    var m :| 0 <= m < |path| && path[m] == w.b;
    assert path[|path| - 1] == w.a;
  }

  lemma NotFinished(g: Surface, w: Walk, path: seq<int>)
    requires IsTable(g) && Finished(g, w, path) && w.b in w.found && Edge(g, w.b, w.a) && (w.b, w.a) !in Taken(w)
    ensures w.b in path
  {
  }

  /** The walk goes on around the end of its path. */
  lemma OrderedOn(g: Surface, w: Walk, path: seq<int>, start: int, first: int, parents: map<int, int>)
    requires IsSurface(g) && Searching(g, w, path, start, first, true) && Taken(w) != Edges(g)
    requires Ordered(g, w, path, first, true, parents)
    ensures Edge(g, w.a, w.b) && Ordered(g, Step(g, w), path, first, false, parents)
  {
    hide *;
    SurfaceTriangulated(g);
    PathFound(g, w, path, start, first, true);
    OrderedParts(g, w, path, first, true, parents);
    StepTurn(g, w, path, start, first);
    OldStep(g, w);
    var v, top := Step(g, w), |path| - 1;
    if top >= 1 {
      LowOn(g, w, path, start, first);
      LowAtTop(g, w, v, path, first);
    }
    forall i | 1 <= i < |path|
      ensures LowAt(g, v, path, first, false, i)
    {
      if i < top {
        assert path[i] != path[top];
        LastInner(w, v, path, path, i, true, false);
        LowStays(g, w, v, path, path, first, true, false, i);
      }
    }
    MakeOrdered(g, v, path, first, false, parents);
  }

  lemma LastInner(w: Walk, v: Walk, path: seq<int>, path': seq<int>, i: nat, returning: bool, returning': bool)
    requires i < |path| - 1 && i < |path'|
    requires if i < |path'| - 1 then path'[i + 1] == path[i + 1] else returning' && v.a == path[i + 1]
    ensures LastOf(v, path', i, returning') == LastOf(w, path, i, returning)
  {
  }

  lemma LowAtTop(g: Surface, w: Walk, v: Walk, path: seq<int>, first: int)
    requires Triangulated(g) && (forall k :: 0 <= k < |path| ==> 0 <= path[k] < g.n) && |path| > 1
    requires w.b == path[|path| - 1] && v == Walk(w.b, v.b, Taken(w), w.found)
    requires SweptLow(g, Taken(w) + {(w.b, v.b)}, w.found, w.b, First(g, path, first, |path| - 1), v.b)
    ensures LowAt(g, v, path, first, false, |path| - 1)
  {
    hide SweptLow, Triangulated;
    TakenIs(w, v);
  }

  lemma OldStep(g: Surface, w: Walk)
    requires Triangulated(g) && Edge(g, w.a, w.b) && w.b in w.found
    ensures Step(g, w) == Walk(w.b, Choose(g, w), Taken(w), w.found)
  {
    hide Choose;
  }

  lemma LowOn(g: Surface, w: Walk, path: seq<int>, start: int, first: int)
    requires IsSurface(g) && Searching(g, w, path, start, first, true) && Taken(w) != Edges(g) && |path| > 1
    requires (forall k :: 0 <= k < |path| ==> 0 <= path[k] < g.n) && w.b == path[|path| - 1]
    requires LowAt(g, w, path, first, true, |path| - 1)
    ensures Edge(g, w.b, Choose(g, w))
    ensures SweptLow(g, Taken(w) + {(w.b, Choose(g, w))}, w.found, w.b, First(g, path, first, |path| - 1), Choose(g, w))
  {
    SurfaceTriangulated(g);
    PathFound(g, w, path, start, first, true);
    StepTurn(g, w, path, start, first);
    TurnHasFree(g, w, path, start, first);
    hide Searching, IsSurface;
    var x := Next(g, w.b, w.a);
    var l := TurnsToFree(g, w.used, w.b, x);
    assert Choose(g, w) == Turn(g, w.b, x, l);
    SweptLowOn(g, Taken(w), w.found, w.b, First(g, path, first, |path| - 1), w.a, w.used, l);
  }

  lemma SweptLowOn(g: Surface, taken: set<(int, int)>, found: map<int, int>, v: int, first: int, last: int,
    used: set<(int, int)>, l: nat)
    requires Triangulated(g) && SweptLow(g, taken, found, v, first, last) && used <= taken
    requires Edge(g, v, last) && Edge(g, v, Next(g, v, last)) && FirstFree(g, used, v, Next(g, v, last), l)
    ensures var c := Turn(g, v, Next(g, v, last), l); SweptLow(g, taken + {(v, c)}, found, v, first, c)
  {
    var j: nat :| SweptLowBy(g, taken, found, v, first, last, j);
    var x := Next(g, v, last);
    assert Turn(g, v, first, j + 1) == x;
    TurnAdd(g, v, first, j + 1, l);
    hide Triangulated, Edge, Turn, FirstFree, IsTable;
    var c := Turn(g, v, x, l);
    var more := taken + {(v, c)};
    forall i: nat | i <= j + 1 + l
      ensures (v, Turn(g, v, first, i)) in more
    {
      if j < i < j + 1 + l {
        SweptBetween(g, used, v, first, j, x, l, i);
      }
    }
    assert SweptBy(g, more, v, first, c, j + 1 + l);
    forall y | Edge(g, v, y) && (v, y) in more && Lower(found, y, v)
      ensures Within(g, v, first, j + 1 + l, y)
    {
      if (v, y) in taken {
        assert Within(g, v, first, j, y);
        var k: nat :| k <= j && Turn(g, v, first, k) == y;
        assert k <= j + 1 + l;
      } else {
        assert Turn(g, v, first, j + 1 + l) == y;
      }
    }
    assert SweptLowBy(g, more, found, v, first, c, j + 1 + l);
  }

  /** The end of the path is finished. */
  lemma OrderedUp(g: Surface, w: Walk, path: seq<int>, start: int, first: int, parents: map<int, int>)
    requires IsSurface(g) && Searching(g, w, path, start, first, true) && Taken(w) != Edges(g)
    requires |path| > 1 && Edge(g, w.a, w.b) && Choose(g, w) == path[|path| - 2]
    requires Ordered(g, w, path, first, true, parents)
    ensures Ordered(g, Step(g, w), path[..|path| - 1], first, true, parents)
  {
    hide *;
    SurfaceTriangulated(g);
    PathFound(g, w, path, start, first, true);
    OrderedParts(g, w, path, first, true, parents);
    OldStep(g, w);
    var v, top := Step(g, w), |path| - 1;
    var path' := path[..top];
    ShorterPath(w.found, parents, path);
    forall i | 1 <= i < |path'|
      ensures LowAt(g, v, path', first, true, i)
    {
      assert path[i] != path[top];
      LastInner(w, v, path, path', i, true, true);
      LowStays(g, w, v, path, path', first, true, true, i);
    }
    BackUp(v, path, parents);
    MakeOrdered(g, v, path', first, true, parents);
  }

  lemma BackUp(v: Walk, path: seq<int>, parents: map<int, int>)
    requires ParentsOnPath(parents, path) && |path| > 1 && v.a == path[|path| - 1] && v.b == path[|path| - 2]
    ensures ComesBack(v, path[..|path| - 1], parents)
  {
    assert parents[path[|path| - 1]] == path[|path| - 2];
  }

  lemma ShorterPath(found: map<int, int>, parents: map<int, int>, path: seq<int>)
    requires Rising(found, path) && ParentsOnPath(parents, path) && path != []
    ensures Rising(found, path[..|path| - 1]) && ParentsOnPath(parents, path[..|path| - 1])
  {
    hide Lower;
    var p := path[..|path| - 1];
    forall i {:trigger p[i]} | 0 <= i < |p| - 1
      ensures Lower(found, p[i], p[i + 1])
    {
      assert p[i] == path[i] && p[i + 1] == path[i + 1];
    }
    forall i {:trigger p[i]} | 1 <= i < |p|
      ensures p[i] in parents && parents[p[i]] == p[i - 1]
    {
      assert p[i] == path[i] && p[i - 1] == path[i - 1];
    }
  }

  // The whole walk -------------------------------------------------------------------------------------------

  lemma OrderedStarts(g: Surface, start: int, first: int)
    requires Triangulated(g) && Edge(g, start, first)
    ensures Ordered(g, Start(start, first), [start], first, false, map[])
  {
  }

  /** One step keeps the search and its order. */
  lemma OrderedStep(g: Surface, w: Walk, path: seq<int>, start: int, first: int, returning: bool,
    parents: map<int, int>) returns (path': seq<int>, returning': bool)
    requires IsSurface(g) && Triangulated(g) && Searching(g, w, path, start, first, returning) && Taken(w) != Edges(g)
    requires Numbered(w.found) && Ordered(g, w, path, first, returning, parents)
    ensures Edge(g, w.a, w.b) && Searching(g, Step(g, w), path', start, first, returning')
    ensures Ordered(g, Step(g, w), path', first, returning', if w.b in w.found then parents else parents[w.b := w.a])
  {
    hide *;
    PathFound(g, w, path, start, first, returning);
    if returning {
      if |path| > 1 && Choose(g, w) == path[|path| - 2] {
        StepUp(g, w, path, start, first);
        OrderedUp(g, w, path, start, first, parents);
        path', returning' := path[..|path| - 1], true;
      } else {
        StepOn(g, w, path, start, first);
        OrderedOn(g, w, path, start, first, parents);
        path', returning' := path, false;
      }
    } else if w.b in w.found {
      StepBack(g, w, path, start, first);
      OrderedBack(g, w, path, start, first, parents);
      path', returning' := path, true;
    } else {
      StepNew(g, w, path, start, first);
      OrderedNew(g, w, path, start, first, parents);
      path', returning' := path + [w.b], false;
    }
  }

  lemma AfterNext(g: Surface, start: int, first: int, k: nat)
    requires Triangulated(g) && Edge(g, After(g, start, first, k).a, After(g, start, first, k).b)
    ensures var w := After(g, start, first, k);
      && After(g, start, first, k + 1) == Step(g, w)
      && Parents(g, start, first, k + 1) ==
        (if w.b in w.found then Parents(g, start, first, k) else Parents(g, start, first, k)[w.b := w.a])
  {
    hide Step;
  }

  lemma AfterNone(g: Surface, start: int, first: int)
    requires Triangulated(g)
    ensures After(g, start, first, 0) == Start(start, first) && Parents(g, start, first, 0) == map[]
  {
  }

  /** Every step of the walk is a depth-first search in this order. */
  lemma {:induction false} WalkOrders(g: Surface, start: int, first: int, k: nat)
    returns (path: seq<int>, returning: bool)
    requires IsSurface(g) && Triangulated(g) && Edge(g, start, first) && k < |Edges(g)|
    ensures Searching(g, After(g, start, first, k), path, start, first, returning)
    ensures Ordered(g, After(g, start, first, k), path, first, returning, Parents(g, start, first, k))
  {
    hide *;
    if k == 0 {
      SearchStarts(g, start, first);
      OrderedStarts(g, start, first);
      AfterNone(g, start, first);
      path, returning := [start], false;
    } else {
      path, returning := WalkOrders(g, start, first, k - 1);
      var w := After(g, start, first, k - 1);
      AfterStep(g, start, first, k - 1);
      TakenSize(g, start, first, k - 1);
      AfterNumbered(g, start, first, k - 1);
      path, returning := OrderedStep(g, w, path, start, first, returning, Parents(g, start, first, k - 1));
      AfterNext(g, start, first, k - 1);
    }
  }

  /** Before the last step there is an edge left. */
  lemma TakenSize(g: Surface, start: int, first: int, k: nat)
    requires IsSurface(g) && Triangulated(g) && Edge(g, start, first) && k < |Edges(g)|
    ensures |Taken(After(g, start, first, k))| == k + 1
    ensures Taken(After(g, start, first, k)) <= Edges(g)
    ensures k + 1 < |Edges(g)| ==> Taken(After(g, start, first, k)) != Edges(g)
    ensures Taken(After(g, start, first, k)) != Edges(g) ==> k + 1 < |Edges(g)|
  {
    SurfaceTable(g);
    hide After, IsSurface, Triangulated;
    AfterStep(g, start, first, k);
    var w := After(g, start, first, k);
    UsedCount(g, w);
    assert (w.a, w.b) in Edges(g);
    if k + 1 == |Edges(g)| {
      SameSize(Taken(w), Edges(g));
    }
    SubsetSize(Taken(w), Edges(g));
  }

  lemma {:induction false} StartIsZero(g: Surface, start: int, first: int, k: nat)
    requires Triangulated(g)
    ensures start in After(g, start, first, k).found && After(g, start, first, k).found[start] == 0
  {
    hide Choose;
    if k > 0 {
      StartIsZero(g, start, first, k - 1);
    }
  }

  /** The walk comes to a vertex found before z by an edge that is not that of its parent: it is on its way out. */
  lemma GoingOut(g: Surface, start: int, first: int, k: nat) returns (path: seq<int>)
    requires IsSurface(g) && Triangulated(g) && Edge(g, start, first) && k < |Edges(g)|
    requires var w := After(g, start, first, k); var parents := Parents(g, start, first, k);
      Lower(w.found, w.b, w.a) && !(w.a in parents && parents[w.a] == w.b)
    ensures var w := After(g, start, first, k); var parents := Parents(g, start, first, k);
      && Searching(g, w, path, start, first, false) && Ordered(g, w, path, first, false, parents)
      && |path| > 1
  {
    hide *;
    var w, parents := After(g, start, first, k), Parents(g, start, first, k);
    var returning;
    path, returning := WalkOrders(g, start, first, k);
    PathFound(g, w, path, start, first, returning);
    OrderedParts(g, w, path, first, returning, parents);
    if returning {
      NotLowerBack(w, path, parents);
    }
    StartIsZero(g, start, first, k);
    AfterNumbered(g, start, first, k);
    NotStart(w, start);
    PathStarts(g, w, path, start, first, returning);
  }

  lemma PathStarts(g: Surface, w: Walk, path: seq<int>, start: int, first: int, returning: bool)
    requires Triangulated(g) && Searching(g, w, path, start, first, returning)
    ensures path != [] && path[0] == start
  {
  }

  lemma NotStart(w: Walk, start: int)
    requires Numbered(w.found) && start in w.found && w.found[start] == 0 && Lower(w.found, w.b, w.a)
    ensures w.a != start
  {
  }

  lemma NotLowerBack(w: Walk, path: seq<int>, parents: map<int, int>)
    requires path != [] && ComesBack(w, path, parents) && Rising(w.found, path) && w.b == path[|path| - 1]
    requires Lower(w.found, w.b, w.a)
    ensures w.a in parents && parents[w.a] == w.b
  {
    if w.a in path[..|path| - 1] {
      var m :| 0 <= m < |path| - 1 && path[m] == w.a;
      RisingFar(w.found, path, m, |path| - 1);
    }
  }

  /** The neighbour that follows the one the sweep stands at has not been taken, if it was found before. */
  lemma NextIsFree(g: Surface, w: Walk, path: seq<int>, start: int, first: int, parents: map<int, int>)
    requires Triangulated(g) && Searching(g, w, path, start, first, false) && Ordered(g, w, path, first, false, parents)
    requires |path| > 1 && Edge(g, w.a, w.b) && Edge(g, w.a, Next(g, w.a, w.b))
    requires Lower(w.found, Next(g, w.a, w.b), w.a)
    ensures (w.a, Next(g, w.a, w.b)) !in Taken(w)
  {
    SurfaceTable(g);
    PathFound(g, w, path, start, first, false);
    ParentEdge(g, w, path, start, first);
    hide Searching, Triangulated;
    var top := |path| - 1;
    var x, p := Next(g, w.a, w.b), path[top - 1];
    assert LowAt(g, w, path, first, false, top);
    var from := Next(g, w.a, p);
    assert First(g, path, first, top) == from;
    assert SweptLow(g, Taken(w), w.found, w.a, from, w.b);
    hide Ordered, LowAt, First;
    if (w.a, x) in Taken(w) {
      FullCircle(g, Taken(w), w.found, w.a, p, w.b);
    }
  }

  lemma ParentEdge(g: Surface, w: Walk, path: seq<int>, start: int, first: int)
    requires Triangulated(g) && Searching(g, w, path, start, first, false) && |path| > 1
    ensures path[|path| - 1] == w.a && (w.a, path[|path| - 2]) !in Taken(w)
    ensures Edge(g, w.a, path[|path| - 2]) && Edge(g, path[|path| - 2], w.a)
  {
    var i := |path| - 2;
    assert Edge(g, path[i], path[i + 1]) && (path[i + 1], path[i]) !in Taken(w);
  }

  /** A sweep that comes to an edge it has taken has passed the parent. */
  lemma FullCircle(g: Surface, taken: set<(int, int)>, found: map<int, int>, v: int, p: int, last: int)
    requires Triangulated(g) && Edge(g, v, p) && Edge(g, v, last) && Edge(g, v, Next(g, v, last))
    requires SweptLow(g, taken, found, v, Next(g, v, p), last)
    requires (v, Next(g, v, last)) in taken && Lower(found, Next(g, v, last), v)
    ensures (v, p) in taken
  {
    var from, x := Next(g, v, p), Next(g, v, last);
    var j: nat :| SweptLowBy(g, taken, found, v, from, last, j);
    assert Within(g, v, from, j, x);
    var k: nat :| k <= j && Turn(g, v, from, k) == x;
    assert Turn(g, v, from, j + 1) == x;
    SamePlace(g, v, from, k, j + 1);
    assert Turn(g, v, from, j + 1 - k) == from;
    NextInjective(g, v, Turn(g, v, from, j - k), p);
    assert (v, Turn(g, v, from, j - k)) in taken;
  }

  /** From a vertex found before z the walk comes straight back to z, and if the next one around z was found
      before z too, goes there. */
  lemma LowTurn(g: Surface, start: int, first: int, k: nat)
    requires IsSurface(g) && Triangulated(g) && Edge(g, start, first) && k < |Edges(g)|
    requires var w := After(g, start, first, k); var parents := Parents(g, start, first, k);
      && Lower(w.found, w.b, w.a) && !(w.a in parents && parents[w.a] == w.b)
      && Edge(g, w.a, w.b) && 0 <= w.a < g.n && 0 <= w.b < g.n && Lower(w.found, Next(g, w.a, w.b), w.a)
    ensures k + 2 < |Edges(g)|
    ensures var w, v := After(g, start, first, k), After(g, start, first, k + 2);
      v.a == w.a && v.b == Next(g, w.a, w.b)
  {
    hide *;
    SurfaceTable(g);
    var w, parents := After(g, start, first, k), Parents(g, start, first, k);
    var x := Next(g, w.a, w.b);
    var path := GoingOut(g, start, first, k);
    TurnEdge(g, w.a, w.b);
    NextIsFree(g, w, path, start, first, parents);
    LowerFound(w);
    StepBack(g, w, path, start, first);
    OrderedBack(g, w, path, start, first, parents);
    TakenSize(g, start, first, k);
    EdgeLeft(g, w, x);
    AfterNext(g, start, first, k);
    var v := Step(g, w);
    TakenSize(g, start, first, k + 1);
    StillFree(g, w, v, x);
    BackThenOn(g, w, v, x);
    AfterNext(g, start, first, k + 1);
  }

  lemma LowerFound(w: Walk)
    requires Lower(w.found, w.b, w.a)
    ensures w.b in w.found && w.a in w.found && w.a != w.b
  {
  }

  lemma TurnEdge(g: Surface, b: int, x: int)
    requires Triangulated(g) && Edge(g, b, x)
    ensures 0 <= b < g.n && 0 <= x < g.n && Edge(g, x, b) && Edge(g, b, Next(g, b, x))
  {
  }

  lemma EdgeLeft(g: Surface, w: Walk, x: int)
    requires IsTable(g) && Edge(g, w.a, x) && (w.a, x) !in Taken(w)
    ensures Taken(w) != Edges(g)
  {
    assert (w.a, x) in Edges(g);
  }

  lemma StillFree(g: Surface, w: Walk, v: Walk, x: int)
    requires IsTable(g) && Edge(g, w.a, x) && (w.a, x) !in Taken(w) && w.a != w.b
    requires v == Walk(w.b, w.a, Taken(w), w.found)
    ensures (w.a, x) !in Taken(v) && Taken(v) != Edges(g)
  {
    assert (w.a, x) in Edges(g);
  }

  /** Back at z over an edge by which it was left, the walk takes the next edge around z if that is free. */
  lemma BackThenOn(g: Surface, w: Walk, v: Walk, x: int)
    requires Triangulated(g) && Edge(g, w.a, w.b) && w.a in w.found && v == Walk(w.b, w.a, Taken(w), w.found)
    requires 0 <= w.a < g.n && 0 <= w.b < g.n && x == Next(g, w.a, w.b) && (w.a, x) !in Taken(w)
    ensures Edge(g, v.a, v.b) && Step(g, v).a == w.a && Step(g, v).b == x
  {
    TurnEdge(g, w.a, w.b);
    hide Triangulated;
    assert Turn(g, w.a, x, 0) == x;
    assert Free(g, v.used, v.b, x, 0);
    assert HasFree(g, v.used, v.b, x);
    var l := TurnsToFree(g, v.used, v.b, x);
    assert FirstFree(g, v.used, v.b, x, 0);
    FirstFreeUnique(g, v.used, v.b, x, 0, l);
  }
}
