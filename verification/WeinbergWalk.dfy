/** The walk over the directed edges of a surface: it never needs an edge twice and never gets stuck. */
module WeinbergWalk {
  import opened RotationSystem

  /** The walk about to process the edge a -> b: the edges used before, and the order of discovery. */
  datatype Walk = Walk(a: int, b: int, used: set<(int, int)>, found: map<int, int>)

  function Start(a: int, b: int): Walk {
    Walk(a, b, {}, map[a := 0])
  }

  /** b gets the next number if it is new. */
  function Discover(w: Walk): map<int, int> {
    if w.b in w.found then w.found else w.found[w.b := |w.found|]
  }

  ghost predicate Free(g: Surface, used: set<(int, int)>, b: int, x: int, k: nat)
    requires Triangulated(g) && Edge(g, b, x)
  {
    (b, Turn(g, b, x, k)) !in used
  }

  ghost predicate HasFree(g: Surface, used: set<(int, int)>, b: int, x: int)
    requires Triangulated(g) && Edge(g, b, x)
  {
    exists k: nat :: Free(g, used, b, x, k)
  }

  /** k is the first number of turns that leads to an unused edge. */
  ghost predicate FirstFree(g: Surface, used: set<(int, int)>, b: int, x: int, k: nat)
    requires Triangulated(g) && Edge(g, b, x)
  {
    Free(g, used, b, x, k) && forall j: nat :: j < k ==> !Free(g, used, b, x, j)
  }

  lemma {:induction false} FirstFreeExists(g: Surface, used: set<(int, int)>, b: int, x: int, k: nat)
    requires Triangulated(g) && Edge(g, b, x) && Free(g, used, b, x, k)
    ensures exists l: nat :: FirstFree(g, used, b, x, l)
  {
    if j: nat :| j < k && Free(g, used, b, x, j) {
      FirstFreeExists(g, used, b, x, j);
    } else {
      assert FirstFree(g, used, b, x, k);
    }
  }

  ghost function TurnsToFree(g: Surface, used: set<(int, int)>, b: int, x: int): (l: nat)
    requires Triangulated(g) && Edge(g, b, x) && HasFree(g, used, b, x)
    ensures FirstFree(g, used, b, x, l)
  {
    var k: nat :| Free(g, used, b, x, k);
    FirstFreeExists(g, used, b, x, k);
    var l: nat :| FirstFree(g, used, b, x, l);
    l
  }

  lemma FirstFreeUnique(g: Surface, used: set<(int, int)>, b: int, x: int, k: nat, l: nat)
    requires Triangulated(g) && Edge(g, b, x)
    requires FirstFree(g, used, b, x, k) && FirstFree(g, used, b, x, l)
    ensures k == l
  {
  }

  /** The next edge out of b: to the right at a new vertex, back from an old one reached on a new
      edge, and otherwise the first unused edge to the right. */
  ghost function Choose(g: Surface, w: Walk): int
    requires Triangulated(g) && Edge(g, w.a, w.b)
  {
    var c := Next(g, w.b, w.a);
    if w.b !in w.found then c
    else if (w.b, w.a) !in w.used then w.a
    else if HasFree(g, w.used, w.b, c) then Turn(g, w.b, c, TurnsToFree(g, w.used, w.b, c))
    else -1
  }

  ghost function Step(g: Surface, w: Walk): Walk
    requires Triangulated(g) && Edge(g, w.a, w.b)
  {
    Walk(w.b, Choose(g, w), w.used + {(w.a, w.b)}, Discover(w))
  }

  // The invariant: a depth-first search -------------------------------------------------------------

  /** The edges used so far, the current one included. */
  function Taken(w: Walk): set<(int, int)> {
    w.used + {(w.a, w.b)}
  }

  /** Where the tour around the i-th vertex of the search path begins. */
  ghost function First(g: Surface, path: seq<int>, first: int, i: nat): int
    requires IsTable(g) && i < |path| && (forall k :: 0 <= k < |path| ==> 0 <= path[k] < g.n)
  {
    if i == 0 then first else Next(g, path[i], path[i - 1])
  }

  /** All edges out of v from `first` around to `last` are taken. */
  ghost predicate Swept(g: Surface, taken: set<(int, int)>, v: int, first: int, last: int)
    requires Triangulated(g)
  {
    Edge(g, v, first) && exists j: nat :: SweptBy(g, taken, v, first, last, j)
  }

  ghost predicate SweptBy(g: Surface, taken: set<(int, int)>, v: int, first: int, last: int, j: nat)
    requires Triangulated(g) && Edge(g, v, first)
  {
    Turn(g, v, first, j) == last && forall i: nat :: i <= j ==> (v, Turn(g, v, first, i)) in taken
  }

  ghost predicate AllOut(g: Surface, taken: set<(int, int)>, v: int)
    requires IsTable(g)
  {
    forall y :: Edge(g, v, y) ==> (v, y) in taken
  }

  ghost predicate TreeEdge(path: seq<int>, x: int, y: int) {
    exists i :: 0 <= i < |path| - 1 && path[i] == x && path[i + 1] == y
  }

  /** The end of the path walks out over its current edge. */
  ghost predicate Forward(g: Surface, w: Walk, path: seq<int>, first: int)
    requires Triangulated(g) && path != [] && (forall k :: 0 <= k < |path| ==> 0 <= path[k] < g.n)
  {
    var top := |path| - 1;
    && w.a == path[top]
    && Swept(g, Taken(w), w.a, First(g, path, first, top), w.b)
    && (top > 0 ==> w.b != path[top - 1])
  }

  /** The walk comes back to the end of the path over an edge it left by before. */
  ghost predicate Returning(g: Surface, w: Walk, path: seq<int>, first: int)
    requires Triangulated(g) && path != [] && (forall k :: 0 <= k < |path| ==> 0 <= path[k] < g.n)
  {
    var top := |path| - 1;
    && w.b == path[top]
    && (w.b, w.a) in w.used
    && Swept(g, Taken(w), w.b, First(g, path, first, top), w.a)
  }

  ghost predicate IsPath(g: Surface, w: Walk, path: seq<int>, start: int)
    requires IsTable(g)
  {
    && path != [] && path[0] == start
    && (forall i, j :: 0 <= i < j < |path| ==> path[i] != path[j])
    && (forall i :: 0 <= i < |path| ==> 0 <= path[i] < g.n && path[i] in w.found)
    && (forall i :: 0 <= i < |path| - 1 ==>
          Edge(g, path[i], path[i + 1]) && (path[i], path[i + 1]) in Taken(w) && (path[i + 1], path[i]) !in Taken(w))
  }

  /** The current edge is new, and everything seen lies in the surface. */
  ghost predicate Sane(g: Surface, w: Walk)
    requires IsTable(g)
  {
    && Edge(g, w.a, w.b) && (w.a, w.b) !in w.used && w.used <= Edges(g)
    && w.a in w.found && (forall v :: v in w.found ==> 0 <= v < g.n)
    && (forall x, y :: (x, y) in w.used ==> x in w.found && y in w.found)
  }

  /** Vertices that were found and left the path have no edge left. */
  ghost predicate Finished(g: Surface, w: Walk, path: seq<int>)
    requires IsTable(g)
  {
    forall v :: v in w.found && v !in path ==> AllOut(g, Taken(w), v)
  }

  /** Vertices on the path have swept their edges up to the one they left by. */
  ghost predicate SweptPath(g: Surface, w: Walk, path: seq<int>, first: int)
    requires Triangulated(g) && (forall k :: 0 <= k < |path| ==> 0 <= path[k] < g.n)
  {
    forall i {:trigger path[i]} :: 0 <= i < |path| - 1 ==>
      Swept(g, Taken(w), path[i], First(g, path, first, i), path[i + 1])
  }

  /** Every used edge is used in the other direction too, except along the path and for the edge the
      walk is coming back over. */
  ghost predicate Paired(w: Walk, path: seq<int>, returning: bool) {
    forall x, y :: (x, y) in w.used ==>
      (y, x) in w.used || TreeEdge(path, x, y) || (returning && x == w.b && y == w.a)
  }

  /** The walk is a depth-first search along `path`. */
  ghost predicate Searching(g: Surface, w: Walk, path: seq<int>, start: int, first: int, returning: bool)
    requires Triangulated(g)
  {
    && Sane(g, w) && IsPath(g, w, path, start) && Finished(g, w, path) && SweptPath(g, w, path, first)
    && (if returning then Returning(g, w, path, first) else Forward(g, w, path, first))
    && Paired(w, path, returning)
  }

  lemma SearchStarts(g: Surface, start: int, first: int)
    requires Triangulated(g) && Edge(g, start, first)
    ensures Searching(g, Start(start, first), [start], start, first, false)
  {
    var w := Start(start, first);
    assert SweptBy(g, Taken(w), start, first, first, 0);
    assert Forward(g, w, [start], first);
  }

  lemma SweptGrows(g: Surface, taken: set<(int, int)>, more: set<(int, int)>, v: int, first: int, last: int)
    requires Triangulated(g) && Swept(g, taken, v, first, last) && taken <= more
    ensures Swept(g, more, v, first, last)
  {
    var j: nat :| SweptBy(g, taken, v, first, last, j);
    assert SweptBy(g, more, v, first, last, j);
  }

  /** From where j + 1 turns led to x, l more turns lead to the first unused edge. */
  lemma SweptBetween(g: Surface, used: set<(int, int)>, v: int, first: int, j: nat, x: int, l: nat, i: nat)
    requires Triangulated(g) && Edge(g, v, first) && Edge(g, v, x) && Turn(g, v, first, j + 1) == x
    requires FirstFree(g, used, v, x, l) && j < i < j + 1 + l
    ensures (v, Turn(g, v, first, i)) in used
  {
    var k: nat := i - (j + 1);
    TurnAdd(g, v, first, j + 1, k);
    hide Triangulated, Edge, Turn;
    assert !Free(g, used, v, x, k);
  }

  lemma SweptOn(g: Surface, taken: set<(int, int)>, v: int, first: int, last: int, used: set<(int, int)>, l: nat)
    requires Triangulated(g) && Swept(g, taken, v, first, last) && used <= taken
    requires Edge(g, v, last) && FirstFree(g, used, v, Next(g, v, last), l)
    requires Edge(g, v, Next(g, v, last))
    ensures var c := Turn(g, v, Next(g, v, last), l); Swept(g, taken + {(v, c)}, v, first, c)
  {
    var j: nat :| SweptBy(g, taken, v, first, last, j);
    var x := Next(g, v, last);
    assert Turn(g, v, first, j + 1) == x;
    TurnAdd(g, v, first, j + 1, l);
    hide Triangulated, Edge, Turn, FirstFree, IsTable;
    var c := Turn(g, v, x, l);
    var more := taken + {(v, c)};
    forall i: nat | i <= j + 1 + l
      ensures (v, Turn(g, v, first, i)) in more
    {
      if j < i < j + 1 + l {
        SweptBetween(g, used, v, first, j, x, l, i);
      }
    }
    assert SweptBy(g, more, v, first, c, j + 1 + l);
  }

  /** A sweep from the right of x all the way around to x is complete. */
  lemma SweptAll(g: Surface, taken: set<(int, int)>, v: int, x: int)
    requires Triangulated(g) && Manifold(g) && Edge(g, v, x) && Edge(g, v, Next(g, v, x))
    requires Swept(g, taken, v, Next(g, v, x), x)
    ensures AllOut(g, taken, v)
  {
    var first := Next(g, v, x);
    var j: nat :| SweptBy(g, taken, v, first, x, j);
    assert Turn(g, v, first, j + 1) == first;
    forall y | Edge(g, v, y)
      ensures (v, y) in taken
    {
      assert Reaches(g, v, first, y);
      var k: nat :| Turn(g, v, first, k) == y;
      CycleCovers(g, v, first, j, k);
    }
  }

  // One step keeps the search ----------------------------------------------------------------------

  lemma TakenGrows(g: Surface, w: Walk)
    requires Triangulated(g) && Edge(g, w.a, w.b)
    ensures var v := Step(g, w); Taken(v) == Taken(w) + {(v.a, v.b)} && v.used == Taken(w)
  {
  }

  lemma FinishedGrows(g: Surface, w: Walk, path: seq<int>, path': seq<int>)
    requires Triangulated(g) && Edge(g, w.a, w.b) && Finished(g, w, path)
    requires forall v :: v in path ==> v in path' || AllOut(g, Taken(Step(g, w)), v)
    requires w.b in w.found || w.b in path'
    ensures Finished(g, Step(g, w), path')
  {
    TakenGrows(g, w);
  }

  lemma SweptPathGrows(g: Surface, w: Walk, path: seq<int>, path': seq<int>, first: int)
    requires Triangulated(g) && Edge(g, w.a, w.b)
    requires (forall k :: 0 <= k < |path| ==> 0 <= path[k] < g.n)
    requires (forall k :: 0 <= k < |path'| ==> 0 <= path'[k] < g.n)
    requires SweptPath(g, w, path, first) && path' <= path
    ensures SweptPath(g, Step(g, w), path', first)
  {
    hide Swept, Step;
    TakenGrows(g, w);
    var v := Step(g, w);
    forall i {:trigger path'[i]} | 0 <= i < |path'| - 1
      ensures Swept(g, Taken(v), path'[i], First(g, path', first, i), path'[i + 1])
    {
      assert path'[i] == path[i] && path'[i + 1] == path[i + 1];
      SweptGrows(g, Taken(w), Taken(v), path[i], First(g, path, first, i), path[i + 1]);
    }
  }

  /** A new vertex joins the path. */
  lemma StepNew(g: Surface, w: Walk, path: seq<int>, start: int, first: int)
    requires IsSurface(g) && Searching(g, w, path, start, first, false) && w.b !in w.found
    ensures Searching(g, Step(g, w), path + [w.b], start, first, false)
  {
    hide Manifold, Connected, SweptPath, Paired, Finished, Swept, Forward, Step;
    TakenGrows(g, w);
    ForwardTop(g, w, path, first);
    FinishedGrows(g, w, path, path + [w.b]);
    NewSwept(g, w, path, first);
    NewForward(g, w, path, first);
    NewPaired(g, w, path);
    NewSane(g, w);
    NewPath(g, w, path, start);
  }

  lemma ForwardTop(g: Surface, w: Walk, path: seq<int>, first: int)
    requires Triangulated(g) && path != [] && (forall k :: 0 <= k < |path| ==> 0 <= path[k] < g.n)
    requires Forward(g, w, path, first)
    ensures w.a == path[|path| - 1]
  {
  }

  lemma NewSane(g: Surface, w: Walk)
    requires Triangulated(g) && Sane(g, w) && w.b !in w.found
    ensures Sane(g, Step(g, w))
  {
  }

  lemma NewPath(g: Surface, w: Walk, path: seq<int>, start: int)
    requires Triangulated(g) && Sane(g, w) && IsPath(g, w, path, start) && w.b !in w.found && w.a == path[|path| - 1]
    ensures IsPath(g, Step(g, w), path + [w.b], start)
  {
    var c := Next(g, w.b, w.a);
    assert Edge(g, w.b, w.a) && c != w.a;
    NewStep(g, w);
    hide Step, Triangulated;
    var v, path' := Step(g, w), path + [w.b];
    TakenGrows(g, w);
    forall i | 0 <= i < |path'| - 1
      ensures Edge(g, path'[i], path'[i + 1])
      ensures (path'[i], path'[i + 1]) in Taken(v) && (path'[i + 1], path'[i]) !in Taken(v)
    {
      assert path'[i] == path[i];
      if i < |path| - 1 {
        assert path'[i + 1] == path[i + 1];
      }
    }
  }

  lemma NewStep(g: Surface, w: Walk)
    requires Triangulated(g) && Edge(g, w.a, w.b) && w.b !in w.found
    ensures Step(g, w) == Walk(w.b, Next(g, w.b, w.a), Taken(w), w.found[w.b := |w.found|])
  {
  }

  lemma NewSwept(g: Surface, w: Walk, path: seq<int>, first: int)
    requires Triangulated(g) && Edge(g, w.a, w.b) && path != []
    requires (forall k :: 0 <= k < |path| ==> 0 <= path[k] < g.n)
    requires SweptPath(g, w, path, first) && Forward(g, w, path, first)
    ensures SweptPath(g, Step(g, w), path + [w.b], first)
  {
    hide Swept, Step;
    TakenGrows(g, w);
    var v, path' := Step(g, w), path + [w.b];
    forall i {:trigger path'[i]} | 0 <= i < |path'| - 1
      ensures Swept(g, Taken(v), path'[i], First(g, path', first, i), path'[i + 1])
    {
      assert path'[i] == path[i];
      assert First(g, path', first, i) == First(g, path, first, i);
      if i < |path| - 1 {
        assert path'[i + 1] == path[i + 1];
      }
      SweptGrows(g, Taken(w), Taken(v), path[i], First(g, path, first, i), path'[i + 1]);
    }
  }

  lemma NewForward(g: Surface, w: Walk, path: seq<int>, first: int)
    requires Triangulated(g) && Edge(g, w.a, w.b) && path != [] && w.b !in w.found
    requires (forall k :: 0 <= k < |path| ==> 0 <= path[k] < g.n) && w.a == path[|path| - 1]
    ensures Forward(g, Step(g, w), path + [w.b], first)
  {
    var v := Step(g, w);
    var c := Next(g, w.b, w.a);
    assert Edge(g, w.b, w.a) && Edge(g, w.b, c);
    assert SweptBy(g, Taken(v), w.b, c, c, 0);
  }

  lemma NewPaired(g: Surface, w: Walk, path: seq<int>)
    requires Triangulated(g) && Edge(g, w.a, w.b) && path != [] && w.a == path[|path| - 1]
    requires Paired(w, path, false)
    ensures Paired(Step(g, w), path + [w.b], false)
  {
    hide Step;
    TakenGrows(g, w);
    var path' := path + [w.b];
    forall x, y | (x, y) in Taken(w)
      ensures (y, x) in Taken(w) || TreeEdge(path', x, y)
    {
      if (x, y) == (w.a, w.b) {
        assert path'[|path| - 1] == x && path'[|path|] == y;
      } else if TreeEdge(path, x, y) {
        var i :| 0 <= i < |path| - 1 && path[i] == x && path[i + 1] == y;
        assert path'[i] == x && path'[i + 1] == y;
      }
    }
  }

  /** An old vertex reached over a new edge sends the walk straight back. */
  lemma StepBack(g: Surface, w: Walk, path: seq<int>, start: int, first: int)
    requires IsSurface(g) && Searching(g, w, path, start, first, false) && w.b in w.found
    ensures (w.b, w.a) !in w.used
    ensures Searching(g, Step(g, w), path, start, first, true)
  {
    hide Manifold, Connected, SweptPath, Finished;
    if (w.b, w.a) in w.used {
      assert false;
    }
    TakenGrows(g, w);
    FinishedGrows(g, w, path, path);
    SweptPathGrows(g, w, path, path, first);
    SweptGrows(g, Taken(w), Taken(Step(g, w)), w.a, First(g, path, first, |path| - 1), w.b);
  }

  /** If nothing is left at the start, nothing is left at all. */
  lemma AllTaken(g: Surface, w: Walk, start: int)
    requires IsSurface(g) && Sane(g, w) && Finished(g, w, [start]) && AllOut(g, Taken(w), start)
    requires start in w.found && w.b in w.found
    ensures Taken(w) == Edges(g)
  {
    hide Manifold;
    forall x, y | x in w.found && Edge(g, x, y)
      ensures y in w.found && (x, y) in Taken(w)
    {
      if x == start {
      } else {
        assert x !in [start];
      }
      assert (x, y) in Taken(w);
    }
    assert ClosedUnderEdges(g, w.found.Keys);
    forall e | e in Edges(g)
      ensures e in Taken(w)
    {
      assert Edge(g, e.0, e.1);
    }
  }

  /** Back at an old vertex there is an unused edge, unless all edges are taken. */
  lemma TurnHasFree(g: Surface, w: Walk, path: seq<int>, start: int, first: int)
    requires IsSurface(g) && Searching(g, w, path, start, first, true) && Taken(w) != Edges(g)
    ensures Edge(g, w.b, w.a) && Edge(g, w.b, Next(g, w.b, w.a))
    ensures HasFree(g, w.used, w.b, Next(g, w.b, w.a))
  {
    hide SweptPath, Paired, Connected;
    var x, top := Next(g, w.b, w.a), |path| - 1;
    assert Edge(g, w.b, w.a) && Edge(g, w.b, x);
    var y: int;
    if top > 0 {
      y := path[top - 1];
      assert Edge(g, path[top - 1], path[top]);
    } else {
      assert path == [start];
      if AllOut(g, Taken(w), start) {
        AllTaken(g, w, start);
      }
      y :| Edge(g, start, y) && (start, y) !in Taken(w);
    }
    assert Edge(g, w.b, y) && (w.b, y) !in w.used;
    assert Reaches(g, w.b, x, y);
    var k: nat :| Turn(g, w.b, x, k) == y;
    assert Free(g, w.used, w.b, x, k);
  }

  /** The sweep at an old vertex goes on to its next unused edge. */
  lemma StepTurn(g: Surface, w: Walk, path: seq<int>, start: int, first: int)
    requires IsSurface(g) && Searching(g, w, path, start, first, true) && Taken(w) != Edges(g)
    ensures w.b in w.found && (w.b, w.a) in w.used
    ensures Edge(g, w.b, Choose(g, w)) && (w.b, Choose(g, w)) !in Taken(w)
    ensures Swept(g, Taken(Step(g, w)), w.b, First(g, path, first, |path| - 1), Choose(g, w))
  {
    hide SweptPath, Paired, Manifold, Connected, Finished;
    TurnHasFree(g, w, path, start, first);
    var x := Next(g, w.b, w.a);
    var l := TurnsToFree(g, w.used, w.b, x);
    assert Choose(g, w) == Turn(g, w.b, x, l);
    assert Free(g, w.used, w.b, x, l);
    TakenGrows(g, w);
    SweptOn(g, Taken(w), w.b, First(g, path, first, |path| - 1), w.a, w.used, l);
  }

  lemma TurnSane(g: Surface, w: Walk)
    requires Triangulated(g) && Sane(g, w) && w.b in w.found
    requires Edge(g, w.b, Choose(g, w)) && (w.b, Choose(g, w)) !in Taken(w)
    ensures Sane(g, Step(g, w))
  {
    hide Choose;
  }

  /** The walk leaves an old vertex over another edge of its own. */
  lemma StepOn(g: Surface, w: Walk, path: seq<int>, start: int, first: int)
    requires IsSurface(g) && Searching(g, w, path, start, first, true) && Taken(w) != Edges(g)
    requires |path| > 1 ==> Choose(g, w) != path[|path| - 2]
    ensures Searching(g, Step(g, w), path, start, first, false)
  {
    hide SweptPath, Manifold, Connected, Finished, Swept, Choose;
    StepTurn(g, w, path, start, first);
    TurnSane(g, w);
    TakenGrows(g, w);
    FinishedGrows(g, w, path, path);
    SweptPathGrows(g, w, path, path, first);
  }

  /** What is on the path and not its end is on the shorter path. */
  lemma OnShorter(path: seq<int>)
    requires path != []
    ensures forall u :: u in path ==> u in path[..|path| - 1] || u == path[|path| - 1]
  {
  }

  /** The walk leaves a vertex with nothing left over the edge it first came by: the vertex is done. */
  lemma StepUp(g: Surface, w: Walk, path: seq<int>, start: int, first: int)
    requires IsSurface(g) && Searching(g, w, path, start, first, true) && Taken(w) != Edges(g)
    requires |path| > 1 && Choose(g, w) == path[|path| - 2]
    ensures Searching(g, Step(g, w), path[..|path| - 1], start, first, true)
  {
    hide SweptPath, Manifold, Connected, Finished, Swept, Choose, Paired;
    var top := |path| - 1;
    var v, path' := Step(g, w), path[..top];
    StepTurn(g, w, path, start, first);
    TurnSane(g, w);
    TakenGrows(g, w);
    assert First(g, path, first, top) == Next(g, w.b, path[top - 1]);
    assert Edge(g, path[top - 1], path[top]);
    SweptAll(g, Taken(v), w.b, path[top - 1]);
    OnShorter(path);
    FinishedGrows(g, w, path, path');
    SweptPathGrows(g, w, path, path', first);
    UpReturning(g, w, path, first);
    UpPaired(g, w, path);
  }

  lemma UpReturning(g: Surface, w: Walk, path: seq<int>, first: int)
    requires Triangulated(g) && Edge(g, w.a, w.b) && |path| > 1 && (forall k :: 0 <= k < |path| ==> 0 <= path[k] < g.n)
    requires SweptPath(g, w, path, first) && w.b == path[|path| - 1] && Choose(g, w) == path[|path| - 2]
    requires (path[|path| - 2], path[|path| - 1]) in Taken(w)
    ensures Returning(g, Step(g, w), path[..|path| - 1], first)
  {
    hide Swept, Choose;
    var top := |path| - 1;
    TakenGrows(g, w);
    assert path[top - 1] == path[..top][top - 1];
    assert First(g, path[..top], first, top - 1) == First(g, path, first, top - 1);
    SweptGrows(g, Taken(w), Taken(Step(g, w)), path[top - 1], First(g, path, first, top - 1), path[top]);
  }

  lemma UpPaired(g: Surface, w: Walk, path: seq<int>)
    requires Triangulated(g) && Edge(g, w.a, w.b) && |path| > 1
    requires Paired(w, path, true) && (w.b, w.a) in w.used
    requires w.b == path[|path| - 1] && Choose(g, w) == path[|path| - 2]
    ensures Paired(Step(g, w), path[..|path| - 1], true)
  {
    hide Choose;
    var v, path' := Step(g, w), path[..|path| - 1];
    forall x, y | (x, y) in v.used
      ensures (y, x) in v.used || TreeEdge(path', x, y) || (x == v.b && y == v.a)
    {
      if (x, y) in w.used && (y, x) !in w.used && TreeEdge(path, x, y) {
        var i :| 0 <= i < |path| - 1 && path[i] == x && path[i + 1] == y;
        if i < |path'| - 1 {
          assert path'[i] == x && path'[i + 1] == y;
        }
      }
    }
  }

  // The whole walk -------------------------------------------------------------------------------------

  /** The walk before it processes its k-th edge, counted from zero. */
  ghost function After(g: Surface, start: int, first: int, k: nat): Walk
    requires Triangulated(g)
  {
    if k == 0 then Start(start, first) else
      var w := After(g, start, first, k - 1);
      if Edge(g, w.a, w.b) then Step(g, w) else w
  }

  lemma {:induction false} UsedCount(g: Surface, w: Walk)
    requires Triangulated(g) && Edge(g, w.a, w.b) && (w.a, w.b) !in w.used
    ensures |Taken(w)| == |w.used| + 1
  {
  }

  /** Every step stays a depth-first search and takes an edge not taken before. */
  lemma {:induction false} WalkSearches(g: Surface, start: int, first: int, k: nat) returns (path: seq<int>,
                                        returning: bool)
    requires IsSurface(g) && Edge(g, start, first) && k < |Edges(g)|
    ensures Searching(g, After(g, start, first, k), path, start, first, returning)
    ensures |After(g, start, first, k).used| == k
  {
    hide Searching, Manifold, Connected;
    if k == 0 {
      SearchStarts(g, start, first);
      path, returning := [start], false;
    } else {
      path, returning := WalkSearches(g, start, first, k - 1);
      var w := After(g, start, first, k - 1);
      SearchIsSane(g, w, path, start, first, returning);
      UsedCount(g, w);
      TakenGrows(g, w);
      assert Taken(w) != Edges(g);
      path, returning := OneStep(g, w, path, start, first, returning);
    }
  }

  lemma SearchIsSane(g: Surface, w: Walk, path: seq<int>, start: int, first: int, returning: bool)
    requires Triangulated(g) && Searching(g, w, path, start, first, returning)
    ensures Sane(g, w)
  {
  }

  lemma OneStep(g: Surface, w: Walk, path: seq<int>, start: int, first: int, returning: bool)
    returns (path': seq<int>, returning': bool)
    requires IsSurface(g) && Searching(g, w, path, start, first, returning) && Taken(w) != Edges(g)
    ensures Edge(g, w.a, w.b) && Searching(g, Step(g, w), path', start, first, returning')
  {
    SearchIsSane(g, w, path, start, first, returning);
    hide Searching, Manifold, Connected, Choose, Step;
    if returning {
      if |path| > 1 && Choose(g, w) == path[|path| - 2] {
        StepUp(g, w, path, start, first);
        path', returning' := path[..|path| - 1], true;
      } else {
        StepOn(g, w, path, start, first);
        path', returning' := path, false;
      }
    } else if w.b in w.found {
      StepBack(g, w, path, start, first);
      path', returning' := path, true;
    } else {
      StepNew(g, w, path, start, first);
      path', returning' := path + [w.b], false;
    }
  }

  /** The edge the walk processes at its k-th step. */
  ghost function EdgeAt(g: Surface, start: int, first: int, k: nat): (int, int)
    requires Triangulated(g)
  {
    var w := After(g, start, first, k);
    (w.a, w.b)
  }

  ghost predicate Seen(g: Surface, start: int, first: int, k: nat, e: (int, int))
    requires Triangulated(g)
  {
    exists i: nat :: i < k && EdgeAt(g, start, first, i) == e
  }

  lemma SeenNext(g: Surface, start: int, first: int, k: nat, e: (int, int))
    requires Triangulated(g)
    ensures Seen(g, start, first, k + 1, e) <==> Seen(g, start, first, k, e) || EdgeAt(g, start, first, k) == e
  {
    hide EdgeAt, Triangulated;
    if Seen(g, start, first, k + 1, e) {
      var i: nat :| i < k + 1 && EdgeAt(g, start, first, i) == e;
    }
  }

  lemma AfterStep(g: Surface, start: int, first: int, k: nat)
    requires IsSurface(g) && Edge(g, start, first) && k < |Edges(g)|
    ensures var w := After(g, start, first, k);
      Edge(g, w.a, w.b) && (w.a, w.b) !in w.used && |w.used| == k && w.used <= Edges(g)
    ensures After(g, start, first, k + 1).used == Taken(After(g, start, first, k))
  {
    hide Searching, Manifold, Connected, Choose;
    var path, returning := WalkSearches(g, start, first, k);
    SearchIsSane(g, After(g, start, first, k), path, start, first, returning);
  }

  /** The used edges are those of the earlier steps. */
  lemma {:induction false} UsedSoFar(g: Surface, start: int, first: int, k: nat, e: (int, int))
    requires IsSurface(g) && Edge(g, start, first) && k < |Edges(g)|
    ensures e in After(g, start, first, k).used <==> Seen(g, start, first, k, e)
  {
    hide *;
    SurfaceTriangulated(g);
    if k > 0 {
      UsedSoFar(g, start, first, k - 1, e);
      AfterStep(g, start, first, k - 1);
      SeenNext(g, start, first, k - 1, e);
      UsedNext(g, start, first, k - 1, e);
    } else {
      UsedFirst(g, start, first, e);
    }
  }

  lemma UsedFirst(g: Surface, start: int, first: int, e: (int, int))
    requires Triangulated(g)
    ensures e !in After(g, start, first, 0).used && !Seen(g, start, first, 0, e)
  {
  }

  lemma UsedNext(g: Surface, start: int, first: int, k: nat, e: (int, int))
    requires Triangulated(g)
    ensures e in Taken(After(g, start, first, k)) <==>
      e in After(g, start, first, k).used || EdgeAt(g, start, first, k) == e
  {
    hide After;
  }

  /** Over its 2E steps the walk takes every directed edge of the surface exactly once. */
  lemma WalkTakesEachEdgeOnce(g: Surface, start: int, first: int, x: int, y: int)
    requires IsSurface(g) && Edge(g, start, first)
    ensures Edge(g, x, y) <==> Seen(g, start, first, |Edges(g)|, (x, y))
    ensures forall j: nat, k: nat :: j < k < |Edges(g)| ==> EdgeAt(g, start, first, j) != EdgeAt(g, start, first, k)
  {
    hide Manifold, Connected, After, Edges;
    forall j: nat, k: nat | j < k < |Edges(g)|
      ensures EdgeAt(g, start, first, j) != EdgeAt(g, start, first, k)
    {
      AfterStep(g, start, first, k);
      UsedSoFar(g, start, first, k, EdgeAt(g, start, first, j));
    }
    AllSeen(g, start, first, (x, y));
  }

  lemma AllSeen(g: Surface, start: int, first: int, e: (int, int))
    requires IsSurface(g) && Edge(g, start, first)
    ensures Edge(g, e.0, e.1) <==> Seen(g, start, first, |Edges(g)|, e)
  {
    hide Manifold, Connected, After, Seen;
    assert (start, first) in Edges(g);
    assert e in Edges(g) <==> Edge(g, e.0, e.1);
    var last: nat := |Edges(g)| - 1;
    AfterStep(g, start, first, last);
    var w := After(g, start, first, last);
    assert (w.a, w.b) in Edges(g);
    SameSize(Taken(w), Edges(g));
    UsedSoFar(g, start, first, last, e);
    SeenNext(g, start, first, last, e);
  }

  lemma SameSize<T>(a: set<T>, b: set<T>)
    requires a <= b && |a| == |b|
    ensures a == b
  {
    assert b == a + (b - a);
  }
}
