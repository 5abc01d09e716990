/** The code of a walk determines the coloured surface: equal codes come from surfaces that differ by a renaming. */
module WeinbergComplete {
  import opened RotationSystem
  import opened WeinbergWalk
  import opened WeinbergCode
  import opened WeinbergRelabel
  import opened WeinbergOrder
  import opened WeinbergNumbers

  /** Two walks, and the renaming that takes each vertex to the one with the same number. */
  datatype Pair = Pair(g: Surface, a: int, b: int, h: Surface, c: int, d: int, pi: seq<int>, inv: seq<int>)

  function Swapped(p: Pair): Pair {
    Pair(p.h, p.c, p.d, p.g, p.a, p.b, p.inv, p.pi)
  }

  ghost predicate Walks(p: Pair) {
    IsWalk(p.g, p.a, p.b) && IsWalk(p.h, p.c, p.d) && Triangulated(p.g) && Triangulated(p.h) &&
    p.g.n == p.h.n && |Edges(p.g)| == |Edges(p.h)| && Inverse(p.pi, p.inv, p.g.n)
  }

  /** The walks come to vertices of equal numbers. */
  ghost predicate Matched(p: Pair) {
    && Walks(p)
    && (forall v :: v in Final(p.g, p.a, p.b) ==>
        0 <= v < p.g.n && p.pi[v] in Final(p.h, p.c, p.d) &&
        Final(p.h, p.c, p.d)[p.pi[v]] == Final(p.g, p.a, p.b)[v])
    && (forall i: nat :: i < |Edges(p.g)| ==>
        0 <= VertexAt(p.g, p.a, p.b, i) < p.g.n && VertexAt(p.h, p.c, p.d, i) == p.pi[VertexAt(p.g, p.a, p.b, i)])
  }

  lemma Parts(p: Pair)
    requires Walks(p)
    ensures IsWalk(p.g, p.a, p.b) && IsWalk(p.h, p.c, p.d) && Triangulated(p.g) && Triangulated(p.h)
    ensures IsTable(p.g) && IsTable(p.h) && IsSurface(p.g) && IsSurface(p.h)
    ensures p.g.n == p.h.n && |Edges(p.g)| == |Edges(p.h)| && Inverse(p.pi, p.inv, p.g.n) && |p.pi| == |p.inv| == p.g.n
    ensures Edge(p.g, p.a, p.b) && Edge(p.h, p.c, p.d) && |Edges(p.g)| > 0
  {
    WalkParts(p.g, p.a, p.b);
    WalkParts(p.h, p.c, p.d);
    hide IsSurface, Triangulated;
  }

  lemma MatchedWalks(p: Pair)
    requires Matched(p)
    ensures Walks(p)
  {
  }

  lemma There(p: Pair, v: int)
    requires Walks(p) && 0 <= v < p.g.n
    ensures |p.pi| == |p.inv| == p.g.n && 0 <= p.pi[v] < p.g.n && p.inv[p.pi[v]] == v
    ensures 0 <= p.inv[v] < p.g.n && p.pi[p.inv[v]] == v
  {
  }

  lemma SameNumber(p: Pair, v: int)
    requires Matched(p) && 0 <= v < p.g.n
    ensures Triangulated(p.g) && Triangulated(p.h) && |p.pi| == p.g.n
    ensures v in Final(p.g, p.a, p.b) && p.pi[v] in Final(p.h, p.c, p.d)
    ensures Final(p.h, p.c, p.d)[p.pi[v]] == Final(p.g, p.a, p.b)[v]
  {
    hide Final, IsWalk, Triangulated, Inverse;
    FinalNumbers(p.g, p.a, p.b);
    There(p, v);
  }

  lemma Along(p: Pair, i: nat)
    requires Matched(p) && i < |Edges(p.g)|
    ensures Triangulated(p.g) && Triangulated(p.h) && |p.pi| == p.g.n
    ensures 0 <= VertexAt(p.g, p.a, p.b, i) < p.g.n
    ensures VertexAt(p.h, p.c, p.d, i) == p.pi[VertexAt(p.g, p.a, p.b, i)]
  {
    hide VertexAt, IsWalk, Triangulated, Final;
  }

  lemma SwapMatched(p: Pair)
    requires Matched(p)
    ensures Matched(Swapped(p))
  {
    var q := Swapped(p);
    Parts(p);
    hide Final, IsWalk, Triangulated, VertexAt;
    assert Walks(q);
    FinalNumbers(p.h, p.c, p.d);
    forall v | v in Final(q.g, q.a, q.b)
      ensures 0 <= v < q.g.n && q.pi[v] in Final(q.h, q.c, q.d)
      ensures Final(q.h, q.c, q.d)[q.pi[v]] == Final(q.g, q.a, q.b)[v]
    {
      There(p, v);
      SameNumber(p, p.inv[v]);
    }
    forall i: nat | i < |Edges(q.g)|
      ensures 0 <= VertexAt(q.g, q.a, q.b, i) < q.g.n
      ensures VertexAt(q.h, q.c, q.d, i) == q.pi[VertexAt(q.g, q.a, q.b, i)]
    {
      Along(p, i);
      There(p, VertexAt(p.g, p.a, p.b, i));
    }
  }

  // The histories agree --------------------------------------------------------------------------------------

  /** What has been found is what has a number below their count. */
  lemma FoundByNumber(g: Surface, start: int, first: int, i: nat, v: int)
    requires IsWalk(g, start, first) && Triangulated(g) && i < |Edges(g)| && 0 <= v < g.n
    ensures v in Final(g, start, first)
    ensures v in After(g, start, first, i).found <==> Final(g, start, first)[v] < |After(g, start, first, i).found|
    ensures v in After(g, start, first, i).found ==>
      After(g, start, first, i).found[v] == Final(g, start, first)[v]
  {
    hide *;
    FinalNumbers(g, start, first);
    FoundBegins(g, start, first, i, |Edges(g)| - 1) by { WalkParts(g, start, first); }
    StepFacts(g, start, first, i);
    ByNumber(After(g, start, first, i).found, Final(g, start, first), v);
  }

  lemma ByNumber(found: map<int, int>, later: map<int, int>, v: int)
    requires Begins(found, later) && Numbered(found) && v in later
    ensures v in found <==> later[v] < |found|
    ensures v in found ==> found[v] == later[v]
  {
  }

  /** The walks have found equally many vertices. */
  lemma {:induction false} SameCount(p: Pair, i: nat)
    requires Matched(p) && i < |Edges(p.g)|
    ensures Triangulated(p.g) && Triangulated(p.h)
    ensures |After(p.g, p.a, p.b, i).found| == |After(p.h, p.c, p.d, i).found|
  {
    hide *;
    MatchedWalks(p);
    Parts(p);
    if i == 0 {
      AfterNone(p.g, p.a, p.b);
      AfterNone(p.h, p.c, p.d);
      OneFound(p.a, p.b);
      OneFound(p.c, p.d);
    } else {
      SameCount(p, i - 1);
      StepFacts(p.g, p.a, p.b, i - 1);
      StepFacts(p.h, p.c, p.d, i - 1);
      Along(p, i);
      var v := VertexAt(p.g, p.a, p.b, i);
      There(p, v);
      SameNumber(p, v);
      FoundByNumber(p.g, p.a, p.b, i - 1, v);
      FoundByNumber(p.h, p.c, p.d, i - 1, p.pi[v]);
      DiscoverCount(After(p.g, p.a, p.b, i - 1));
      DiscoverCount(After(p.h, p.c, p.d, i - 1));
    }
  }

  lemma OneFound(a: int, b: int)
    ensures |Start(a, b).found| == 1
  {
  }

  lemma DiscoverCount(w: Walk)
    ensures |Discover(w)| == if w.b in w.found then |w.found| else |w.found| + 1
  {
  }

  /** And the same ones. */
  lemma SameFound(p: Pair, i: nat, v: int)
    requires Matched(p) && i < |Edges(p.g)| && 0 <= v < p.g.n
    ensures Triangulated(p.g) && Triangulated(p.h) && |p.pi| == p.g.n && 0 <= p.pi[v] < p.g.n
    ensures p.pi[v] in After(p.h, p.c, p.d, i).found <==> v in After(p.g, p.a, p.b, i).found
    ensures v in After(p.g, p.a, p.b, i).found ==>
      After(p.h, p.c, p.d, i).found[p.pi[v]] == After(p.g, p.a, p.b, i).found[v]
  {
    hide *;
    MatchedWalks(p);
    Parts(p);
    There(p, v);
    SameCount(p, i);
    SameNumber(p, v);
    FoundByNumber(p.g, p.a, p.b, i, v);
    FoundByNumber(p.h, p.c, p.d, i, p.pi[v]);
  }

  lemma SameLower(p: Pair, i: nat, x: int, y: int)
    requires Matched(p) && i < |Edges(p.g)| && 0 <= x < p.g.n && 0 <= y < p.g.n
    ensures Triangulated(p.g) && Triangulated(p.h) && |p.pi| == p.g.n
    ensures Lower(After(p.h, p.c, p.d, i).found, p.pi[x], p.pi[y]) <==> Lower(After(p.g, p.a, p.b, i).found, x, y)
  {
    hide After, Matched, Triangulated;
    SameFound(p, i, x);
    SameFound(p, i, y);
  }

  /** Every vertex has been found from the same one. */
  lemma {:induction false} SameParent(p: Pair, i: nat, v: int)
    requires Matched(p) && i < |Edges(p.g)| && 0 <= v < p.g.n
    ensures Triangulated(p.g) && Triangulated(p.h) && |p.pi| == p.g.n
    ensures p.pi[v] in Parents(p.h, p.c, p.d, i) <==> v in Parents(p.g, p.a, p.b, i)
    ensures v in Parents(p.g, p.a, p.b, i) ==>
      0 <= Parents(p.g, p.a, p.b, i)[v] < p.g.n &&
      Parents(p.h, p.c, p.d, i)[p.pi[v]] == p.pi[Parents(p.g, p.a, p.b, i)[v]]
  {
    hide *;
    MatchedWalks(p);
    Parts(p);
    There(p, v);
    if i == 0 {
      AfterNone(p.g, p.a, p.b);
      AfterNone(p.h, p.c, p.d);
    } else {
      SameParent(p, i - 1, v);
      StepFacts(p.g, p.a, p.b, i - 1);
      StepFacts(p.h, p.c, p.d, i - 1);
      Along(p, i - 1);
      Along(p, i);
      AfterNext(p.g, p.a, p.b, i - 1);
      AfterNext(p.h, p.c, p.d, i - 1);
      var b := VertexAt(p.g, p.a, p.b, i);
      There(p, b);
      SameFound(p, i - 1, b);
    }
  }

  // The edges agree ------------------------------------------------------------------------------------------

  /** Where the walk takes an edge. */
  lemma StepOf(g: Surface, start: int, first: int, x: int, y: int) returns (i: nat)
    requires IsWalk(g, start, first) && Triangulated(g) && Edge(g, x, y)
    ensures i < |Edges(g)| && EdgeAt(g, start, first, i) == (x, y)
    ensures VertexAt(g, start, first, i) == x && VertexAt(g, start, first, i + 1) == y
  {
    hide *;
    WalkParts(g, start, first);
    WalkTakesEachEdgeOnce(g, start, first, x, y);
    i := SeenAt(g, start, first, |Edges(g)|, (x, y));
    StepFacts(g, start, first, i);
  }

  lemma SeenAt(g: Surface, start: int, first: int, k: nat, e: (int, int)) returns (i: nat)
    requires Triangulated(g) && Seen(g, start, first, k, e)
    ensures i < k && EdgeAt(g, start, first, i) == e
  {
    hide EdgeAt;
    i :| i < k && EdgeAt(g, start, first, i) == e;
  }

  lemma OnceOnly(g: Surface, start: int, first: int, i: nat, j: nat)
    requires IsWalk(g, start, first) && Triangulated(g) && i < |Edges(g)| && j < |Edges(g)|
    requires EdgeAt(g, start, first, i) == EdgeAt(g, start, first, j)
    ensures i == j
  {
    hide *;
    WalkParts(g, start, first);
    WalkTakesEachEdgeOnce(g, start, first, start, first);
  }

  /** An edge before the last step. */
  lemma EarlyEdge(p: Pair, i: nat)
    requires Matched(p) && i + 1 < |Edges(p.g)|
    ensures IsTable(p.g) && IsTable(p.h) && Triangulated(p.g) && Triangulated(p.h) && |p.pi| == p.g.n
    ensures var x, y := VertexAt(p.g, p.a, p.b, i), VertexAt(p.g, p.a, p.b, i + 1);
      && 0 <= x < p.g.n && 0 <= y < p.g.n && Edge(p.h, p.pi[x], p.pi[y])
      && EdgeAt(p.h, p.c, p.d, i) == (p.pi[x], p.pi[y]) && EdgeAt(p.g, p.a, p.b, i) == (x, y)
  {
    hide *;
    MatchedWalks(p);
    Parts(p);
    Along(p, i);
    Along(p, i + 1);
    StepFacts(p.g, p.a, p.b, i);
    StepFacts(p.h, p.c, p.d, i);
  }

  lemma Reverse(g: Surface, x: int, y: int)
    requires Triangulated(g) && Edge(g, x, y)
    ensures Edge(g, y, x) && x != y && 0 <= x < g.n && 0 <= y < g.n
  {
  }

  /** The renaming keeps edges. */
  lemma EdgeTo(p: Pair, x: int, y: int)
    requires Matched(p) && IsTable(p.g) && Edge(p.g, x, y)
    ensures IsTable(p.h) && |p.pi| == p.g.n && 0 <= x < p.g.n && 0 <= y < p.g.n && Edge(p.h, p.pi[x], p.pi[y])
  {
    hide *;
    MatchedWalks(p);
    Parts(p);
    Reverse(p.g, x, y);
    var i := StepOf(p.g, p.a, p.b, x, y);
    if i + 1 < |Edges(p.g)| {
      EarlyEdge(p, i);
    } else {
      var j := StepOf(p.g, p.a, p.b, y, x);
      assert j + 1 < |Edges(p.g)|;
      EarlyEdge(p, j);
      Reverse(p.h, p.pi[y], p.pi[x]);
    }
  }

  lemma EdgeBack(p: Pair, x: int, y: int)
    requires Matched(p) && IsTable(p.h) && Edge(p.h, x, y)
    ensures IsTable(p.g) && |p.inv| == p.g.n && p.h.n == p.g.n && 0 <= x < p.g.n && 0 <= y < p.g.n
    ensures Edge(p.g, p.inv[x], p.inv[y])
  {
    hide Matched, IsTable, Edge;
    MatchedWalks(p);
    Parts(p);
    SwapMatched(p);
    EdgeTo(Swapped(p), x, y);
  }

  /** The last vertices match as well. */
  lemma LastAlong(p: Pair)
    requires Matched(p)
    ensures IsTable(p.g) && Triangulated(p.g) && Triangulated(p.h) && |p.pi| == p.g.n
    ensures var y := VertexAt(p.g, p.a, p.b, |Edges(p.g)|);
      0 <= y < p.g.n && VertexAt(p.h, p.c, p.d, |Edges(p.g)|) == p.pi[y]
  {
    hide *;
    MatchedWalks(p);
    Parts(p);
    var last: nat := |Edges(p.g)| - 1;
    StepFacts(p.g, p.a, p.b, last);
    var x, y := VertexAt(p.g, p.a, p.b, last), VertexAt(p.g, p.a, p.b, last + 1);
    EdgeTo(p, x, y);
    var i := StepOf(p.h, p.c, p.d, p.pi[x], p.pi[y]);
    if i < last {
      EarlyEdge(p, i);
      SameVertices(p, VertexAt(p.g, p.a, p.b, i), x);
      SameVertices(p, VertexAt(p.g, p.a, p.b, i + 1), y);
      OnceOnly(p.g, p.a, p.b, i, last);
    }
  }

  lemma SameVertices(p: Pair, x: int, y: int)
    requires Walks(p) && 0 <= x < p.g.n && 0 <= y < p.g.n
    ensures |p.pi| == p.g.n && (p.pi[x] == p.pi[y] ==> x == y)
  {
    There(p, x);
    There(p, y);
  }

  lemma AlongToEnd(p: Pair, i: nat)
    requires Matched(p) && IsTable(p.g) && i <= |Edges(p.g)|
    ensures Triangulated(p.g) && Triangulated(p.h) && |p.pi| == p.g.n
    ensures 0 <= VertexAt(p.g, p.a, p.b, i) < p.g.n
    ensures VertexAt(p.h, p.c, p.d, i) == p.pi[VertexAt(p.g, p.a, p.b, i)]
  {
    hide *;
    if i == |Edges(p.g)| {
      LastAlong(p);
    } else {
      Along(p, i);
    }
  }

  // The rotations agree --------------------------------------------------------------------------------------

  /** A vertex other than the start has been found at some step, from its parent. */
  lemma {:induction false} FoundFrom(g: Surface, start: int, first: int, i: nat, z: int) returns (k: nat)
    requires IsWalk(g, start, first) && Triangulated(g) && i < |Edges(g)|
    requires z in After(g, start, first, i).found && z != start
    ensures k < i && After(g, start, first, k).b == z && z !in After(g, start, first, k).found
    ensures z in Parents(g, start, first, i) && Parents(g, start, first, i)[z] == After(g, start, first, k).a
  {
    hide *;
    k := 0;
    if i == 0 {
      AfterNone(g, start, first);
      OnlyStart(start, first, z);
    } else {
      StepFacts(g, start, first, i - 1);
      AfterNext(g, start, first, i - 1);
      var w := After(g, start, first, i - 1);
      DiscoveredOr(w, z);
      if z in w.found {
        k := FoundFrom(g, start, first, i - 1, z);
      } else {
        k := i - 1;
      }
    }
  }

  lemma OnlyStart(start: int, first: int, z: int)
    ensures z in Start(start, first).found ==> z == start
  {
  }

  lemma DiscoveredOr(w: Walk, z: int)
    requires z in Discover(w)
    ensures z in w.found || z == w.b
  {
  }

  /** Parents do not change. */
  lemma {:induction false} ParentsStay(g: Surface, start: int, first: int, i: nat, j: nat, z: int)
    requires IsWalk(g, start, first) && Triangulated(g) && i <= j < |Edges(g)|
    requires z in After(g, start, first, i).found && z in Parents(g, start, first, i)
    ensures z in After(g, start, first, j).found && z in Parents(g, start, first, j)
    ensures Parents(g, start, first, j)[z] == Parents(g, start, first, i)[z]
  {
    hide *;
    if i < j {
      ParentsStay(g, start, first, i, j - 1, z);
      StepFacts(g, start, first, j - 1);
      AfterNext(g, start, first, j - 1);
      DiscoverKeeps(After(g, start, first, j - 1), z);
    }
  }

  lemma DiscoverKeeps(w: Walk, z: int)
    requires z in w.found
    ensures z in Discover(w)
  {
  }

  /** Found before z is found before z at every step that leaves z. */
  lemma LowAtStep(g: Surface, start: int, first: int, i: nat, x: int)
    requires IsWalk(g, start, first) && Triangulated(g) && i < |Edges(g)| && 0 <= x < g.n
    requires x in Final(g, start, first) && VertexAt(g, start, first, i) in Final(g, start, first)
    requires Final(g, start, first)[x] < Final(g, start, first)[VertexAt(g, start, first, i)]
    ensures Lower(After(g, start, first, i).found, x, VertexAt(g, start, first, i))
  {
    hide After, Final, IsWalk, Triangulated, VertexAt;
    StepFacts(g, start, first, i);
    FoundByNumber(g, start, first, i, x);
    FoundByNumber(g, start, first, i, VertexAt(g, start, first, i));
  }

  /** The number of a vertex of the first walk. */
  ghost function NumberOf(p: Pair, v: int): int
    requires Triangulated(p.g)
  {
    var found := Final(p.g, p.a, p.b);
    if v in found then found[v] else -1
  }

  lemma NumberRange(p: Pair, v: int)
    requires Matched(p) && 0 <= v < p.g.n
    ensures Triangulated(p.g) && 0 <= NumberOf(p, v) < p.g.n
    ensures v in Final(p.g, p.a, p.b) && Final(p.g, p.a, p.b)[v] == NumberOf(p, v)
  {
    hide Final, IsWalk, Triangulated, VertexAt;
    FinalNumbers(p.g, p.a, p.b);
  }

  lemma NumbersDiffer(p: Pair, x: int, y: int)
    requires Matched(p) && 0 <= x < p.g.n && 0 <= y < p.g.n && x != y
    ensures Triangulated(p.g) && NumberOf(p, x) != NumberOf(p, y)
  {
    hide Final, IsWalk, Triangulated, VertexAt;
    FinalNumbers(p.g, p.a, p.b);
  }

  /** A vertex that is left right after it was found goes on to the neighbour after its parent. */
  lemma ParentMatches(p: Pair, z: int, u: int, k: nat)
    requires Matched(p) && k + 1 < |Edges(p.g)| && Triangulated(p.g) && Triangulated(p.h)
    requires After(p.g, p.a, p.b, k).b == z && z !in After(p.g, p.a, p.b, k).found && After(p.g, p.a, p.b, k).a == u
    ensures 0 <= z < p.g.n && 0 <= u < p.g.n && |p.pi| == p.g.n && IsTable(p.g) && IsTable(p.h) && p.h.n == p.g.n
    ensures 0 <= p.pi[z] < p.g.n && 0 <= p.pi[u] < p.g.n
    ensures 0 <= Next(p.g, z, u) < p.g.n && Next(p.h, p.pi[z], p.pi[u]) == p.pi[Next(p.g, z, u)]
  {
    hide *;
    MatchedWalks(p);
    Parts(p);
    StepFacts(p.g, p.a, p.b, k);
    StepFacts(p.h, p.c, p.d, k);
    Along(p, k);
    Along(p, k + 1);
    There(p, z);
    There(p, u);
    SameFound(p, k, z);
    NewStep(p.g, After(p.g, p.a, p.b, k));
    NewStep(p.h, After(p.h, p.c, p.d, k));
    PlaceFacts(p.g, p.a, p.b, k + 1);
    PlaceFacts(p.h, p.c, p.d, k + 1);
    AlongToEnd(p, k + 2);
  }

  /** Between two neighbours found before z the turn is seen in the walk. */
  lemma LowMatches(p: Pair, z: int, u: int, i: nat)
    requires Matched(p) && Triangulated(p.g) && Triangulated(p.h) && i < |Edges(p.g)|
    requires VertexAt(p.g, p.a, p.b, i) == z && VertexAt(p.g, p.a, p.b, i + 1) == u
    requires 0 <= z < p.g.n && 0 <= u < p.g.n && |p.pi| == p.g.n && IsTable(p.g) && IsTable(p.h) && p.h.n == p.g.n
    requires 0 <= p.pi[z] < p.g.n && 0 <= p.pi[u] < p.g.n
    requires !(z in Parents(p.g, p.a, p.b, i) && Parents(p.g, p.a, p.b, i)[z] == u)
    requires Lower(After(p.g, p.a, p.b, i).found, u, z)
    requires Lower(After(p.g, p.a, p.b, i).found, Next(p.g, z, u), z)
    requires Lower(After(p.h, p.c, p.d, i).found, Next(p.h, p.pi[z], p.pi[u]), p.pi[z])
    ensures 0 <= Next(p.g, z, u) < p.g.n && Next(p.h, p.pi[z], p.pi[u]) == p.pi[Next(p.g, z, u)]
  {
    hide *;
    MatchedWalks(p);
    Parts(p);
    StepFacts(p.g, p.a, p.b, i);
    StepFacts(p.h, p.c, p.d, i);
    AlongToEnd(p, i);
    AlongToEnd(p, i + 1);
    SameLower(p, i, u, z);
    SameParent(p, i, z);
    if z in Parents(p.g, p.a, p.b, i) {
      SameVertices(p, Parents(p.g, p.a, p.b, i)[z], u);
    }
    LowTurn(p.g, p.a, p.b, i);
    LowTurn(p.h, p.c, p.d, i);
    PlaceFacts(p.g, p.a, p.b, i + 2);
    PlaceFacts(p.h, p.c, p.d, i + 2);
    AlongToEnd(p, i + 3);
  }

  /** The facet at a corner, seen from each of its corners. */
  lemma Corner(g: Surface, z: int, u: int)
    requires Triangulated(g) && Edge(g, z, u)
    ensures IsTable(g) && 0 <= z < g.n && 0 <= u < g.n && 0 <= Next(g, z, u) < g.n
    ensures var w := Next(g, z, u);
      && Edge(g, u, z) && Edge(g, z, w) && Edge(g, w, z) && Edge(g, u, w) && Edge(g, w, u)
      && Next(g, u, w) == z && Next(g, w, z) == u && z != u && z != w && u != w
  {
  }

  /** Both neighbours were found before z, in both surfaces. */
  lemma LowCase(p: Pair, z: int, u: int)
    requires Matched(p) && Triangulated(p.g) && Triangulated(p.h) && Edge(p.g, z, u)
    requires 0 <= z < p.g.n && 0 <= u < p.g.n && |p.pi| == |p.inv| == p.g.n && IsTable(p.h) && p.h.n == p.g.n
    requires 0 <= p.pi[z] < p.g.n && 0 <= p.pi[u] < p.g.n
    requires 0 <= Next(p.g, z, u) < p.g.n && 0 <= Next(p.h, p.pi[z], p.pi[u]) < p.g.n
    requires NumberOf(p, u) < NumberOf(p, z) && NumberOf(p, Next(p.g, z, u)) < NumberOf(p, z)
    requires NumberOf(p, p.inv[Next(p.h, p.pi[z], p.pi[u])]) < NumberOf(p, z)
    ensures Next(p.h, p.pi[z], p.pi[u]) == p.pi[Next(p.g, z, u)]
  {
    hide *;
    MatchedWalks(p);
    Parts(p);
    SwapMatched(p);
    var last: nat := |Edges(p.g)| - 1;
    var x, x' := Next(p.g, z, u), Next(p.h, p.pi[z], p.pi[u]);
    NumberRange(p, z);
    NumberRange(p, u);
    NumberRange(p, x);
    FinalNumbers(p.g, p.a, p.b);
    StartIsZero(p.g, p.a, p.b, last);
    var k := FoundFrom(p.g, p.a, p.b, last, z);
    if After(p.g, p.a, p.b, k).a == u {
      ParentMatches(p, z, u, k);
    } else {
      var i := StepOf(p.g, p.a, p.b, z, u);
      LowAtStep(p.g, p.a, p.b, i, u);
      LowAtStep(p.g, p.a, p.b, i, x);
      AlongToEnd(p, i);
      There(p, x');
      SameNumber(p, z);
      SameNumber(p, p.inv[x']);
      NumberRange(p, p.inv[x']);
      LowAtStep(p.h, p.c, p.d, i, x');
      StepFacts(p.g, p.a, p.b, i);
      if z in Parents(p.g, p.a, p.b, i) {
        ParentsStay(p.g, p.a, p.b, i, last, z);
      }
      LowMatches(p, z, u, i);
    }
  }

  /** The renaming keeps the turn at every corner, from the vertices found last to those found first. */
  lemma {:induction false} TurnMatches(p: Pair, z: int, u: int)
    requires Matched(p) && Triangulated(p.g) && Triangulated(p.h) && IsTable(p.g) && Edge(p.g, z, u)
    ensures 0 <= z < p.g.n && 0 <= u < p.g.n && 0 <= Next(p.g, z, u) < p.g.n && |p.pi| == p.g.n
    ensures IsTable(p.h) && p.h.n == p.g.n && 0 <= p.pi[z] < p.g.n && 0 <= p.pi[u] < p.g.n
    ensures Edge(p.h, p.pi[z], p.pi[u]) && Next(p.h, p.pi[z], p.pi[u]) == p.pi[Next(p.g, z, u)]
    decreases p.g.n - NumberOf(p, z), 1
  {
    hide *;
    MatchedWalks(p);
    Parts(p);
    Corner(p.g, z, u);
    var w := Next(p.g, z, u);
    There(p, z);
    There(p, u);
    There(p, w);
    EdgeTo(p, z, u);
    Corner(p.h, p.pi[z], p.pi[u]);
    NumberRange(p, z);
    NumberRange(p, u);
    NumberRange(p, w);
    NumbersDiffer(p, z, u);
    NumbersDiffer(p, z, w);
    if NumberOf(p, u) > NumberOf(p, z) {
      TurnMatches(p, u, w);
      Corner(p.h, p.pi[u], p.pi[w]);
    } else if NumberOf(p, w) > NumberOf(p, z) {
      TurnMatches(p, w, z);
      Corner(p.h, p.pi[w], p.pi[z]);
    } else {
      OtherSide(p, z, u);
    }
  }

  lemma OtherSide(p: Pair, z: int, u: int)
    requires Matched(p) && Triangulated(p.g) && Triangulated(p.h) && IsTable(p.g) && Edge(p.g, z, u)
    requires 0 <= z < p.g.n && 0 <= u < p.g.n && 0 <= Next(p.g, z, u) < p.g.n && |p.pi| == p.g.n
    requires IsTable(p.h) && p.h.n == p.g.n && 0 <= p.pi[z] < p.g.n && 0 <= p.pi[u] < p.g.n
    requires Edge(p.h, p.pi[z], p.pi[u])
    requires NumberOf(p, u) < NumberOf(p, z) && NumberOf(p, Next(p.g, z, u)) < NumberOf(p, z)
    ensures Next(p.h, p.pi[z], p.pi[u]) == p.pi[Next(p.g, z, u)]
    decreases p.g.n - NumberOf(p, z), 0
  {
    hide *;
    MatchedWalks(p);
    Parts(p);
    SwapMatched(p);
    Corner(p.h, p.pi[z], p.pi[u]);
    var x := Next(p.h, p.pi[z], p.pi[u]);
    There(p, x);
    There(p, z);
    There(p, u);
    var d := p.inv[x];
    NumberRange(p, d);
    NumberRange(p, z);
    NumbersDiffer(p, d, z);
    if NumberOf(p, d) > NumberOf(p, z) {
      EdgeBack(p, x, p.pi[z]);
      TurnMatches(p, d, z);
      SameVertices(p, Next(p.g, d, z), u);
      Corner(p.g, d, z);
    } else {
      LowCase(p, z, u);
    }
  }

  /** The whole tables agree. */
  lemma TablesMatch(p: Pair)
    requires Matched(p)
    ensures Renamed(p.g, p.h, p.pi, p.inv)
  {
    hide IsWalk, Triangulated, Matched, IsSurface, IsTable;
    MatchedWalks(p);
    Parts(p);
    forall x, y | 0 <= x < p.g.n && 0 <= y < p.g.n
      ensures 0 <= p.pi[x] < p.g.n && 0 <= p.pi[y] < p.g.n && |p.h.common| == |p.g.common| == p.g.n
      ensures |p.h.common[p.pi[x]]| == |p.g.common[x]| == p.g.n
      ensures p.h.common[p.pi[x]][p.pi[y]] == Name(p.pi, p.g.common[x][y])
    {
      EntryMatches(p, x, y);
    }
    WholeTable(p);
  }

  lemma WholeTable(p: Pair)
    requires Walks(p) && IsTable(p.g) && IsTable(p.h) && |p.pi| == p.g.n
    requires forall x, y :: 0 <= x < p.g.n && 0 <= y < p.g.n ==>
      0 <= p.pi[x] < p.g.n && 0 <= p.pi[y] < p.g.n && p.h.common[p.pi[x]][p.pi[y]] == Name(p.pi, p.g.common[x][y])
    ensures Renamed(p.g, p.h, p.pi, p.inv)
  {
  }

  lemma EntryMatches(p: Pair, x: int, y: int)
    requires Matched(p) && 0 <= x < p.g.n && 0 <= y < p.g.n
    ensures |p.pi| == p.g.n && 0 <= p.pi[x] < p.g.n && 0 <= p.pi[y] < p.g.n
    ensures |p.h.common| == |p.g.common| == p.g.n && |p.h.common[p.pi[x]]| == |p.g.common[x]| == p.g.n
    ensures p.h.common[p.pi[x]][p.pi[y]] == Name(p.pi, p.g.common[x][y])
  {
    hide IsWalk, Triangulated, Matched, IsSurface, IsTable;
    MatchedWalks(p);
    Parts(p);
    There(p, x);
    There(p, y);
    TableShape(p.g, x, y);
    TableShape(p.h, p.pi[x], p.pi[y]);
    if Edge(p.g, x, y) {
      Reverse(p.g, x, y);
      TurnMatches(p, y, x);
    } else if Edge(p.h, p.pi[x], p.pi[y]) {
      EdgeBack(p, p.pi[x], p.pi[y]);
      assert false;
    }
  }

  lemma TableShape(g: Surface, x: int, y: int)
    requires IsTable(g) && 0 <= x < g.n && 0 <= y < g.n
    ensures |g.common| == g.n && |g.common[x]| == g.n && -1 <= g.common[x][y] < g.n
  {
  }

  // From equal codes -----------------------------------------------------------------------------------------

  /** The vertex with a number. */
  ghost function VertexOf(found: map<int, int>, m: int): int {
    if v :| v in found && found[v] == m then v else -1
  }

  lemma VertexIs(found: map<int, int>, m: int)
    requires Numbered(found) && 0 <= m < |found|
    ensures VertexOf(found, m) in found && found[VertexOf(found, m)] == m
  {
    var v := NumberTaken(found, m);
  }

  /** The permutation that takes each vertex to the one with the same number. */
  ghost function ByNumbers(from: map<int, int>, to: map<int, int>, n: nat): seq<int> {
    seq(n, v requires 0 <= v < n => VertexOf(to, if v in from then from[v] else -1))
  }

  /** A full numbering of the vertices below n. */
  ghost predicate Full(found: map<int, int>, n: nat) {
    Numbered(found) && |found| == n && forall v :: v in found <==> 0 <= v < n
  }

  lemma ByNumbersIs(from: map<int, int>, to: map<int, int>, n: nat, v: int)
    requires Full(from, n) && Full(to, n) && 0 <= v < n
    ensures v in from && 0 <= ByNumbers(from, to, n)[v] < n && ByNumbers(from, to, n)[v] in to
    ensures to[ByNumbers(from, to, n)[v]] == from[v]
  {
    VertexIs(to, from[v]);
  }

  lemma ByNumbersInverse(from: map<int, int>, to: map<int, int>, n: nat)
    requires Full(from, n) && Full(to, n)
    ensures Inverse(ByNumbers(from, to, n), ByNumbers(to, from, n), n)
  {
    hide ByNumbers;
    BothLengths(from, to, n);
    forall v | 0 <= v < n
      ensures 0 <= ByNumbers(from, to, n)[v] < n && ByNumbers(to, from, n)[ByNumbers(from, to, n)[v]] == v
      ensures 0 <= ByNumbers(to, from, n)[v] < n && ByNumbers(from, to, n)[ByNumbers(to, from, n)[v]] == v
    {
      ByNumbersIs(from, to, n, v);
      ByNumbersIs(to, from, n, v);
      ByNumbersIs(to, from, n, ByNumbers(from, to, n)[v]);
      ByNumbersIs(from, to, n, ByNumbers(to, from, n)[v]);
    }
  }

  lemma BothLengths(from: map<int, int>, to: map<int, int>, n: nat)
    ensures |ByNumbers(from, to, n)| == n && |ByNumbers(to, from, n)| == n
  {
  }

  /** A label gives back the colour and the number. */
  lemma LabelSplits(colour: int, number: int, colour': int, number': int, n: int)
    requires 0 <= number < n && 0 <= number' < n && colour * n + number == colour' * n + number'
    ensures colour == colour' && number == number'
  {
    var d := colour - colour';
    assert d * n == number' - number by {
      assert d * n == colour * n - colour' * n;
    }
    assert d >= 1 ==> d * n >= n;
    assert d <= -1 ==> d * n <= -n;
  }

  /** Two walks with equal codes. */
  ghost predicate SameCodes(g: Surface, colours: seq<int>, a: int, b: int,
    h: Surface, coloursH: seq<int>, c: int, d: int) {
    && IsWalk(g, a, b) && IsWalk(h, c, d) && Triangulated(g) && Triangulated(h) && g.n == h.n
    && |Edges(g)| == |Edges(h)| && LabelsFit(g, colours) && LabelsFit(h, coloursH) && |colours| == g.n
    && |coloursH| == h.n && 0 <= a < g.n && 0 <= c < h.n
    && forall i: nat :: i < |Edges(g)| ==> CodeAt(g, colours, a, b, i) == CodeAt(h, coloursH, c, d, i)
  }

  lemma SameEntry(g: Surface, colours: seq<int>, a: int, b: int, h: Surface, coloursH: seq<int>, c: int, d: int, i: nat)
    requires SameCodes(g, colours, a, b, h, coloursH, c, d) && IsTable(g) && i < |Edges(g)|
    ensures Triangulated(g) && Triangulated(h)
    ensures var v, u := VertexAt(g, a, b, i), VertexAt(h, c, d, i);
      && 0 <= v < g.n && 0 <= u < h.n && |colours| == g.n && |coloursH| == h.n && colours[v] == coloursH[u]
      && v in Final(g, a, b) && u in Final(h, c, d) && Final(g, a, b)[v] == Final(h, c, d)[u]
  {
    hide IsWalk, Triangulated, IsTable, CodeAt, Final, VertexAt, LabelsFit, Edges;
    CodeNumbers(g, colours, a, b, i);
    CodeNumbers(h, coloursH, c, d, i);
    var v, u := VertexAt(g, a, b, i), VertexAt(h, c, d, i);
    LabelSplits(colours[v], Final(g, a, b)[v], coloursH[u], Final(h, c, d)[u], g.n);
  }

  lemma FullFinal(g: Surface, a: int, b: int)
    requires IsWalk(g, a, b) && Triangulated(g)
    ensures Full(Final(g, a, b), g.n)
  {
    hide Final, IsWalk, Triangulated;
    FinalNumbers(g, a, b);
  }

  /** The pair of walks that the codes match. */
  ghost function PairOf(g: Surface, a: int, b: int, h: Surface, c: int, d: int): Pair
    requires Triangulated(g) && Triangulated(h)
  {
    Pair(g, a, b, h, c, d, ByNumbers(Final(g, a, b), Final(h, c, d), g.n),
      ByNumbers(Final(h, c, d), Final(g, a, b), g.n))
  }

  lemma SameParts(g: Surface, colours: seq<int>, a: int, b: int, h: Surface, coloursH: seq<int>, c: int, d: int)
    requires SameCodes(g, colours, a, b, h, coloursH, c, d)
    ensures IsWalk(g, a, b) && IsWalk(h, c, d) && Triangulated(g) && Triangulated(h) && IsTable(g) && IsTable(h)
    ensures g.n == h.n && |Edges(g)| == |Edges(h)| && |colours| == g.n && |coloursH| == h.n
  {
    hide IsSurface, Triangulated, CodeAt, Edges, LabelsFit;
  }

  lemma PairIs(g: Surface, a: int, b: int, h: Surface, c: int, d: int)
    requires Triangulated(g) && Triangulated(h)
    ensures var p := PairOf(g, a, b, h, c, d);
      && p.g == g && p.a == a && p.b == b && p.h == h && p.c == c && p.d == d
      && p.pi == ByNumbers(Final(g, a, b), Final(h, c, d), g.n)
      && p.inv == ByNumbers(Final(h, c, d), Final(g, a, b), g.n)
  {
  }

  lemma MakeMatched(p: Pair)
    requires IsWalk(p.g, p.a, p.b) && IsWalk(p.h, p.c, p.d) && Triangulated(p.g) && Triangulated(p.h)
    requires IsTable(p.g) && IsTable(p.h) && |p.pi| == p.g.n
    requires p.g.n == p.h.n && |Edges(p.g)| == |Edges(p.h)| && Inverse(p.pi, p.inv, p.g.n)
    requires forall v :: v in Final(p.g, p.a, p.b) ==>
      0 <= v < p.g.n && p.pi[v] in Final(p.h, p.c, p.d) &&
      Final(p.h, p.c, p.d)[p.pi[v]] == Final(p.g, p.a, p.b)[v]
    requires forall i: nat :: i < |Edges(p.g)| ==>
      0 <= VertexAt(p.g, p.a, p.b, i) < p.g.n && VertexAt(p.h, p.c, p.d, i) == p.pi[VertexAt(p.g, p.a, p.b, i)]
    ensures Matched(p)
  {
    hide IsWalk, Triangulated, IsTable, Final, VertexAt, Inverse, Edges;
  }

  lemma CodesMatch(g: Surface, colours: seq<int>, a: int, b: int, h: Surface, coloursH: seq<int>, c: int, d: int)
    requires SameCodes(g, colours, a, b, h, coloursH, c, d) && Triangulated(g) && Triangulated(h)
    ensures Matched(PairOf(g, a, b, h, c, d))
  {
    hide *;
    SameParts(g, colours, a, b, h, coloursH, c, d);
    PairIs(g, a, b, h, c, d);
    var p := PairOf(g, a, b, h, c, d);
    FullFinal(g, a, b);
    FullFinal(h, c, d);
    ByNumbersInverse(Final(g, a, b), Final(h, c, d), g.n);
    BothLengths(Final(g, a, b), Final(h, c, d), g.n);
    forall v | v in Final(p.g, p.a, p.b)
      ensures 0 <= v < p.g.n && p.pi[v] in Final(p.h, p.c, p.d)
      ensures Final(p.h, p.c, p.d)[p.pi[v]] == Final(p.g, p.a, p.b)[v]
    {
      FullAt(Final(g, a, b), g.n, v);
      ByNumbersIs(Final(g, a, b), Final(h, c, d), g.n, v);
    }
    forall i: nat | i < |Edges(p.g)|
      ensures 0 <= VertexAt(p.g, p.a, p.b, i) < p.g.n
      ensures VertexAt(p.h, p.c, p.d, i) == p.pi[VertexAt(p.g, p.a, p.b, i)]
    {
      SameEntry(g, colours, a, b, h, coloursH, c, d, i);
      var v := VertexAt(g, a, b, i);
      ByNumbersIs(Final(g, a, b), Final(h, c, d), g.n, v);
      FullInjective(Final(h, c, d), g.n, p.pi[v], VertexAt(h, c, d, i));
    }
    MakeMatched(p);
  }

  lemma FullAt(found: map<int, int>, n: nat, v: int)
    requires Full(found, n) && v in found
    ensures 0 <= v < n
  {
  }

  lemma FullInjective(found: map<int, int>, n: nat, x: int, y: int)
    requires Full(found, n) && x in found && y in found && found[x] == found[y]
    ensures x == y
  {
  }

  /** Every vertex is left at some step. */
  lemma Visited(g: Surface, a: int, b: int, v: int) returns (i: nat)
    requires IsWalk(g, a, b) && Triangulated(g) && 0 <= v < g.n
    ensures IsTable(g) && i < |Edges(g)| && VertexAt(g, a, b, i) == v
  {
    WalkParts(g, a, b);
    hide IsSurface, Triangulated, IsWalk, VertexAt, IsTable;
    HasNeighbour(g, a, b, v);
    var x :| Edge(g, v, x);
    i := StepOf(g, a, b, v, x);
  }

  /** Equal codes: the vertices of equal numbers give a renaming of the one surface into the other, with its
      colours. */
  lemma CodeDetermines(g: Surface, colours: seq<int>, a: int, b: int, h: Surface, coloursH: seq<int>, c: int, d: int)
    requires SameCodes(g, colours, a, b, h, coloursH, c, d) && Triangulated(g) && Triangulated(h)
    ensures var p := PairOf(g, a, b, h, c, d);
      Renamed(g, h, p.pi, p.inv) && ColoursRenamed(colours, coloursH, p.pi) && Matched(p)
  {
    hide *;
    SameParts(g, colours, a, b, h, coloursH, c, d);
    PairIs(g, a, b, h, c, d);
    var p := PairOf(g, a, b, h, c, d);
    CodesMatch(g, colours, a, b, h, coloursH, c, d);
    TablesMatch(p);
    MatchedWalks(p);
    Parts(p);
    forall v | 0 <= v < g.n
      ensures 0 <= p.pi[v] < g.n && coloursH[p.pi[v]] == colours[v]
    {
      There(p, v);
      var i := Visited(g, a, b, v);
      SameEntry(g, colours, a, b, h, coloursH, c, d, i);
      Along(p, i);
    }
    MakeColours(colours, coloursH, p.pi, g.n);
  }

  lemma MakeColours(colours: seq<int>, coloursH: seq<int>, pi: seq<int>, n: nat)
    requires |colours| == |coloursH| == |pi| == n
    requires forall v :: 0 <= v < n ==> 0 <= pi[v] < n && coloursH[pi[v]] == colours[v]
    ensures ColoursRenamed(colours, coloursH, pi)
  {
  }
}
