/** Renaming the vertices of a surface does not change the code of a walk. */
module WeinbergRelabel {
  import opened RotationSystem
  import opened WeinbergWalk
  import opened WeinbergCode

  /** pi and inv are inverse permutations of 0 .. n - 1. */
  ghost predicate Inverse(pi: seq<int>, inv: seq<int>, n: nat) {
    && |pi| == n && |inv| == n
    && (forall v :: 0 <= v < n ==> 0 <= pi[v] < n && inv[pi[v]] == v)
    && (forall v :: 0 <= v < n ==> 0 <= inv[v] < n && pi[inv[v]] == v)
  }

  /** The name of a vertex, or -1 for none, after renaming. */
  ghost function Name(pi: seq<int>, v: int): int {
    if 0 <= v < |pi| then pi[v] else -1
  }

  /** h is g with every vertex v renamed to pi[v]. */
  ghost predicate Renamed(g: Surface, h: Surface, pi: seq<int>, inv: seq<int>) {
    && IsTable(g) && IsTable(h) && g.n == h.n && Inverse(pi, inv, g.n)
    && forall x, y :: 0 <= x < g.n && 0 <= y < g.n ==> h.common[pi[x]][pi[y]] == Name(pi, g.common[x][y])
  }

  lemma RenamedBack(g: Surface, h: Surface, pi: seq<int>, inv: seq<int>)
    requires Renamed(g, h, pi, inv)
    ensures Renamed(h, g, inv, pi)
  {
    forall x, y | 0 <= x < g.n && 0 <= y < g.n
      ensures g.common[inv[x]][inv[y]] == Name(inv, h.common[x][y])
    {
      assert h.common[pi[inv[x]]][pi[inv[y]]] == Name(pi, g.common[inv[x]][inv[y]]);
    }
  }

  /** One vertex under the renaming. */
  lemma VertexRenamed(g: Surface, h: Surface, pi: seq<int>, inv: seq<int>, x: int)
    requires Renamed(g, h, pi, inv) && 0 <= x < g.n
    ensures IsTable(g) && IsTable(h) && |pi| == g.n && |inv| == g.n && h.n == g.n && 0 <= pi[x] < g.n && inv[pi[x]] == x
  {
  }

  /** One entry of the table under the renaming. */
  lemma EdgeRenamed(g: Surface, h: Surface, pi: seq<int>, inv: seq<int>, x: int, y: int)
    requires Renamed(g, h, pi, inv) && 0 <= x < g.n && 0 <= y < g.n
    ensures IsTable(g) && IsTable(h) && |pi| == g.n && |inv| == g.n && h.n == g.n && 0 <= pi[x] < g.n
    ensures 0 <= pi[y] < g.n
    ensures Edge(h, pi[x], pi[y]) <==> Edge(g, x, y)
    ensures h.common[pi[x]][pi[y]] == Name(pi, g.common[x][y]) && inv[pi[x]] == x && inv[pi[y]] == y
  {
  }

  lemma RenamedTables(g: Surface, h: Surface, pi: seq<int>, inv: seq<int>)
    requires Renamed(g, h, pi, inv)
    ensures IsTable(g) && IsTable(h) && |pi| == g.n && |inv| == g.n && h.n == g.n
  {
  }

  lemma Flip(g: Surface, a: int, b: int)
    requires Triangulated(g) && Edge(g, a, b)
    ensures Edge(g, b, a) && 0 <= a < g.n && 0 <= b < g.n && Edge(g, b, Next(g, b, a))
    ensures 0 <= g.common[a][b] < g.n
  {
  }

  lemma {:induction false} TurnRenamed(g: Surface, h: Surface, pi: seq<int>, inv: seq<int>, b: int, x: int, k: nat)
    requires Renamed(g, h, pi, inv) && Triangulated(g) && Triangulated(h) && Edge(g, b, x)
    ensures |pi| == g.n && Edge(h, pi[b], pi[x])
    ensures Edge(g, b, Turn(g, b, x, k)) && Turn(h, pi[b], pi[x], k) == pi[Turn(g, b, x, k)]
  {
    hide Renamed, Triangulated, IsTable;
    Flip(g, b, x);
    EdgeRenamed(g, h, pi, inv, b, x);
    if k > 0 {
      TurnRenamed(g, h, pi, inv, b, x, k - 1);
      var z := Turn(g, b, x, k - 1);
      Flip(g, b, z);
      EdgeRenamed(g, h, pi, inv, z, b);
    }
  }

  /** The two walks are at the same place with the same history. */
  ghost predicate SameWalk(w: Walk, u: Walk, pi: seq<int>) {
    && u.a == Name(pi, w.a) && u.b == Name(pi, w.b) && |u.found| == |w.found|
    && (forall x, y :: 0 <= x < |pi| && 0 <= y < |pi| ==> ((pi[x], pi[y]) in u.used <==> (x, y) in w.used))
    && (forall v :: v in w.found ==> 0 <= v < |pi|)
    && (forall v :: 0 <= v < |pi| ==> (pi[v] in u.found <==> v in w.found))
    && (forall v :: v in w.found ==> u.found[pi[v]] == w.found[v])
  }

  lemma UsedAt(w: Walk, u: Walk, pi: seq<int>, x: int, y: int)
    requires SameWalk(w, u, pi) && 0 <= x < |pi| && 0 <= y < |pi|
    ensures (pi[x], pi[y]) in u.used <==> (x, y) in w.used
  {
  }

  lemma FoundAt(w: Walk, u: Walk, pi: seq<int>, x: int)
    requires SameWalk(w, u, pi) && 0 <= x < |pi|
    ensures pi[x] in u.found <==> x in w.found
    ensures x in w.found ==> u.found[pi[x]] == w.found[x]
  {
  }

  lemma PlaceAt(w: Walk, u: Walk, pi: seq<int>)
    requires SameWalk(w, u, pi)
    ensures u.a == Name(pi, w.a) && u.b == Name(pi, w.b) && |u.found| == |w.found|
  {
  }

  lemma FreeRenamed(g: Surface, h: Surface, pi: seq<int>, inv: seq<int>, w: Walk, u: Walk, b: int, x: int, k: nat)
    requires Renamed(g, h, pi, inv) && Triangulated(g) && Triangulated(h) && SameWalk(w, u, pi) && Edge(g, b, x)
    ensures |pi| == g.n && Edge(h, pi[b], pi[x]) && (Free(h, u.used, pi[b], pi[x], k) <==> Free(g, w.used, b, x, k))
  {
    hide Renamed, Triangulated, IsTable, SameWalk, Turn;
    TurnRenamed(g, h, pi, inv, b, x, k);
    UsedAt(w, u, pi, b, Turn(g, b, x, k));
  }

  lemma HasFreeRenamed(g: Surface, h: Surface, pi: seq<int>, inv: seq<int>, w: Walk, u: Walk, b: int, x: int)
    requires Renamed(g, h, pi, inv) && Triangulated(g) && Triangulated(h) && SameWalk(w, u, pi) && Edge(g, b, x)
    ensures |pi| == g.n && Edge(h, pi[b], pi[x])
    ensures HasFree(h, u.used, pi[b], pi[x]) <==> HasFree(g, w.used, b, x)
  {
    hide Renamed, Triangulated, SameWalk, Free, IsTable;
    FreeRenamed(g, h, pi, inv, w, u, b, x, 0);
    if HasFree(g, w.used, b, x) {
      var k: nat :| Free(g, w.used, b, x, k);
      FreeRenamed(g, h, pi, inv, w, u, b, x, k);
    }
    if HasFree(h, u.used, pi[b], pi[x]) {
      var k: nat :| Free(h, u.used, pi[b], pi[x], k);
      FreeRenamed(g, h, pi, inv, w, u, b, x, k);
    }
  }

  lemma FirstFreeRenamed(g: Surface, h: Surface, pi: seq<int>, inv: seq<int>, w: Walk, u: Walk, b: int, x: int)
    requires Renamed(g, h, pi, inv) && Triangulated(g) && Triangulated(h) && SameWalk(w, u, pi) && Edge(g, b, x)
    requires HasFree(g, w.used, b, x)
    ensures |pi| == g.n && Edge(h, pi[b], pi[x]) && HasFree(h, u.used, pi[b], pi[x])
    ensures TurnsToFree(h, u.used, pi[b], pi[x]) == TurnsToFree(g, w.used, b, x)
  {
    hide Renamed, Triangulated, SameWalk, Free, IsTable, HasFree, TurnsToFree;
    HasFreeRenamed(g, h, pi, inv, w, u, b, x);
    var k := TurnsToFree(g, w.used, b, x);
    forall j: nat
      ensures Free(h, u.used, pi[b], pi[x], j) <==> Free(g, w.used, b, x, j)
    {
      FreeRenamed(g, h, pi, inv, w, u, b, x, j);
    }
    assert FirstFree(h, u.used, pi[b], pi[x], k);
    FirstFreeUnique(h, u.used, pi[b], pi[x], k, TurnsToFree(h, u.used, pi[b], pi[x]));
  }

  lemma ChooseRenamed(g: Surface, h: Surface, pi: seq<int>, inv: seq<int>, w: Walk, u: Walk)
    requires Renamed(g, h, pi, inv) && Triangulated(g) && Triangulated(h) && SameWalk(w, u, pi) && Edge(g, w.a, w.b)
    ensures Edge(h, u.a, u.b) && Choose(h, u) == Name(pi, Choose(g, w))
  {
    hide Renamed, Triangulated, SameWalk, Free, IsTable, HasFree, TurnsToFree, Turn, Edge;
    Flip(g, w.a, w.b);
    EdgeRenamed(g, h, pi, inv, w.a, w.b);
    PlaceAt(w, u, pi);
    UsedAt(w, u, pi, w.b, w.a);
    FoundAt(w, u, pi, w.b);
    var c := Next(g, w.b, w.a);
    assert Next(h, u.b, u.a) == pi[c];
    HasFreeRenamed(g, h, pi, inv, w, u, w.b, c);
    if HasFree(g, w.used, w.b, c) {
      FirstFreeRenamed(g, h, pi, inv, w, u, w.b, c);
      var k := TurnsToFree(g, w.used, w.b, c);
      TurnRenamed(g, h, pi, inv, w.b, c, k);
      EdgeInRange(g, w.b, Turn(g, w.b, c, k));
    }
  }

  lemma RenamedInverse(g: Surface, h: Surface, pi: seq<int>, inv: seq<int>)
    requires Renamed(g, h, pi, inv)
    ensures Inverse(pi, inv, g.n) && |pi| == g.n && h.n == g.n
  {
  }

  lemma DiscoverRenamed(w: Walk, u: Walk, pi: seq<int>, inv: seq<int>, n: nat)
    requires Inverse(pi, inv, n) && SameWalk(w, u, pi) && 0 <= w.b < n
    ensures |Discover(u)| == |Discover(w)|
    ensures forall v :: 0 <= v < n ==> (pi[v] in Discover(u) <==> v in Discover(w))
    ensures forall v :: v in Discover(w) ==> 0 <= v < n && pi[v] in Discover(u) && Discover(u)[pi[v]] == Discover(w)[v]
  {
  }

  lemma UsedRenamed(w: Walk, u: Walk, pi: seq<int>, inv: seq<int>, n: nat)
    requires Inverse(pi, inv, n) && SameWalk(w, u, pi) && 0 <= w.b < n && 0 <= w.a < n
    ensures forall x, y :: 0 <= x < n && 0 <= y < n ==> ((pi[x], pi[y]) in Taken(u) <==> (x, y) in Taken(w))
  {
    PlaceAt(w, u, pi);
    hide SameWalk;
    forall x, y | 0 <= x < n && 0 <= y < n
      ensures (pi[x], pi[y]) in Taken(u) <==> (x, y) in Taken(w)
    {
      UsedAt(w, u, pi, x, y);
      Injective(pi, inv, n, x, w.a);
      Injective(pi, inv, n, y, w.b);
    }
  }

  lemma Injective(pi: seq<int>, inv: seq<int>, n: nat, x: int, y: int)
    requires Inverse(pi, inv, n) && 0 <= x < n && 0 <= y < n
    ensures pi[x] == pi[y] <==> x == y
  {
    assert inv[pi[x]] == x && inv[pi[y]] == y;
  }

  lemma HistoryRenamed(w: Walk, u: Walk, pi: seq<int>, inv: seq<int>, n: nat, c: int, d: int)
    requires Inverse(pi, inv, n) && SameWalk(w, u, pi) && 0 <= w.a < n && 0 <= w.b < n && d == Name(pi, c)
    ensures SameWalk(Walk(w.b, c, Taken(w), Discover(w)), Walk(u.b, d, Taken(u), Discover(u)), pi)
  {
    DiscoverRenamed(w, u, pi, inv, n);
    UsedRenamed(w, u, pi, inv, n);
    PlaceAt(w, u, pi);
    hide Inverse, Discover, Taken;
  }

  lemma StepRenamed(g: Surface, h: Surface, pi: seq<int>, inv: seq<int>, w: Walk, u: Walk)
    requires Renamed(g, h, pi, inv) && Triangulated(g) && Triangulated(h) && SameWalk(w, u, pi) && Edge(g, w.a, w.b)
    ensures Edge(h, u.a, u.b) && SameWalk(Step(g, w), Step(h, u), pi)
  {
    hide Renamed, Triangulated, IsTable, Choose, Inverse, Edge, Discover, SameWalk, Taken;
    ChooseRenamed(g, h, pi, inv, w, u);
    RenamedTables(g, h, pi, inv);
    EdgeInRange(g, w.a, w.b);
    RenamedInverse(g, h, pi, inv);
    HistoryRenamed(w, u, pi, inv, g.n, Choose(g, w), Choose(h, u));
    TakenGrows(g, w);
    TakenGrows(h, u);
  }

  lemma StartRenamed(pi: seq<int>, inv: seq<int>, n: nat, a: int, b: int)
    requires Inverse(pi, inv, n) && 0 <= a < n && 0 <= b < n
    ensures SameWalk(Start(a, b), Start(pi[a], pi[b]), pi)
  {
    forall v | 0 <= v < n
      ensures pi[v] in map[pi[a] := 0] <==> v in map[a := 0]
    {
      assert inv[pi[v]] == v && inv[pi[a]] == a;
    }
  }

  /** The walks stay together as long as the first one lasts. */
  lemma {:induction false} AfterRenamed(g: Surface, h: Surface, pi: seq<int>, inv: seq<int>, a: int, b: int, k: nat)
    requires Renamed(g, h, pi, inv) && IsSurface(g) && Triangulated(h) && Edge(g, a, b) && k < |Edges(g)|
    ensures |pi| == g.n && SameWalk(After(g, a, b, k), After(h, pi[a], pi[b], k), pi)
  {
    hide IsSurface, Triangulated, Renamed, Inverse, SameWalk, Edges, Step, IsTable;
    SurfaceTriangulated(g);
    EdgeInRange(g, a, b);
    EdgeRenamed(g, h, pi, inv, a, b);
    if k > 0 {
      AfterRenamed(g, h, pi, inv, a, b, k - 1);
      AfterStep(g, a, b, k - 1);
      StepRenamed(g, h, pi, inv, After(g, a, b, k - 1), After(h, pi[a], pi[b], k - 1));
    } else {
      RenamedInverse(g, h, pi, inv);
      StartRenamed(pi, inv, g.n, a, b);
    }
  }

  /** Colours go with the vertices. */
  ghost predicate ColoursRenamed(colours: seq<int>, coloursH: seq<int>, pi: seq<int>) {
    |colours| == |pi| && |coloursH| == |pi| &&
    forall v :: 0 <= v < |pi| ==> 0 <= pi[v] < |pi| && coloursH[pi[v]] == colours[v]
  }

  lemma ColourAt(colours: seq<int>, coloursH: seq<int>, pi: seq<int>, v: int)
    requires ColoursRenamed(colours, coloursH, pi) && 0 <= v < |pi|
    ensures |colours| == |pi| && |coloursH| == |pi| && 0 <= pi[v] < |pi| && coloursH[pi[v]] == colours[v]
  {
  }

  lemma DiscoverAt(w: Walk, u: Walk, pi: seq<int>, inv: seq<int>, n: nat)
    requires Inverse(pi, inv, n) && SameWalk(w, u, pi) && 0 <= w.b < n
    ensures |pi| == n && u.b == pi[w.b] && Discover(u)[u.b] == Discover(w)[w.b]
  {
    DiscoverRenamed(w, u, pi, inv, n);
    assert w.b in Discover(w);
  }

  lemma CodeAtRenamed(g: Surface, h: Surface, pi: seq<int>, inv: seq<int>, colours: seq<int>, coloursH: seq<int>,
                      a: int, b: int, i: nat)
    requires Renamed(g, h, pi, inv) && IsSurface(g) && IsSurface(h) && Edge(g, a, b) && i < |Edges(g)|
    requires ColoursRenamed(colours, coloursH, pi)
    ensures |pi| == g.n && |colours| == g.n && |coloursH| == h.n && h.n == g.n && 0 <= pi[a] < h.n
    ensures CodeAt(h, coloursH, pi[a], pi[b], i) == CodeAt(g, colours, a, b, i)
  {
    hide IsSurface, Triangulated, Renamed, Inverse, SameWalk, Edges, After, IsTable, ColoursRenamed;
    SurfaceTriangulated(g);
    SurfaceTriangulated(h);
    EdgeInRange(g, a, b);
    VertexRenamed(g, h, pi, inv, a);
    RenamedInverse(g, h, pi, inv);
    ColourAt(colours, coloursH, pi, a);
    if i > 0 {
      AfterRenamed(g, h, pi, inv, a, b, i - 1);
      AfterStep(g, a, b, i - 1);
      var w, u := After(g, a, b, i - 1), After(h, pi[a], pi[b], i - 1);
      EdgeInRange(g, w.a, w.b);
      DiscoverAt(w, u, pi, inv, g.n);
      ColourAt(colours, coloursH, pi, w.b);
    }
  }

  /** The code of a walk does not depend on the names of the vertices. */
  lemma CodeRenamed(g: Surface, h: Surface, pi: seq<int>, inv: seq<int>, colours: seq<int>, coloursH: seq<int>, a: int,
                    b: int, len: nat)
    requires Renamed(g, h, pi, inv) && IsSurface(g) && IsSurface(h) && Edge(g, a, b) && 0 < len <= |Edges(g)|
    requires ColoursRenamed(colours, coloursH, pi)
    ensures |pi| == g.n && |colours| == g.n && |coloursH| == h.n && h.n == g.n && 0 <= pi[a] < h.n
    ensures Code(h, coloursH, pi[a], pi[b], len) == Code(g, colours, a, b, len)
  {
    hide IsSurface, Triangulated, Edges, CodeAt, Renamed, ColoursRenamed;
    SurfaceTriangulated(g);
    SurfaceTriangulated(h);
    CodeAtRenamed(g, h, pi, inv, colours, coloursH, a, b, 0);
    forall i | 0 <= i < len
      ensures CodeAt(h, coloursH, pi[a], pi[b], i) == CodeAt(g, colours, a, b, i)
    {
      CodeAtRenamed(g, h, pi, inv, colours, coloursH, a, b, i);
    }
  }
}
