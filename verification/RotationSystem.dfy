/** Closed triangulated surfaces as tables of third vertices, and the rotation around a vertex. */
module RotationSystem {

  /** common[a][b] is the third vertex of the facet with the directed edge a -> b, or -1. */
  datatype Surface = Surface(n: nat, common: seq<seq<int>>)

  predicate IsTable(g: Surface) {
    && |g.common| == g.n
    && (forall a :: 0 <= a < g.n ==> |g.common[a]| == g.n)
    && (forall a, b :: 0 <= a < g.n && 0 <= b < g.n ==> -1 <= g.common[a][b] < g.n)
  }

  predicate Edge(g: Surface, a: int, b: int)
    requires IsTable(g)
  {
    0 <= a < g.n && 0 <= b < g.n && g.common[a][b] != -1
  }

  /** Every edge lies in two facets, once in each direction, and facets are cyclic triples. */
  ghost predicate Triangulated(g: Surface) {
    && IsTable(g)
    && (forall a, b :: Edge(g, a, b) ==> a != b && Edge(g, b, a))
    && (forall a, b :: Edge(g, a, b) ==> var c := g.common[a][b];
          Edge(g, b, c) && Edge(g, c, a) && g.common[b][c] == a && g.common[c][a] == b)
  }

  /** The neighbour of b that follows x around b. */
  function Next(g: Surface, b: int, x: int): int
    requires IsTable(g) && 0 <= b < g.n && 0 <= x < g.n
  {
    g.common[x][b]
  }

  /** k turns around b from x. */
  ghost function Turn(g: Surface, b: int, x: int, k: nat): (y: int)
    requires Triangulated(g) && Edge(g, b, x)
    ensures Edge(g, b, y)
  {
    if k == 0 then x else
      var z := Turn(g, b, x, k - 1);
      assert Edge(g, z, b);
      Next(g, b, z)
  }

  /** The facets around every vertex form one cycle. */
  ghost predicate Manifold(g: Surface)
    requires Triangulated(g)
  {
    forall b, x, y :: Edge(g, b, x) && Edge(g, b, y) ==> Reaches(g, b, x, y)
  }

  ghost predicate Reaches(g: Surface, b: int, x: int, y: int)
    requires Triangulated(g) && Edge(g, b, x)
  {
    exists k: nat :: Turn(g, b, x, k) == y
  }

  ghost predicate Connected(g: Surface)
    requires IsTable(g)
  {
    forall s: set<int> :: s != {} && ClosedUnderEdges(g, s) ==> forall v :: 0 <= v < g.n ==> v in s
  }

  ghost predicate ClosedUnderEdges(g: Surface, s: set<int>)
    requires IsTable(g)
  {
    (forall v :: v in s ==> 0 <= v < g.n) && (forall a, b :: a in s && Edge(g, a, b) ==> b in s)
  }

  /** A connected closed triangulation without boundary or pinched vertices. */
  ghost predicate IsSurface(g: Surface) {
    Triangulated(g) && Manifold(g) && Connected(g)
  }

  lemma SurfaceTriangulated(g: Surface)
    requires IsSurface(g)
    ensures Triangulated(g) && IsTable(g)
  {
  }

  lemma EdgeInRange(g: Surface, a: int, b: int)
    requires IsTable(g) && Edge(g, a, b)
    ensures 0 <= a < g.n && 0 <= b < g.n
  {
  }

  ghost function Edges(g: Surface): set<(int, int)>
    requires IsTable(g)
  {
    set a, b | 0 <= a < g.n && 0 <= b < g.n && Edge(g, a, b) :: (a, b)
  }

  /** Turning on from where j turns led. */
  lemma {:induction false} TurnAdd(g: Surface, b: int, x: int, j: nat, k: nat)
    requires Triangulated(g) && Edge(g, b, x)
    ensures Turn(g, b, Turn(g, b, x, j), k) == Turn(g, b, x, j + k)
  {
    if k > 0 {
      TurnAdd(g, b, x, j, k - 1);
    }
  }

  /** A cycle that has come back to its start has passed every neighbour. */
  lemma {:induction false} CycleCovers(g: Surface, b: int, x: int, j: nat, k: nat)
    requires Triangulated(g) && Edge(g, b, x) && Turn(g, b, x, j + 1) == x
    ensures exists i: nat :: i <= j && Turn(g, b, x, i) == Turn(g, b, x, k)
  {
    if k > j {
      TurnAdd(g, b, x, j + 1, k - j - 1);
      CycleCovers(g, b, x, j, k - j - 1);
    }
  }
}
