/** The facets of a hull and the table of third corners built from them. */
module FacetTable {
  import opened RotationSystem

  datatype Facet = Facet(a: int, b: int, c: int)

  /** The corner that follows the directed edge x -> y in a facet, or -1. */
  function Follows(f: Facet, x: int, y: int): int {
    if x == f.a && y == f.b then f.c
    else if x == f.b && y == f.c then f.a
    else if x == f.c && y == f.a then f.b
    else -1
  }

  predicate Corners(f: Facet, n: nat) {
    0 <= f.a < n && 0 <= f.b < n && 0 <= f.c < n && f.a != f.b && f.b != f.c && f.c != f.a
  }

  predicate AllCorners(facets: seq<Facet>, n: nat) {
    forall i :: 0 <= i < |facets| ==> Corners(facets[i], n)
  }

  /** The directed edge x -> y is in two facets. */
  ghost predicate ClashAt(facets: seq<Facet>, i: int, j: int, x: int, y: int) {
    0 <= i < j < |facets| && Follows(facets[i], x, y) != -1 && Follows(facets[j], x, y) != -1
  }

  ghost predicate Clash(facets: seq<Facet>) {
    exists i, j, x, y :: ClashAt(facets, i, j, x, y)
  }

  /** The third corner of the facet with the directed edge x -> y, or -1. */
  function Third(facets: seq<Facet>, x: int, y: int): int {
    if facets == [] then -1 else
      var c := Follows(facets[|facets| - 1], x, y);
      if c != -1 then c else Third(facets[..|facets| - 1], x, y)
  }

  function Row(facets: seq<Facet>, n: nat, x: int): (row: seq<int>)
    ensures |row| == n && forall y :: 0 <= y < n ==> row[y] == Third(facets, x, y)
  {
    seq(n, y => Third(facets, x, y))
  }

  function Table(facets: seq<Facet>, n: nat): (g: Surface)
    ensures g.n == n && |g.common| == n && forall x :: 0 <= x < n ==> g.common[x] == Row(facets, n, x)
  {
    Surface(n, seq(n, x => Row(facets, n, x)))
  }

  lemma {:induction false} ThirdInRange(facets: seq<Facet>, n: nat, x: int, y: int)
    requires AllCorners(facets, n)
    ensures -1 <= Third(facets, x, y) < n
    ensures Third(facets, x, y) != -1 ==> 0 <= x < n && 0 <= y < n && x != y
  {
    if facets != [] {
      assert Corners(facets[|facets| - 1], n);
      ThirdInRange(facets[..|facets| - 1], n, x, y);
    }
  }

  lemma TableIsTable(facets: seq<Facet>, n: nat)
    requires AllCorners(facets, n)
    ensures IsTable(Table(facets, n))
    ensures forall x, y :: 0 <= x < n && 0 <= y < n ==> Table(facets, n).common[x][y] == Third(facets, x, y)
  {
    forall x, y | 0 <= x < n && 0 <= y < n
      ensures Table(facets, n).common[x][y] == Third(facets, x, y) && -1 <= Third(facets, x, y) < n
    {
      ThirdInRange(facets, n, x, y);
    }
  }

  /** The third corner comes from some facet, and from the only one without clashes. */
  lemma {:induction false} ThirdIsFacet(facets: seq<Facet>, x: int, y: int)
    ensures Third(facets, x, y) != -1 ==>
      exists i :: 0 <= i < |facets| && Follows(facets[i], x, y) == Third(facets, x, y)
    ensures Third(facets, x, y) == -1 ==> forall i :: 0 <= i < |facets| ==> Follows(facets[i], x, y) == -1
  {
    if facets != [] {
      var last := |facets| - 1;
      ThirdIsFacet(facets[..last], x, y);
      if Follows(facets[last], x, y) == -1 && Third(facets, x, y) != -1 {
        var i :| 0 <= i < last && Follows(facets[..last][i], x, y) == Third(facets[..last], x, y);
        assert Follows(facets[i], x, y) == Third(facets, x, y);
      }
      forall i | Third(facets, x, y) == -1 && 0 <= i < |facets|
        ensures Follows(facets[i], x, y) == -1
      {
        if i < last {
          assert facets[i] == facets[..last][i];
        }
      }
    }
  }

  lemma FacetIsThird(facets: seq<Facet>, x: int, y: int, i: int)
    requires !Clash(facets) && 0 <= i < |facets| && Follows(facets[i], x, y) != -1
    ensures Third(facets, x, y) == Follows(facets[i], x, y)
  {
    ThirdIsFacet(facets, x, y);
    if Third(facets, x, y) != -1 {
      var j :| 0 <= j < |facets| && Follows(facets[j], x, y) == Third(facets, x, y);
      assert !ClashAt(facets, i, j, x, y) && !ClashAt(facets, j, i, x, y);
    }
  }

  lemma ThirdAppend(facets: seq<Facet>, f: Facet, x: int, y: int)
    ensures Third(facets + [f], x, y) == if Follows(f, x, y) != -1 then Follows(f, x, y) else Third(facets, x, y)
  {
    assert (facets + [f])[..|facets|] == facets;
  }

  /** Adding a facet clashes when one of its edges is taken. */
  lemma ClashAppend(facets: seq<Facet>, f: Facet, n: nat)
    requires AllCorners(facets, n) && Corners(f, n) && !Clash(facets)
    ensures Clash(facets + [f]) <==>
      Third(facets, f.a, f.b) != -1 || Third(facets, f.b, f.c) != -1 || Third(facets, f.c, f.a) != -1
  {
    var more := facets + [f];
    if i, j, x, y :| ClashAt(more, i, j, x, y) {
      assert !ClashAt(facets, i, j, x, y);
      assert more[i] == facets[i] && more[j] == f;
      ThirdIsFacet(facets, x, y);
    }
    AppendClashes(facets, f, f.a, f.b);
    AppendClashes(facets, f, f.b, f.c);
    AppendClashes(facets, f, f.c, f.a);
  }

  lemma AppendClashes(facets: seq<Facet>, f: Facet, x: int, y: int)
    requires Follows(f, x, y) != -1
    ensures Third(facets, x, y) != -1 ==> Clash(facets + [f])
  {
    ThirdIsFacet(facets, x, y);
    if Third(facets, x, y) != -1 {
      var i :| 0 <= i < |facets| && Follows(facets[i], x, y) == Third(facets, x, y);
      assert (facets + [f])[i] == facets[i];
      assert ClashAt(facets + [f], i, |facets|, x, y);
    }
  }

  lemma ClashPrefix(facets: seq<Facet>, i: int)
    requires 0 <= i <= |facets| && Clash(facets[..i])
    ensures Clash(facets)
  {
    var j, k, x, y :| ClashAt(facets[..i], j, k, x, y);
    assert ClashAt(facets, j, k, x, y);
  }

  ghost predicate HoldsTable(common: seq<seq<int>>, facets: seq<Facet>, n: nat) {
    |common| == n && (forall x :: 0 <= x < n ==> |common[x]| == n) &&
    forall x, y :: 0 <= x < n && 0 <= y < n ==> common[x][y] == Third(facets, x, y)
  }

  /** The table of third corners, unless an edge occurs twice in the same direction. */
  method BuildFacetMap(facets: seq<Facet>, n: nat) returns (ok: bool, common: seq<seq<int>>)
    requires AllCorners(facets, n)
    ensures ok == !Clash(facets)
    ensures ok ==> Surface(n, common) == Table(facets, n)
  {
    common := seq(n, _ => seq(n, _ => -1));
    var i := 0;
    while i < |facets|
      invariant 0 <= i <= |facets| && !Clash(facets[..i]) && HoldsTable(common, facets[..i], n)
    {
      var f := facets[i];
      assert facets[..i + 1] == facets[..i] + [f];
      ClashAppend(facets[..i], f, n);
      if common[f.a][f.b] != -1 || common[f.b][f.c] != -1 || common[f.c][f.a] != -1 {
        ClashPrefix(facets, i + 1);
        return false, common;
      }
      ghost var before := common;
      common := common[f.a := common[f.a][f.b := f.c]];
      common := common[f.b := common[f.b][f.c := f.a]];
      common := common[f.c := common[f.c][f.a := f.b]];
      forall x, y | 0 <= x < n && 0 <= y < n
        ensures common[x][y] == Third(facets[..i + 1], x, y)
      {
        ThirdAppend(facets[..i], f, x, y);
        assert common[x][y] == if Follows(f, x, y) != -1 then Follows(f, x, y) else before[x][y];
      }
      i := i + 1;
    }
    assert facets[..i] == facets;
    ok := true;
    assert forall x :: 0 <= x < n ==> common[x] == Row(facets, n, x);
  }

  // Counting edges -----------------------------------------------------------------------------------

  lemma EdgeIffThird(facets: seq<Facet>, n: nat, x: int, y: int)
    requires AllCorners(facets, n)
    ensures IsTable(Table(facets, n)) && (Edge(Table(facets, n), x, y) <==> Third(facets, x, y) != -1)
  {
    TableIsTable(facets, n);
    ThirdInRange(facets, n, x, y);
  }

  ghost function EdgesOf(f: Facet): set<(int, int)> {
    {(f.a, f.b), (f.b, f.c), (f.c, f.a)}
  }

  /** A facet list without clashes has three directed edges for every facet. */
  lemma {:induction false} EdgeCount(facets: seq<Facet>, n: nat)
    requires AllCorners(facets, n) && !Clash(facets)
    ensures IsTable(Table(facets, n)) && |Edges(Table(facets, n))| == 3 * |facets|
  {
    hide Table, Third, Clash, Follows, IsTable;
    TableIsTable(facets, n);
    if facets == [] {
      forall x, y
        ensures !Edge(Table(facets, n), x, y)
      {
        EdgeIffThird(facets, n, x, y);
        ThirdIsFacet(facets, x, y);
      }
      assert Edges(Table(facets, n)) == {};
    } else {
      var last := |facets| - 1;
      var f, less := facets[last], facets[..last];
      if Clash(less) {
        ClashPrefix(facets, last);
      }
      EdgeCount(less, n);
      assert less + [f] == facets;
      EdgesAppend(less, f, n);
    }
  }

  lemma EdgesAppend(facets: seq<Facet>, f: Facet, n: nat)
    requires AllCorners(facets, n) && Corners(f, n) && !Clash(facets) && !Clash(facets + [f])
    ensures IsTable(Table(facets, n)) && IsTable(Table(facets + [f], n))
    ensures |Edges(Table(facets + [f], n))| == |Edges(Table(facets, n))| + 3
  {
    var more := facets + [f];
    TableIsTable(facets, n);
    TableIsTable(more, n);
    ClashAppend(facets, f, n);
    hide Clash, Table, IsTable, Third;
    var edges := Edges(Table(facets, n));
    forall x, y
      ensures (x, y) in Edges(Table(more, n)) <==> (x, y) in edges + EdgesOf(f)
    {
      EdgeIffThird(facets, n, x, y);
      EdgeIffThird(more, n, x, y);
      ThirdAppend(facets, f, x, y);
    }
    assert Edges(Table(more, n)) == edges + EdgesOf(f);
    EdgeIffThird(facets, n, f.a, f.b);
    EdgeIffThird(facets, n, f.b, f.c);
    EdgeIffThird(facets, n, f.c, f.a);
    assert edges !! EdgesOf(f);
    assert |EdgesOf(f)| == 3;
  }

  lemma {:induction false} SymmetricEven(s: set<(int, int)>)
    requires forall x, y :: (x, y) in s ==> (y, x) in s && x != y
    ensures |s| % 2 == 0
  {
    if s != {} {
      var e :| e in s;
      var x, y := e.0, e.1;
      assert e == (x, y);
      var d := (y, x);
      SymmetricEven(s - {e, d});
      assert |s - {e, d}| == |s| - 2;
    }
  }

  /** Every edge of a triangulation comes in two directions. */
  lemma EdgesEven(g: Surface)
    requires Triangulated(g)
    ensures |Edges(g)| % 2 == 0
  {
    forall x, y | (x, y) in Edges(g)
      ensures (y, x) in Edges(g) && x != y
    {
      assert Edge(g, x, y) && Edge(g, y, x);
    }
    SymmetricEven(Edges(g));
  }
}
