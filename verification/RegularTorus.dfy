/** A surface with equal degrees and colours whose canonical code depends on the order of its facets: the torus over
    the eight residues modulo 8 with the facets i, i + 1, i + 3 and i, i + 3, i + 2. */
module RegularTorus {
  import opened RotationSystem
  import opened WeinbergCode
  import opened WeinbergRelabel
  import opened WeinbergNumbers
  import opened FacetTable
  import opened CanonicalForm
  import opened CanonicalInvariance
  import opened CanonicalComplete
  import opened CanonicalRegular

  /** Addition and subtraction modulo 8. */
  function Plus(x: int, d: int): int {
    if x + d < 8 then x + d else x + d - 8
  }

  function Gap(x: int, y: int): int {
    if x <= y then y - x else y - x + 8
  }

  /** The steps from x to the third corner of the facet with an edge of d steps from x, or -1. */
  function Corner(d: int): int {
    match d
    case 1 => 3
    case 2 => 7
    case 3 => 2
    case 5 => 6
    case 6 => 1
    case 7 => 5
    case _ => -1
  }

  function ThirdOf(x: int, y: int): int {
    var t := Corner(Gap(x, y));
    if t == -1 then -1 else Plus(x, t)
  }

  predicate IsTorus(g: Surface) {
    IsTable(g) && g.n == 8 && forall x, y :: 0 <= x < 8 && 0 <= y < 8 ==> g.common[x][y] == ThirdOf(x, y)
  }

  // A surface ------------------------------------------------------------------------------------------------

  lemma ThirdCycles(a: int, b: int)
    requires 0 <= a < 8 && 0 <= b < 8 && ThirdOf(a, b) != -1
    ensures a != b && ThirdOf(b, a) != -1
    ensures 0 <= ThirdOf(a, b) < 8 && ThirdOf(b, ThirdOf(a, b)) == a && ThirdOf(ThirdOf(a, b), a) == b
  {
  }

  lemma TorusTriangulated(g: Surface)
    requires IsTorus(g)
    ensures Triangulated(g)
  {
    hide ThirdOf;
    forall a, b | Edge(g, a, b)
      ensures a != b && Edge(g, b, a) && var c := g.common[a][b];
        Edge(g, b, c) && Edge(g, c, a) && g.common[b][c] == a && g.common[c][a] == b
    {
      ThirdCycles(a, b);
    }
  }

  /** The place of a neighbour d steps away in the order around a vertex. */
  function Place(d: int): (p: int)
    ensures 0 <= p < 6
  {
    match d
    case 1 => 0
    case 6 => 1
    case 5 => 2
    case 7 => 3
    case 2 => 4
    case _ => 5
  }

  lemma NextPlace(b: int, x: int)
    requires 0 <= b < 8 && 0 <= x < 8 && ThirdOf(b, x) != -1
    ensures Place(Gap(b, ThirdOf(x, b))) == (Place(Gap(b, x)) + 1) % 6
  {
  }

  lemma OnePlace(b: int, x: int, y: int)
    requires 0 <= b < 8 && 0 <= x < 8 && 0 <= y < 8 && ThirdOf(b, x) != -1 && ThirdOf(b, y) != -1
    requires Place(Gap(b, x)) == Place(Gap(b, y))
    ensures x == y
  {
  }

  lemma {:induction false} TurnPlace(g: Surface, b: int, x: int, k: nat)
    requires IsTorus(g) && Triangulated(g) && Edge(g, b, x)
    ensures Place(Gap(b, Turn(g, b, x, k))) == (Place(Gap(b, x)) + k) % 6
  {
    hide ThirdOf, Place, Triangulated;
    if k > 0 {
      TurnPlace(g, b, x, k - 1);
      var y := Turn(g, b, x, k - 1);
      NextPlace(b, y);
      assert Turn(g, b, x, k) == ThirdOf(y, b);
      NextOfSix(Place(Gap(b, x)) + k - 1);
    }
  }

  lemma NextOfSix(k: int)
    ensures (k % 6 + 1) % 6 == (k + 1) % 6
  {
  }

  lemma TorusManifold(g: Surface)
    requires IsTorus(g) && Triangulated(g)
    ensures Manifold(g)
  {
    hide ThirdOf, Place, Triangulated;
    forall b, x, y | Edge(g, b, x) && Edge(g, b, y)
      ensures Reaches(g, b, x, y)
    {
      var k := (Place(Gap(b, y)) + 6 - Place(Gap(b, x))) % 6;
      TurnPlace(g, b, x, k);
      OnePlace(b, Turn(g, b, x, k), y);
    }
  }

  lemma {:induction false} AllAlong(g: Surface, s: set<int>, v: int, k: nat)
    requires IsTorus(g) && ClosedUnderEdges(g, s) && v in s && k < 8
    ensures 0 <= v < 8 && Plus(v, k) in s
  {
    assert 0 <= v < 8;
    if k > 0 {
      AllAlong(g, s, v, k - 1);
      assert Edge(g, Plus(v, k - 1), Plus(v, k));
    }
  }

  lemma ClosedIsAll(g: Surface, s: set<int>, v: int)
    requires IsTorus(g) && ClosedUnderEdges(g, s) && s != {} && 0 <= v < 8
    ensures v in s
  {
    hide IsTorus, ClosedUnderEdges;
    var u := MemberOf(s);
    AllAlong(g, s, u, 0);
    AllAlong(g, s, u, Gap(u, v));
  }

  lemma TorusConnected(g: Surface)
    requires IsTorus(g)
    ensures Connected(g)
  {
    hide ThirdOf, ClosedUnderEdges;
    forall s: set<int>, v | s != {} && ClosedUnderEdges(g, s) && 0 <= v < g.n
      ensures v in s
    {
      ClosedIsAll(g, s, v);
    }
  }

  lemma TorusIsSurface(g: Surface)
    requires IsTorus(g)
    ensures IsSurface(g) && Triangulated(g)
  {
    hide IsTable, Triangulated, Manifold, Connected, ThirdOf;
    TorusTriangulated(g);
    TorusManifold(g);
    TorusConnected(g);
    MakeSurface(g);
  }

  lemma MakeSurface(g: Surface)
    requires Triangulated(g) && IsTable(g) && Manifold(g) && Connected(g)
    ensures IsSurface(g)
  {
  }

  // No symmetry ----------------------------------------------------------------------------------------------

  /** Straight on from y - 1 through y comes y + 1; a symmetry that doubles the step goes on doubling it. */
  lemma StraightOn(g: Surface, sigma: seq<int>, back: seq<int>, y: int)
    requires IsTorus(g) && Renamed(g, g, sigma, back) && 1 <= y < 4 && |sigma| == 8
    requires sigma[y - 1] == 2 * y - 2 && sigma[y] == 2 * y
    ensures sigma[y + 1] == Plus(2 * y, 2)
  {
    hide Renamed;
    EdgeRenamed(g, g, sigma, back, y - 1, y);
    EdgeRenamed(g, g, sigma, back, y + 2, y);
    EdgeRenamed(g, g, sigma, back, Plus(y, 3), y);
  }

  /** No symmetry takes the edge 0, 1 to the edge 0, 2: going straight on comes back after eight steps from the one
      and after four from the other. */
  lemma NoSymmetry(g: Surface, colours: seq<int>, sigma: seq<int>, back: seq<int>)
    requires IsTorus(g)
    ensures !Symmetry(g, colours, (0, 1), (0, 2), sigma, back)
  {
    if Symmetry(g, colours, (0, 1), (0, 2), sigma, back) {
      SymmetryIs(g, colours, (0, 1), (0, 2), sigma, back);
      hide Symmetry, Renamed, ThirdOf;
      StraightOn(g, sigma, back, 1);
      StraightOn(g, sigma, back, 2);
      StraightOn(g, sigma, back, 3);
      EdgeRenamed(g, g, sigma, back, 0, 4);
      assert false;
    }
  }

  // Two lists of its facets ----------------------------------------------------------------------------------

  /** The sixteen facets. */
  function FacetNo(i: int): Facet {
    if i < 8 then Facet(i, Plus(i, 1), Plus(i, 3)) else Facet(i - 8, Plus(i - 8, 3), Plus(i - 8, 2))
  }

  /** The facet with an edge. */
  function NoOf(x: int, y: int): int {
    match Gap(x, y)
    case 1 => x
    case 2 => Plus(x, 7)
    case 5 => Plus(x, 5)
    case 3 => 8 + x
    case 7 => 8 + Plus(x, 5)
    case _ => 8 + Plus(x, 6)
  }

  lemma FollowsAt(i: int, x: int, y: int)
    requires 0 <= i < 16 && 0 <= x < 8 && 0 <= y < 8
    ensures Follows(FacetNo(i), x, y) == if ThirdOf(x, y) != -1 && NoOf(x, y) == i then ThirdOf(x, y) else -1
  {
  }

  lemma FacetNoCorners(i: int)
    requires 0 <= i < 16
    ensures Corners(FacetNo(i), 8)
  {
  }

  lemma NoOfRange(x: int, y: int)
    requires 0 <= x < 8 && 0 <= y < 8
    ensures 0 <= NoOf(x, y) < 16
  {
  }

  /** The list has every facet once, written from some corner on. */
  ghost predicate Lists(facets: seq<Facet>, no: seq<int>, at: seq<int>) {
    |facets| == 16 && Inverse(no, at, 16) && forall j :: 0 <= j < 16 ==> IsRotation(facets[j], FacetNo(no[j]))
  }

  lemma ListsAt(facets: seq<Facet>, no: seq<int>, at: seq<int>, j: int)
    requires Lists(facets, no, at) && 0 <= j < 16
    ensures |facets| == |no| == |at| == 16 && 0 <= no[j] < 16 && 0 <= at[j] < 16
    ensures at[no[j]] == j && no[at[j]] == j && IsRotation(facets[j], FacetNo(no[j]))
    ensures Corners(facets[j], 8)
  {
    FacetNoCorners(no[j]);
  }

  lemma ListFollows(facets: seq<Facet>, no: seq<int>, at: seq<int>, j: int, x: int, y: int)
    requires Lists(facets, no, at) && 0 <= j < 16
    ensures |facets| == |no| == 16
    ensures Follows(facets[j], x, y) != -1 ==> 0 <= x < 8 && 0 <= y < 8
    ensures Follows(facets[j], x, y) ==
      if 0 <= x < 8 && 0 <= y < 8 && ThirdOf(x, y) != -1 && NoOf(x, y) == no[j] then ThirdOf(x, y) else -1
  {
    hide Lists, ThirdOf, NoOf, FacetNo, Plus;
    ListsAt(facets, no, at, j);
    FacetNoCorners(no[j]);
    FollowsRotated(facets[j], FacetNo(no[j]), 8, x, y);
    if 0 <= x < 8 && 0 <= y < 8 {
      FollowsAt(no[j], x, y);
    }
  }

  lemma ListClash(facets: seq<Facet>, no: seq<int>, at: seq<int>)
    requires Lists(facets, no, at)
    ensures |facets| == 16 && AllCorners(facets, 8) && !Clash(facets)
  {
    hide Lists, ThirdOf, NoOf, FacetNo, Follows, Corners;
    ListsAt(facets, no, at, 0);
    forall j | 0 <= j < 16
      ensures Corners(facets[j], 8)
    {
      ListsAt(facets, no, at, j);
    }
    forall i, j, x, y
      ensures !ClashAt(facets, i, j, x, y)
    {
      if 0 <= i < j < 16 {
        ListFollows(facets, no, at, i, x, y);
        ListFollows(facets, no, at, j, x, y);
        ListsAt(facets, no, at, i);
        ListsAt(facets, no, at, j);
      }
    }
  }

  lemma ListThird(facets: seq<Facet>, no: seq<int>, at: seq<int>, x: int, y: int)
    requires Lists(facets, no, at) && !Clash(facets) && 0 <= x < 8 && 0 <= y < 8
    ensures Third(facets, x, y) == ThirdOf(x, y)
  {
    hide *;
    ListsAt(facets, no, at, 0);
    ThirdIsFacet(facets, x, y);
    NoOfRange(x, y);
    if ThirdOf(x, y) != -1 {
      ListsAt(facets, no, at, NoOf(x, y));
      var j := at[NoOf(x, y)];
      ListFollows(facets, no, at, j, x, y);
      FacetIsThird(facets, x, y, j);
    } else if Third(facets, x, y) != -1 {
      var j :| 0 <= j < 16 && Follows(facets[j], x, y) == Third(facets, x, y);
      ListFollows(facets, no, at, j, x, y);
    }
  }

  lemma ListsTorus(facets: seq<Facet>, no: seq<int>, at: seq<int>)
    requires Lists(facets, no, at)
    ensures AllCorners(facets, 8) && !Clash(facets) && IsTorus(Table(facets, 8))
  {
    hide Lists, Clash, Third, Table, ThirdOf, IsTable;
    ListClash(facets, no, at);
    TableIsTable(facets, 8);
    forall x, y | 0 <= x < 8 && 0 <= y < 8
      ensures Table(facets, 8).common[x][y] == ThirdOf(x, y)
    {
      ListThird(facets, no, at, x, y);
    }
  }

  lemma RotatedBoth(f: Facet, g: Facet, h: Facet)
    requires IsRotation(f, h) && IsRotation(g, h)
    ensures IsRotation(f, g)
  {
  }

  lemma ListedThere(facets: seq<Facet>, no: seq<int>, at: seq<int>, facetsH: seq<Facet>, noH: seq<int>, atH: seq<int>,
                    i: int)
    requires Lists(facets, no, at) && Lists(facetsH, noH, atH) && 0 <= i < 16
    ensures |facets| == |facetsH| == 16 && HasRotation(facets[i], facetsH)
  {
    ListsAt(facets, no, at, i);
    ListsAt(facetsH, noH, atH, no[i]);
    ListsAt(facetsH, noH, atH, atH[no[i]]);
    RotatedBoth(facets[i], facetsH[atH[no[i]]], FacetNo(no[i]));
  }

  lemma ListsSame(facets: seq<Facet>, no: seq<int>, at: seq<int>, facetsH: seq<Facet>, noH: seq<int>, atH: seq<int>)
    requires Lists(facets, no, at) && Lists(facetsH, noH, atH)
    ensures SameFacets(facetsH, facets)
  {
    hide Lists, HasRotation;
    ListsAt(facets, no, at, 0);
    ListsAt(facetsH, noH, atH, 0);
    forall i | 0 <= i < 16
      ensures HasRotation(facets[i], facetsH) && HasRotation(facetsH[i], facets)
    {
      ListedThere(facets, no, at, facetsH, noH, atH, i);
      ListedThere(facetsH, noH, atH, facets, no, at, i);
    }
  }

  function Counting(): (no: seq<int>)
    ensures |no| == 16 && forall j :: 0 <= j < 16 ==> no[j] == j
  {
    seq(16, j => j)
  }

  /** Number 7 comes first, and the seven before it one place later. */
  function SeventhFirst(): (no: seq<int>)
    ensures |no| == 16 && forall j :: 0 <= j < 16 ==> no[j] == if j == 0 then 7 else if j < 8 then j - 1 else j
  {
    seq(16, j => if j == 0 then 7 else if j < 8 then j - 1 else j)
  }

  function SeventhBack(): (at: seq<int>)
    ensures |at| == 16 && forall j :: 0 <= j < 16 ==> at[j] == if j == 7 then 0 else if j < 7 then j + 1 else j
  {
    seq(16, j => if j == 7 then 0 else if j < 7 then j + 1 else j)
  }

  function Listed(): (facets: seq<Facet>)
    ensures |facets| == 16 && forall j :: 0 <= j < 16 ==> facets[j] == FacetNo(j)
  {
    seq(16, j => FacetNo(j))
  }

  /** The facet 7, 0, 2 first, written from its second corner on. */
  function Relisted(): (facets: seq<Facet>)
    ensures |facets| == 16 && facets[0] == Facet(0, 2, 7)
    ensures forall j :: 1 <= j < 16 ==> facets[j] == FacetNo(SeventhFirst()[j])
  {
    seq(16, j requires 0 <= j < 16 => if j == 0 then Facet(0, 2, 7) else FacetNo(SeventhFirst()[j]))
  }

  function Zeros(): (colours: seq<int>)
    ensures |colours| == 8 && forall v :: 0 <= v < 8 ==> colours[v] == 0
  {
    seq(8, v => 0)
  }

  function Sixes(): (degree: seq<int>)
    ensures |degree| == 8 && forall v :: 0 <= v < 8 ==> degree[v] == 6
  {
    seq(8, v => 6)
  }

  lemma ListedLists()
    ensures Lists(Listed(), Counting(), Counting())
  {
    hide FacetNo, IsRotation;
    forall j | 0 <= j < 16
      ensures IsRotation(Listed()[j], FacetNo(Counting()[j]))
    {
      RotationOfItself(FacetNo(j));
    }
  }

  lemma RelistedLists()
    ensures Lists(Relisted(), SeventhFirst(), SeventhBack())
  {
    assert IsRotation(Relisted()[0], FacetNo(7));
    hide FacetNo, IsRotation;
    forall j | 0 <= j < 16
      ensures IsRotation(Relisted()[j], FacetNo(SeventhFirst()[j]))
    {
      if j > 0 {
        RotationOfItself(FacetNo(SeventhFirst()[j]));
      }
    }
  }

  lemma RotationOfItself(f: Facet)
    ensures IsRotation(f, f)
  {
  }

  // Two forms ------------------------------------------------------------------------------------------------

  function SixFrom(v: int): set<int> {
    {Plus(v, 1), Plus(v, 2), Plus(v, 3), Plus(v, 5), Plus(v, 6), Plus(v, 7)}
  }

  lemma SixFromSize(v: int)
    ensures |SixFrom(v)| == 6
  {
    var a, b, c, d, e, f := Plus(v, 1), Plus(v, 2), Plus(v, 3), Plus(v, 5), Plus(v, 6), Plus(v, 7);
    assert |{a, b, c}| == 3 && |{a, b, c, d}| == 4 && |{a, b, c, d, e}| == 5;
  }

  lemma IsNeighbour(v: int, y: int)
    requires 0 <= v < 8 && 0 <= y < 8
    ensures ThirdOf(v, y) != -1 <==> y in SixFrom(v)
    ensures forall z :: z in SixFrom(v) ==> 0 <= z < 8
  {
  }

  lemma SixNeighbours(g: Surface, v: int)
    requires IsTorus(g) && 0 <= v < 8
    ensures |Neighbours(g, v)| == 6
  {
    hide SixFrom, ThirdOf;
    SixFromSize(v);
    IsNeighbour(v, v);
    forall y | 0 <= y < 8
      ensures y in Neighbours(g, v) <==> y in SixFrom(v)
    {
      IsNeighbour(v, y);
    }
    assert Neighbours(g, v) == SixFrom(v);
  }

  lemma TorusDegrees(g: Surface)
    requires IsTorus(g)
    ensures TrueDegrees(g, Sixes())
  {
    hide Neighbours, ThirdOf;
    forall v | 0 <= v < 8
      ensures |Neighbours(g, v)| == 6
    {
      SixNeighbours(g, v);
    }
  }

  lemma ListWellFormed(facets: seq<Facet>, no: seq<int>, at: seq<int>)
    requires Lists(facets, no, at)
    ensures WellFormed(facets, 8, Sixes(), Zeros()) && !Clash(facets) && AllEqual(8, Sixes(), Zeros())
    ensures IsTorus(Table(facets, 8)) && Triangulated(Table(facets, 8)) && IsSurface(Table(facets, 8))
    ensures TrueDegrees(Table(facets, 8), Sixes()) && LabelsFit(Table(facets, 8), Zeros())
  {
    ListsTorus(facets, no, at);
    TorusIsSurface(Table(facets, 8));
    TorusDegrees(Table(facets, 8));
    ListsAt(facets, no, at, 0);
    hide Lists, Clash, Table, IsSurface, Triangulated, IsTorus, AllCorners;
  }

  lemma TorusCodes(g: Surface)
    requires IsTorus(g) && Triangulated(g) && IsSurface(g) && LabelsFit(g, Zeros())
    ensures CodeFrom(g, Zeros(), (0, 1)) != CodeFrom(g, Zeros(), (0, 2))
  {
    hide IsSurface, Triangulated, LabelsFit, CodeFrom, Symmetry;
    forall sigma, back
      ensures !Symmetry(g, Zeros(), (0, 1), (0, 2), sigma, back)
    {
      NoSymmetry(g, Zeros(), sigma, back);
    }
    SameCodeIffSymmetric(g, Zeros(), (0, 1), (0, 2));
  }

  lemma SameTorus(g: Surface, h: Surface)
    requires IsTorus(g) && IsTorus(h)
    ensures g == h
  {
    forall x | 0 <= x < 8
      ensures g.common[x] == h.common[x]
    {
      assert forall y :: 0 <= y < 8 ==> g.common[x][y] == h.common[x][y];
    }
    assert g.common == h.common;
  }

  /** The same facets in two orders, with the true degrees and one colour: no code is the form of both. */
  lemma OrderMatters(code: seq<int>, labels: seq<Int8>, labelsH: seq<Int8>)
    ensures WellFormed(Listed(), 8, Sixes(), Zeros()) && !Clash(Listed()) && Triangulated(Table(Listed(), 8))
    ensures WellFormed(Relisted(), 8, Sixes(), Zeros()) && !Clash(Relisted()) && Triangulated(Table(Relisted(), 8))
    ensures TrueDegrees(Table(Listed(), 8), Sixes()) && TrueDegrees(Table(Relisted(), 8), Sixes())
    ensures SameFacets(Relisted(), Listed())
    ensures !(IsForm(Listed(), 8, Sixes(), Zeros(), code, labels) &&
              IsForm(Relisted(), 8, Sixes(), Zeros(), code, labelsH))
  {
    hide *;
    ListedLists();
    RelistedLists();
    ListWellFormed(Listed(), Counting(), Counting());
    ListWellFormed(Relisted(), SeventhFirst(), SeventhBack());
    ListsSame(Listed(), Counting(), Counting(), Relisted(), SeventhFirst(), SeventhBack());
    SameTorus(Table(Listed(), 8), Table(Relisted(), 8));
    TorusCodes(Table(Listed(), 8));
    if IsForm(Listed(), 8, Sixes(), Zeros(), code, labels) && IsForm(Relisted(), 8, Sixes(), Zeros(), code, labelsH) {
      RegularCode(Listed(), 8, Sixes(), Zeros(), code, labels);
      RegularCode(Relisted(), 8, Sixes(), Zeros(), code, labelsH);
      FromFirstIs(Listed(), 8, Zeros(), code);
      FromFirstIs(Relisted(), 8, Zeros(), code);
      FirstListed();
      assert false;
    }
  }

  lemma FirstListed()
    ensures Listed()[0] == Facet(0, 1, 3) && Relisted()[0] == Facet(0, 2, 7)
  {
  }
}
