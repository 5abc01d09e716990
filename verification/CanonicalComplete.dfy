/** Equal canonical forms come from isomorphic surfaces with the same colours, and only from those. */
module CanonicalComplete {
  import opened RotationSystem
  import opened WeinbergCode
  import opened WeinbergRelabel
  import opened WeinbergOrder
  import opened WeinbergNumbers
  import opened WeinbergComplete
  import opened FacetTable
  import opened CanonicalForm
  import opened CanonicalInvariance

  /** The renaming takes the one list of facets to the other, with the colours. */
  ghost predicate Isomorphic(facets: seq<Facet>, facetsH: seq<Facet>, n: nat, colours: seq<int>, coloursH: seq<int>,
                             pi: seq<int>, inv: seq<int>)
    requires AllCorners(facets, n)
  {
    Inverse(pi, inv, n) && SameFacets(facetsH, RenameAll(facets, pi)) && ColoursRenamed(colours, coloursH, pi)
  }

  // From tables to facets ------------------------------------------------------------------------------------

  lemma CornersOf(facets: seq<Facet>, n: nat, i: int)
    requires AllCorners(facets, n) && 0 <= i < |facets|
    ensures Corners(facets[i], n)
  {
  }

  lemma FollowsFirst(f: Facet, n: nat)
    requires Corners(f, n)
    ensures Follows(f, f.a, f.b) == f.c && f.c != -1
  {
  }

  lemma FollowsIs(f: Facet, r: Facet)
    requires Follows(f, r.a, r.b) == r.c && r.c != -1
    ensures IsRotation(r, f)
  {
  }

  /** A facet has its renamed copy in the other list. */
  lemma FacetThere(facets: seq<Facet>, facetsH: seq<Facet>, n: nat, pi: seq<int>, inv: seq<int>, i: int)
    requires AllCorners(facets, n) && AllCorners(facetsH, n) && !Clash(facets) && 0 <= i < |facets|
    requires Renamed(Table(facets, n), Table(facetsH, n), pi, inv)
    ensures |pi| == n && Corners(facets[i], n) && HasRotation(RenameFacet(facets[i], pi), facetsH)
  {
    TableIsTable(facets, n);
    TableIsTable(facetsH, n);
    var f := facets[i];
    CornersOf(facets, n, i);
    hide Clash, Table, Third, Follows, AllCorners, Renamed;
    FollowsFirst(f, n);
    FacetIsThird(facets, f.a, f.b, i);
    EdgeRenamed(Table(facets, n), Table(facetsH, n), pi, inv, f.a, f.b);
    VertexRenamed(Table(facets, n), Table(facetsH, n), pi, inv, f.c);
    var r := RenameFacet(f, pi);
    ThirdIsFacet(facetsH, r.a, r.b);
    var j :| 0 <= j < |facetsH| && Follows(facetsH[j], r.a, r.b) == Third(facetsH, r.a, r.b);
    FollowsIs(facetsH[j], r);
  }

  lemma RotationRenamedBack(f: Facet, g: Facet, n: nat, pi: seq<int>, inv: seq<int>)
    requires Inverse(pi, inv, n) && Corners(f, n) && Corners(g, n)
    requires IsRotation(RenameFacet(f, inv), g)
    ensures IsRotation(f, RenameFacet(g, pi))
  {
    assert pi[inv[f.a]] == f.a && pi[inv[f.b]] == f.b && pi[inv[f.c]] == f.c;
  }

  lemma TableRenamed(facets: seq<Facet>, facetsH: seq<Facet>, n: nat, pi: seq<int>, inv: seq<int>)
    requires Renamed(Table(facets, n), Table(facetsH, n), pi, inv)
    ensures Inverse(pi, inv, n) && |pi| == |inv| == n && Table(facets, n).n == n && Table(facetsH, n).n == n
  {
    hide IsTable;
  }

  /** Renamed tables come from renamed facets. */
  lemma FacetsFromTables(facets: seq<Facet>, facetsH: seq<Facet>, n: nat, pi: seq<int>, inv: seq<int>)
    requires AllCorners(facets, n) && AllCorners(facetsH, n) && !Clash(facets) && !Clash(facetsH)
    requires Renamed(Table(facets, n), Table(facetsH, n), pi, inv)
    ensures Inverse(pi, inv, n) && |pi| == n && SameFacets(facetsH, RenameAll(facets, pi))
  {
    TableRenamed(facets, facetsH, n, pi, inv);
    RenamedBack(Table(facets, n), Table(facetsH, n), pi, inv);
    hide Clash, Table, Renamed, Inverse, IsRotation;
    var renamed := RenameAll(facets, pi);
    forall i | 0 <= i < |facetsH|
      ensures HasRotation(facetsH[i], renamed)
    {
      FacetThere(facetsH, facets, n, inv, pi, i);
      var j := RotationIn(RenameFacet(facetsH[i], inv), facets);
      RotationRenamedBack(facetsH[i], facets[j], n, pi, inv);
      assert IsRotation(facetsH[i], renamed[j]);
    }
    forall i | 0 <= i < |renamed|
      ensures HasRotation(renamed[i], facetsH)
    {
      FacetThere(facets, facetsH, n, pi, inv, i);
    }
  }

  // Equal codes ----------------------------------------------------------------------------------------------

  lemma WalkOfForm(facets: seq<Facet>, n: nat, degree: seq<int>, colours: seq<int>, code: seq<int>, labels: seq<Int8>)
    returns (e: (int, int))
    requires Triangulated(Table(facets, n)) && |degree| == n && |colours| == n
    requires IsForm(facets, n, degree, colours, code, labels)
    ensures IsWalkOf(Table(facets, n), colours, e, code, labels)
  {
    hide CanonicalCode, IsWalkOf, Code, AllEqual;
    e :| IsWalkOf(Table(facets, n), colours, e, code, labels);
  }

  lemma MakeSameCodes(g: Surface, colours: seq<int>, e: (int, int), h: Surface, coloursH: seq<int>, d: (int, int),
                      code: seq<int>, labels: seq<Int8>, labelsH: seq<Int8>)
    requires IsSurface(g) && IsSurface(h) && Triangulated(g) && Triangulated(h) && g.n == h.n
    requires LabelsFit(g, colours) && LabelsFit(h, coloursH) && |colours| == g.n && |coloursH| == h.n
    requires IsWalkOf(g, colours, e, code, labels) && IsWalkOf(h, coloursH, d, code, labelsH)
    ensures SameCodes(g, colours, e.0, e.1, h, coloursH, d.0, d.1)
  {
    hide *;
    SurfaceTriangulated(g);
    SurfaceTriangulated(h);
    WalkIs(g, colours, e, code, labels);
    WalkIs(h, coloursH, d, code, labelsH);
    WalkParts(g, e.0, e.1);
    WalkParts(h, d.0, d.1);
    EqualCodes(g, colours, e, h, coloursH, d);
  }

  lemma EqualCodes(g: Surface, colours: seq<int>, e: (int, int), h: Surface, coloursH: seq<int>, d: (int, int))
    requires IsSurface(g) && IsSurface(h) && Triangulated(g) && Triangulated(h) && IsTable(g) && IsTable(h)
    requires LabelsFit(g, colours) && LabelsFit(h, coloursH) && |colours| == g.n && |coloursH| == h.n
    requires g.n == h.n && Edge(g, e.0, e.1) && Edge(h, d.0, d.1) && 0 <= e.0 < g.n && 0 <= d.0 < h.n
    requires Code(g, colours, e.0, e.1, |Edges(g)|) == Code(h, coloursH, d.0, d.1, |Edges(h)|)
    ensures SameCodes(g, colours, e.0, e.1, h, coloursH, d.0, d.1)
  {
    hide *;
    MakeWalk(g, e.0, e.1);
    MakeWalk(h, d.0, d.1);
    var code := Code(g, colours, e.0, e.1, |Edges(g)|);
    CodeSize(g, colours, e);
    CodeSize(h, coloursH, d);
    forall i: nat | i < |Edges(g)|
      ensures CodeAt(g, colours, e.0, e.1, i) == CodeAt(h, coloursH, d.0, d.1, i)
    {
      CodeEntry(g, colours, e, code, i);
      CodeEntry(h, coloursH, d, code, i);
    }
    SameFrom(g, colours, e, h, coloursH, d);
  }

  lemma MakeWalk(g: Surface, a: int, b: int)
    requires IsSurface(g) && Triangulated(g) && IsTable(g) && Edge(g, a, b)
    ensures IsWalk(g, a, b)
  {
  }

  lemma CodeSize(g: Surface, colours: seq<int>, e: (int, int))
    requires Triangulated(g) && IsTable(g) && |colours| == g.n && 0 <= e.0 < g.n
    ensures |Code(g, colours, e.0, e.1, |Edges(g)|)| == |Edges(g)|
  {
  }

  lemma WalkIs(g: Surface, colours: seq<int>, e: (int, int), code: seq<int>, labels: seq<Int8>)
    requires IsSurface(g) && Triangulated(g) && IsTable(g) && |colours| == g.n && IsWalkOf(g, colours, e, code, labels)
    ensures IsWalk(g, e.0, e.1) && 0 <= e.0 < g.n && code == Code(g, colours, e.0, e.1, |Edges(g)|)
    ensures |code| == |Edges(g)|
  {
    hide IsSurface, Triangulated, IsTable, Canonical;
    EdgeInRange(g, e.0, e.1);
  }

  lemma CodeEntry(g: Surface, colours: seq<int>, e: (int, int), code: seq<int>, i: nat)
    requires Triangulated(g) && IsTable(g) && |colours| == g.n && 0 <= e.0 < g.n && i < |Edges(g)|
    requires code == Code(g, colours, e.0, e.1, |Edges(g)|)
    ensures i < |code| && code[i] == CodeAt(g, colours, e.0, e.1, i)
  {
    hide Triangulated, IsTable, CodeAt;
  }

  lemma SameFrom(g: Surface, colours: seq<int>, e: (int, int), h: Surface, coloursH: seq<int>, d: (int, int))
    requires IsWalk(g, e.0, e.1) && IsWalk(h, d.0, d.1) && Triangulated(g) && Triangulated(h) && g.n == h.n
    requires IsTable(g) && IsTable(h) && |Edges(g)| == |Edges(h)| && LabelsFit(g, colours) && LabelsFit(h, coloursH)
    requires |colours| == g.n && |coloursH| == h.n && 0 <= e.0 < g.n && 0 <= d.0 < h.n
    requires forall i: nat :: i < |Edges(g)| ==>
      CodeAt(g, colours, e.0, e.1, i) == CodeAt(h, coloursH, d.0, d.1, i)
    ensures SameCodes(g, colours, e.0, e.1, h, coloursH, d.0, d.1)
  {
    hide IsWalk, Triangulated, IsTable, CodeAt, LabelsFit, Edges;
  }

  lemma LabelIs(g: Surface, colours: seq<int>, e: (int, int), code: seq<int>, labels: seq<Int8>, v: int)
    requires Triangulated(g) && |colours| == g.n && IsWalkOf(g, colours, e, code, labels) && 0 <= v < g.n
    ensures |labels| == g.n + 1 && v in Final(g, e.0, e.1) && labels[v + 1] == Final(g, e.0, e.1)[v] + 1
  {
    hide Triangulated, Code, Edges;
  }

  /** Forms with equal codes: taking each vertex to the one with the same label renames the one surface into the
      other, with its colours. */
  lemma FormsMatch(facets: seq<Facet>, facetsH: seq<Facet>, n: nat, degree: seq<int>, degreeH: seq<int>,
                   colours: seq<int>, coloursH: seq<int>, code: seq<int>, labels: seq<Int8>, labelsH: seq<Int8>)
    returns (pi: seq<int>, inv: seq<int>)
    requires WellFormed(facets, n, degree, colours) && WellFormed(facetsH, n, degreeH, coloursH)
    requires !Clash(facets) && !Clash(facetsH)
    requires Triangulated(Table(facets, n)) && IsForm(facets, n, degree, colours, code, labels)
    requires Triangulated(Table(facetsH, n)) && IsForm(facetsH, n, degreeH, coloursH, code, labelsH)
    ensures AllCorners(facets, n) && Isomorphic(facets, facetsH, n, colours, coloursH, pi, inv)
    ensures |pi| == n && |labels| == |labelsH| == n + 1
    ensures forall v :: 0 <= v < n ==> 0 <= pi[v] < n && labelsH[pi[v] + 1] == labels[v + 1]
  {
    hide *;
    var g, h := Table(facets, n), Table(facetsH, n);
    FormBasics(facets, n, degree, colours);
    FormBasics(facetsH, n, degreeH, coloursH);
    var e := WalkOfForm(facets, n, degree, colours, code, labels);
    var d := WalkOfForm(facetsH, n, degreeH, coloursH, code, labelsH);
    MakeSameCodes(g, colours, e, h, coloursH, d, code, labels, labelsH);
    CodeDetermines(g, colours, e.0, e.1, h, coloursH, d.0, d.1);
    var p := PairOf(g, e.0, e.1, h, d.0, d.1);
    PairIs(g, e.0, e.1, h, d.0, d.1);
    pi, inv := p.pi, p.inv;
    FacetsFromTables(facets, facetsH, n, pi, inv);
    MakeIsomorphic(facets, facetsH, n, colours, coloursH, pi, inv);
    MatchedWalks(p);
    LabelIs(g, colours, e, code, labels, e.0) by { FirstVertex(g, e.0, e.1, h, d.0, d.1, p); }
    LabelIs(h, coloursH, d, code, labelsH, d.0) by { FirstVertex(g, e.0, e.1, h, d.0, d.1, p); }
    forall v | 0 <= v < n
      ensures 0 <= pi[v] < n && labelsH[pi[v] + 1] == labels[v + 1]
    {
      There(p, v);
      SameNumber(p, v);
      LabelIs(g, colours, e, code, labels, v);
      LabelIs(h, coloursH, d, code, labelsH, pi[v]);
    }
  }

  lemma FirstVertex(g: Surface, a: int, b: int, h: Surface, c: int, d: int, p: Pair)
    requires Walks(p) && p.g == g && p.a == a && p.b == b && p.h == h && p.c == c && p.d == d
    ensures 0 <= a < g.n && 0 <= c < h.n
  {
    hide *;
    Parts(p);
    EdgeInRange(g, a, b);
    EdgeInRange(h, c, d);
  }

  lemma MakeIsomorphic(facets: seq<Facet>, facetsH: seq<Facet>, n: nat, colours: seq<int>, coloursH: seq<int>,
                       pi: seq<int>, inv: seq<int>)
    requires AllCorners(facets, n) && Inverse(pi, inv, n) && |pi| == n
    requires SameFacets(facetsH, RenameAll(facets, pi)) && ColoursRenamed(colours, coloursH, pi)
    ensures Isomorphic(facets, facetsH, n, colours, coloursH, pi, inv)
  {
  }

  // Degrees --------------------------------------------------------------------------------------------------

  ghost function Neighbours(g: Surface, v: int): set<int>
    requires IsTable(g)
  {
    set y | 0 <= y < g.n && Edge(g, v, y)
  }

  /** The degrees are those of the graph. */
  ghost predicate TrueDegrees(g: Surface, degree: seq<int>)
    requires IsTable(g)
  {
    |degree| == g.n && forall v :: 0 <= v < g.n ==> degree[v] == |Neighbours(g, v)|
  }

  lemma {:induction false} ImageCount(pi: seq<int>, inv: seq<int>, n: nat, s: set<int>, t: set<int>)
    requires Inverse(pi, inv, n) && forall x :: x in s || x in t ==> 0 <= x < n
    requires forall x :: 0 <= x < n ==> (pi[x] in t <==> x in s)
    ensures |s| == |t|
  {
    forall y | y in t
      ensures inv[y] in s
    {
      assert pi[inv[y]] == y;
    }
    if s == {} {
      if t != {} {
        var y := MemberOf(t);
      }
    } else {
      var x := MemberOf(s);
      forall y | 0 <= y < n
        ensures pi[y] in t - {pi[x]} <==> y in s - {x}
      {
        assert inv[pi[y]] == y && inv[pi[x]] == x;
      }
      ImageCount(pi, inv, n, s - {x}, t - {pi[x]});
    }
  }

  /** Degrees go with the vertices. */
  lemma DegreesRenamed(g: Surface, h: Surface, pi: seq<int>, inv: seq<int>, degree: seq<int>, degreeH: seq<int>)
    requires Renamed(g, h, pi, inv) && IsTable(g) && IsTable(h) && TrueDegrees(g, degree) && TrueDegrees(h, degreeH)
    ensures ColoursRenamed(degree, degreeH, pi)
  {
    RenamedTables(g, h, pi, inv);
    RenamedInverse(g, h, pi, inv);
    hide Renamed, IsTable;
    forall v | 0 <= v < g.n
      ensures 0 <= pi[v] < g.n && degreeH[pi[v]] == degree[v]
    {
      VertexRenamed(g, h, pi, inv, v);
      forall x | 0 <= x < g.n
        ensures pi[x] in Neighbours(h, pi[v]) <==> x in Neighbours(g, v)
      {
        EdgeRenamed(g, h, pi, inv, v, x);
      }
      ImageCount(pi, inv, g.n, Neighbours(g, v), Neighbours(h, pi[v]));
    }
  }

  /** The canonical code decides isomorphism: two surfaces have the same code if and only if one is the other with
      its vertices renamed, colours included. */
  lemma SameCodeIffIsomorphic(facets: seq<Facet>, facetsH: seq<Facet>, n: nat, degree: seq<int>, degreeH: seq<int>,
                              colours: seq<int>, coloursH: seq<int>, code: seq<int>, codeH: seq<int>,
                              labels: seq<Int8>, labelsH: seq<Int8>)
    requires WellFormed(facets, n, degree, colours) && WellFormed(facetsH, n, degreeH, coloursH)
    requires !Clash(facets) && !Clash(facetsH) && AllCorners(facets, n)
    requires Triangulated(Table(facets, n)) && IsForm(facets, n, degree, colours, code, labels)
    requires Triangulated(Table(facetsH, n)) && IsForm(facetsH, n, degreeH, coloursH, codeH, labelsH)
    requires TrueDegrees(Table(facets, n), degree) && TrueDegrees(Table(facetsH, n), degreeH)
    requires !AllEqual(n, degree, colours)
    ensures code == codeH <==> exists pi, inv :: Isomorphic(facets, facetsH, n, colours, coloursH, pi, inv)
  {
    hide *;
    FormBasics(facets, n, degree, colours);
    FormBasics(facetsH, n, degreeH, coloursH);
    if code == codeH {
      var pi, inv := FormsMatch(facets, facetsH, n, degree, degreeH, colours, coloursH, code, labels, labelsH);
    }
    if exists pi, inv :: Isomorphic(facets, facetsH, n, colours, coloursH, pi, inv) {
      var pi, inv :| Isomorphic(facets, facetsH, n, colours, coloursH, pi, inv);
      IsomorphicParts(facets, facetsH, n, colours, coloursH, pi, inv);
      FacetsRenamed(facets, facetsH, n, pi, inv);
      SurfaceTable(Table(facets, n));
      SurfaceTable(Table(facetsH, n));
      DegreesRenamed(Table(facets, n), Table(facetsH, n), pi, inv, degree, degreeH);
      FormInvariant(facets, facetsH, n, pi, inv, degree, degreeH, colours, coloursH, code, codeH, labels, labelsH);
    }
  }

  lemma IsomorphicParts(facets: seq<Facet>, facetsH: seq<Facet>, n: nat, colours: seq<int>, coloursH: seq<int>,
                        pi: seq<int>, inv: seq<int>)
    requires AllCorners(facets, n) && Isomorphic(facets, facetsH, n, colours, coloursH, pi, inv)
    ensures Inverse(pi, inv, n) && |pi| == n && SameFacets(facetsH, RenameAll(facets, pi))
    ensures ColoursRenamed(colours, coloursH, pi)
  {
  }
}
