/** The canonical form of a surface whose vertices all have the same degree and colour: the one walk from the first
    edge of the first facet. */
module CanonicalRegular {
  import opened RotationSystem
  import opened WeinbergCode
  import opened WeinbergRelabel
  import opened WeinbergOrder
  import opened WeinbergNumbers
  import opened WeinbergComplete
  import opened FacetTable
  import opened CanonicalForm
  import opened CanonicalInvariance
  import opened CanonicalComplete

  /** The renaming takes the first edge of the one list of facets to the first edge of the other. */
  predicate FirstToFirst(facets: seq<Facet>, facetsH: seq<Facet>, pi: seq<int>) {
    && facets != [] && facetsH != []
    && 0 <= facets[0].a < |pi| && pi[facets[0].a] == facetsH[0].a
    && 0 <= facets[0].b < |pi| && pi[facets[0].b] == facetsH[0].b
  }

  /** The code of a start. */
  ghost function CodeFrom(g: Surface, colours: seq<int>, e: (int, int)): seq<int>
    requires Triangulated(g) && |colours| == g.n && 0 <= e.0 < g.n
  {
    Code(g, colours, e.0, e.1, |Edges(g)|)
  }

  lemma CodeFromIs(g: Surface, colours: seq<int>, e: (int, int))
    requires Triangulated(g) && |colours| == g.n && 0 <= e.0 < g.n
    ensures IsTable(g) && CodeFrom(g, colours, e) == Code(g, colours, e.0, e.1, |Edges(g)|)
  {
  }

  /** The code of the walk from the first edge of the first facet. */
  ghost predicate FromFirst(facets: seq<Facet>, n: nat, colours: seq<int>, code: seq<int>)
    requires Triangulated(Table(facets, n)) && |colours| == n
  {
    && facets != [] && Corners(facets[0], n) && Edge(Table(facets, n), facets[0].a, facets[0].b)
    && code == CodeFrom(Table(facets, n), colours, (facets[0].a, facets[0].b))
  }

  lemma FirstEdge(facets: seq<Facet>, n: nat)
    requires AllCorners(facets, n) && !Clash(facets) && facets != []
    ensures IsTable(Table(facets, n)) && Edge(Table(facets, n), facets[0].a, facets[0].b)
  {
    TableIsTable(facets, n);
    CornersOf(facets, n, 0);
    hide Clash, Table, Third, Follows, AllCorners;
    FollowsFirst(facets[0], n);
    FacetIsThird(facets, facets[0].a, facets[0].b, 0);
  }

  lemma CodeLength(g: Surface, colours: seq<int>, code: seq<int>, e: (int, int), labels: seq<Int8>)
    requires Triangulated(g) && |colours| == g.n && IsWalkOf(g, colours, e, code, labels)
    ensures IsTable(g) && |code| == |Edges(g)|
  {
    hide Canonical;
  }

  /** All degrees and colours equal: the form is that of the first edge. */
  lemma RegularCode(facets: seq<Facet>, n: nat, degree: seq<int>, colours: seq<int>, code: seq<int>,
                    labels: seq<Int8>)
    requires WellFormed(facets, n, degree, colours) && !Clash(facets) && AllEqual(n, degree, colours)
    requires Triangulated(Table(facets, n)) && IsForm(facets, n, degree, colours, code, labels)
    ensures FromFirst(facets, n, colours, code)
  {
    FormBasics(facets, n, degree, colours);
    FirstEdge(facets, n);
    var e := WalkOfForm(facets, n, degree, colours, code, labels);
    CodeLength(Table(facets, n), colours, code, e, labels);
    hide WellFormed, Table, Clash, IsWalkOf, Code, CanonicalCode, Edge, Triangulated, Edges;
  }

  /** The first two vertices of one walk are taken to those of the other. */
  lemma FirstTwoMatch(p: Pair)
    requires Matched(p)
    ensures 0 <= p.a < |p.pi| && 0 <= p.b < |p.pi| && p.pi[p.a] == p.c && p.pi[p.b] == p.d
  {
    hide *;
    MatchedWalks(p);
    Parts(p);
    FirstTwoVertices(p.g, p.a, p.b);
    FirstTwoVertices(p.h, p.c, p.d);
    AlongToEnd(p, 0);
    AlongToEnd(p, 1);
  }

  /** Equal codes of first edges come from a renaming that takes the one edge to the other. */
  lemma FirstEdgesMatch(facets: seq<Facet>, facetsH: seq<Facet>, n: nat, degree: seq<int>, degreeH: seq<int>,
                        colours: seq<int>, coloursH: seq<int>, code: seq<int>)
    returns (pi: seq<int>, inv: seq<int>)
    requires WellFormed(facets, n, degree, colours) && WellFormed(facetsH, n, degreeH, coloursH)
    requires !Clash(facets) && !Clash(facetsH)
    requires Triangulated(Table(facets, n)) && FromFirst(facets, n, colours, code)
    requires Triangulated(Table(facetsH, n)) && FromFirst(facetsH, n, coloursH, code)
    ensures AllCorners(facets, n) && Isomorphic(facets, facetsH, n, colours, coloursH, pi, inv)
    ensures FirstToFirst(facets, facetsH, pi)
  {
    hide *;
    var g, h := Table(facets, n), Table(facetsH, n);
    FormBasics(facets, n, degree, colours);
    FormBasics(facetsH, n, degreeH, coloursH);
    var e, d := (facets[0].a, facets[0].b), (facetsH[0].a, facetsH[0].b);
    FromFirstIs(facets, n, colours, code);
    FromFirstIs(facetsH, n, coloursH, code);
    CodeFromIs(g, colours, e);
    CodeFromIs(h, coloursH, d);
    EqualCodes(g, colours, e, h, coloursH, d);
    CodeDetermines(g, colours, e.0, e.1, h, coloursH, d.0, d.1);
    var p := PairOf(g, e.0, e.1, h, d.0, d.1);
    PairIs(g, e.0, e.1, h, d.0, d.1);
    pi, inv := p.pi, p.inv;
    FacetsFromTables(facets, facetsH, n, pi, inv);
    MakeIsomorphic(facets, facetsH, n, colours, coloursH, pi, inv);
    FirstTwoMatch(p);
    MakeFirstToFirst(facets, facetsH, pi);
  }

  lemma FromFirstIs(facets: seq<Facet>, n: nat, colours: seq<int>, code: seq<int>)
    requires Triangulated(Table(facets, n)) && |colours| == n && FromFirst(facets, n, colours, code)
    ensures facets != [] && Edge(Table(facets, n), facets[0].a, facets[0].b) && IsTable(Table(facets, n))
    ensures Table(facets, n).n == n && 0 <= facets[0].a < n && 0 <= facets[0].b < n
    ensures code == CodeFrom(Table(facets, n), colours, (facets[0].a, facets[0].b))
  {
  }

  lemma MakeFirstToFirst(facets: seq<Facet>, facetsH: seq<Facet>, pi: seq<int>)
    requires facets != [] && facetsH != [] && 0 <= facets[0].a < |pi| && 0 <= facets[0].b < |pi|
    requires pi[facets[0].a] == facetsH[0].a && pi[facets[0].b] == facetsH[0].b
    ensures FirstToFirst(facets, facetsH, pi)
  {
  }

  lemma FirstToFirstIs(facets: seq<Facet>, facetsH: seq<Facet>, pi: seq<int>)
    requires FirstToFirst(facets, facetsH, pi)
    ensures facets != [] && facetsH != [] && 0 <= facets[0].a < |pi| && 0 <= facets[0].b < |pi|
    ensures pi[facets[0].a] == facetsH[0].a && pi[facets[0].b] == facetsH[0].b
  {
  }

  /** Renaming takes the code of a start to that of its copy. */
  lemma CodeFromRenamed(g: Surface, h: Surface, pi: seq<int>, inv: seq<int>, colours: seq<int>, coloursH: seq<int>,
                         e: (int, int), d: (int, int))
    requires Triangulated(g) && Triangulated(h) && |colours| == g.n && |coloursH| == h.n
    requires IsSurface(g) && IsSurface(h) && Edge(g, e.0, e.1) && 0 <= e.0 < g.n && 0 <= d.0 < h.n
    requires Renamed(g, h, pi, inv) && ColoursRenamed(colours, coloursH, pi)
    requires 0 <= e.0 < |pi| && pi[e.0] == d.0 && 0 <= e.1 < |pi| && pi[e.1] == d.1
    ensures CodeFrom(h, coloursH, d) == CodeFrom(g, colours, e)
  {
    hide *;
    EdgesRenamed(g, h, pi, inv);
    MakeWalk(g, e.0, e.1);
    WalkParts(g, e.0, e.1);
    CodeRenamed(g, h, pi, inv, colours, coloursH, e.0, e.1, |Edges(g)|);
    CodeFromIs(g, colours, e);
    CodeFromIs(h, coloursH, d);
  }

  /** A renaming that takes the first edge to the first edge keeps the code. */
  lemma FirstCodeRenamed(facets: seq<Facet>, facetsH: seq<Facet>, n: nat, degree: seq<int>, degreeH: seq<int>,
                         colours: seq<int>, coloursH: seq<int>, code: seq<int>, codeH: seq<int>,
                         pi: seq<int>, inv: seq<int>)
    requires WellFormed(facets, n, degree, colours) && WellFormed(facetsH, n, degreeH, coloursH)
    requires !Clash(facets) && !Clash(facetsH) && AllCorners(facets, n)
    requires Triangulated(Table(facets, n)) && FromFirst(facets, n, colours, code)
    requires Triangulated(Table(facetsH, n)) && FromFirst(facetsH, n, coloursH, codeH)
    requires Isomorphic(facets, facetsH, n, colours, coloursH, pi, inv) && FirstToFirst(facets, facetsH, pi)
    ensures code == codeH
  {
    hide *;
    FormBasics(facets, n, degree, colours);
    FormBasics(facetsH, n, degreeH, coloursH);
    FromFirstIs(facets, n, colours, code);
    FromFirstIs(facetsH, n, coloursH, codeH);
    FirstToFirstIs(facets, facetsH, pi);
    IsomorphicParts(facets, facetsH, n, colours, coloursH, pi, inv);
    FacetsRenamed(facets, facetsH, n, pi, inv);
    CodeFromRenamed(Table(facets, n), Table(facetsH, n), pi, inv, colours, coloursH, (facets[0].a, facets[0].b),
      (facetsH[0].a, facetsH[0].b));
  }

  lemma EqualRenamed(n: nat, pi: seq<int>, inv: seq<int>, degree: seq<int>, degreeH: seq<int>,
                     colours: seq<int>, coloursH: seq<int>)
    requires Inverse(pi, inv, n) && ColoursRenamed(degree, degreeH, pi) && ColoursRenamed(colours, coloursH, pi)
    requires |degree| == n && |colours| == n && |degreeH| == n && |coloursH| == n && AllEqual(n, degree, colours)
    ensures AllEqual(n, degreeH, coloursH)
  {
    forall i | 1 <= i < n
      ensures degreeH[i] == degreeH[0] && coloursH[i] == coloursH[0]
    {
      assert pi[inv[i]] == i && pi[inv[0]] == 0;
      assert degree[inv[i]] == degree[0] == degree[inv[0]] && colours[inv[i]] == colours[0] == colours[inv[0]];
    }
  }

  /** Isomorphic surfaces have equal degrees and colours together. */
  lemma RegularTogether(facets: seq<Facet>, facetsH: seq<Facet>, n: nat, degree: seq<int>, degreeH: seq<int>,
                        colours: seq<int>, coloursH: seq<int>, pi: seq<int>, inv: seq<int>)
    requires WellFormed(facets, n, degree, colours) && WellFormed(facetsH, n, degreeH, coloursH)
    requires !Clash(facets) && !Clash(facetsH) && AllCorners(facets, n) && IsTable(Table(facets, n))
    requires IsTable(Table(facetsH, n)) && TrueDegrees(Table(facets, n), degree)
    requires TrueDegrees(Table(facetsH, n), degreeH) && AllEqual(n, degree, colours)
    requires Isomorphic(facets, facetsH, n, colours, coloursH, pi, inv)
    ensures |degreeH| == n && |coloursH| == n && AllEqual(n, degreeH, coloursH)
  {
    hide *;
    FormBasics(facets, n, degree, colours);
    FormBasics(facetsH, n, degreeH, coloursH);
    IsomorphicParts(facets, facetsH, n, colours, coloursH, pi, inv);
    FacetsRenamed(facets, facetsH, n, pi, inv);
    DegreesRenamed(Table(facets, n), Table(facetsH, n), pi, inv, degree, degreeH);
    EqualRenamed(n, pi, inv, degree, degreeH, colours, coloursH);
  }

  /** With all degrees and colours equal the code decides something finer than isomorphism: two lists of facets
      have the same code if and only if a renaming of the one surface into the other takes the first edge of the
      one list to the first edge of the other. */
  lemma RegularForms(facets: seq<Facet>, facetsH: seq<Facet>, n: nat, degree: seq<int>, degreeH: seq<int>,
                     colours: seq<int>, coloursH: seq<int>, code: seq<int>, codeH: seq<int>,
                     labels: seq<Int8>, labelsH: seq<Int8>)
    requires WellFormed(facets, n, degree, colours) && WellFormed(facetsH, n, degreeH, coloursH)
    requires !Clash(facets) && !Clash(facetsH) && AllCorners(facets, n)
    requires Triangulated(Table(facets, n)) && IsForm(facets, n, degree, colours, code, labels)
    requires Triangulated(Table(facetsH, n)) && IsForm(facetsH, n, degreeH, coloursH, codeH, labelsH)
    requires TrueDegrees(Table(facets, n), degree) && TrueDegrees(Table(facetsH, n), degreeH)
    requires AllEqual(n, degree, colours)
    ensures code == codeH <==>
      exists pi, inv :: Isomorphic(facets, facetsH, n, colours, coloursH, pi, inv) && FirstToFirst(facets, facetsH, pi)
  {
    hide *;
    FormBasics(facets, n, degree, colours);
    FormBasics(facetsH, n, degreeH, coloursH);
    SurfaceTable(Table(facets, n));
    SurfaceTable(Table(facetsH, n));
    RegularCode(facets, n, degree, colours, code, labels);
    if code == codeH {
      var pi', inv' := FormsMatch(facets, facetsH, n, degree, degreeH, colours, coloursH, code, labels, labelsH);
      RegularTogether(facets, facetsH, n, degree, degreeH, colours, coloursH, pi', inv');
      RegularCode(facetsH, n, degreeH, coloursH, codeH, labelsH);
      var pi, inv := FirstEdgesMatch(facets, facetsH, n, degree, degreeH, colours, coloursH, code);
    }
    if pi, inv :|
      Isomorphic(facets, facetsH, n, colours, coloursH, pi, inv) && FirstToFirst(facets, facetsH, pi)
    {
      RegularTogether(facets, facetsH, n, degree, degreeH, colours, coloursH, pi, inv);
      RegularCode(facetsH, n, degreeH, coloursH, codeH, labelsH);
      FirstCodeRenamed(facets, facetsH, n, degree, degreeH, colours, coloursH, code, codeH, pi, inv);
    }
  }

  /** A symmetry of the surface that keeps the colours and takes the edge e to the edge d. */
  ghost predicate Symmetry(g: Surface, colours: seq<int>, e: (int, int), d: (int, int), sigma: seq<int>, back: seq<int>)
    requires IsTable(g)
  {
    && Renamed(g, g, sigma, back) && ColoursRenamed(colours, colours, sigma)
    && 0 <= e.0 < g.n && sigma[e.0] == d.0 && 0 <= e.1 < g.n && sigma[e.1] == d.1
  }

  /** Every edge can be taken to every other edge. */
  ghost predicate EdgeTransitive(g: Surface, colours: seq<int>)
    requires IsTable(g)
  {
    forall e, d :: e in Edges(g) && d in Edges(g) ==> exists sigma, back :: Symmetry(g, colours, e, d, sigma, back)
  }

  lemma SymmetryFor(g: Surface, colours: seq<int>, e: (int, int), d: (int, int))
    returns (sigma: seq<int>, back: seq<int>)
    requires IsTable(g) && EdgeTransitive(g, colours) && Edge(g, e.0, e.1) && Edge(g, d.0, d.1)
    ensures Symmetry(g, colours, e, d, sigma, back)
  {
    hide Symmetry;
    assert e in Edges(g) && d in Edges(g);
    sigma, back :| Symmetry(g, colours, e, d, sigma, back);
  }

  lemma SymmetryIs(g: Surface, colours: seq<int>, e: (int, int), d: (int, int), sigma: seq<int>, back: seq<int>)
    requires IsTable(g) && Symmetry(g, colours, e, d, sigma, back)
    ensures Renamed(g, g, sigma, back) && ColoursRenamed(colours, colours, sigma)
    ensures |sigma| == g.n && 0 <= e.0 < g.n && sigma[e.0] == d.0 && 0 <= e.1 < g.n && sigma[e.1] == d.1
  {
  }

  /** The form of an edge-transitive surface does not depend on how its facets are listed and its vertices named. */
  lemma TransitiveInvariant(facets: seq<Facet>, facetsH: seq<Facet>, n: nat, degree: seq<int>, degreeH: seq<int>,
                            colours: seq<int>, coloursH: seq<int>, pi: seq<int>, inv: seq<int>,
                            code: seq<int>, codeH: seq<int>, labels: seq<Int8>, labelsH: seq<Int8>)
    requires WellFormed(facets, n, degree, colours) && WellFormed(facetsH, n, degreeH, coloursH)
    requires !Clash(facets) && !Clash(facetsH) && AllCorners(facets, n)
    requires Triangulated(Table(facets, n)) && IsForm(facets, n, degree, colours, code, labels)
    requires Triangulated(Table(facetsH, n)) && IsForm(facetsH, n, degreeH, coloursH, codeH, labelsH)
    requires TrueDegrees(Table(facets, n), degree) && TrueDegrees(Table(facetsH, n), degreeH)
    requires AllEqual(n, degree, colours) && EdgeTransitive(Table(facets, n), colours)
    requires Isomorphic(facets, facetsH, n, colours, coloursH, pi, inv)
    ensures code == codeH
  {
    hide *;
    var g, h := Table(facets, n), Table(facetsH, n);
    FormBasics(facets, n, degree, colours);
    FormBasics(facetsH, n, degreeH, coloursH);
    SurfaceTable(g);
    SurfaceTable(h);
    RegularTogether(facets, facetsH, n, degree, degreeH, colours, coloursH, pi, inv);
    RegularCode(facets, n, degree, colours, code, labels);
    RegularCode(facetsH, n, degreeH, coloursH, codeH, labelsH);
    FromFirstIs(facets, n, colours, code);
    FromFirstIs(facetsH, n, coloursH, codeH);
    IsomorphicParts(facets, facetsH, n, colours, coloursH, pi, inv);
    FacetsRenamed(facets, facetsH, n, pi, inv);
    var d := PulledBack(g, h, pi, inv, (facetsH[0].a, facetsH[0].b));
    var e := (facets[0].a, facets[0].b);
    var sigma, back := SymmetryFor(g, colours, e, d);
    SymmetryIs(g, colours, e, d, sigma, back);
    CodeFromRenamed(g, g, sigma, back, colours, colours, e, d);
    CodeFromRenamed(g, h, pi, inv, colours, coloursH, d, (facetsH[0].a, facetsH[0].b));
  }

  /** An edge comes from an edge. */
  lemma PulledBack(g: Surface, h: Surface, pi: seq<int>, inv: seq<int>, e: (int, int)) returns (d: (int, int))
    requires Renamed(g, h, pi, inv) && IsTable(h) && Edge(h, e.0, e.1)
    ensures IsTable(g) && Edge(g, d.0, d.1) && 0 <= d.0 < g.n && 0 <= d.1 < g.n && |pi| == g.n
    ensures pi[d.0] == e.0 && pi[d.1] == e.1
  {
    hide *;
    RenamedTables(g, h, pi, inv);
    EdgeInRange(h, e.0, e.1);
    RenamedBack(g, h, pi, inv);
    EdgeRenamed(h, g, inv, pi, e.0, e.1);
    d := (inv[e.0], inv[e.1]);
  }

  /** Two starts of a surface have the same code if and only if a symmetry takes the one to the other. */
  lemma SameCodeIffSymmetric(g: Surface, colours: seq<int>, e: (int, int), d: (int, int))
    requires IsSurface(g) && Triangulated(g) && IsTable(g) && |colours| == g.n && LabelsFit(g, colours)
    requires Edge(g, e.0, e.1) && Edge(g, d.0, d.1) && 0 <= e.0 < g.n && 0 <= d.0 < g.n
    ensures CodeFrom(g, colours, e) == CodeFrom(g, colours, d) <==>
      exists sigma, back :: Symmetry(g, colours, e, d, sigma, back)
  {
    hide *;
    CodeFromIs(g, colours, e);
    CodeFromIs(g, colours, d);
    if CodeFrom(g, colours, e) == CodeFrom(g, colours, d) {
      EqualCodes(g, colours, e, g, colours, d);
      CodeDetermines(g, colours, e.0, e.1, g, colours, d.0, d.1);
      var p := PairOf(g, e.0, e.1, g, d.0, d.1);
      PairIs(g, e.0, e.1, g, d.0, d.1);
      FirstTwoMatch(p);
      RenamedTables(g, g, p.pi, p.inv);
      MakeSymmetry(g, colours, e, d, p.pi, p.inv);
    }
    if exists sigma, back :: Symmetry(g, colours, e, d, sigma, back) {
      var sigma, back :| Symmetry(g, colours, e, d, sigma, back);
      SymmetryIs(g, colours, e, d, sigma, back);
      CodeFromRenamed(g, g, sigma, back, colours, colours, e, d);
    }
  }

  lemma MakeSymmetry(g: Surface, colours: seq<int>, e: (int, int), d: (int, int), sigma: seq<int>, back: seq<int>)
    requires IsTable(g) && Renamed(g, g, sigma, back) && ColoursRenamed(colours, colours, sigma) && |sigma| == g.n
    requires 0 <= e.0 < g.n && sigma[e.0] == d.0 && 0 <= e.1 < g.n && sigma[e.1] == d.1
    ensures Symmetry(g, colours, e, d, sigma, back)
  {
  }
}
