/** Renaming vertices and reordering facets does not change the canonical form. */
module CanonicalInvariance {
  import opened RotationSystem
  import opened WeinbergCode
  import opened WeinbergRelabel
  import opened FacetTable
  import opened CanonicalForm

  /** Renaming vertices and reordering facets leaves the canonical code unchanged. */
  lemma CanonicalCodeRenamed(g: Surface, h: Surface, pi: seq<int>, inv: seq<int>, degree: seq<int>, degreeH: seq<int>,
                             colours: seq<int>, coloursH: seq<int>, best: seq<int>, bestH: seq<int>)
    requires Renamed(g, h, pi, inv) && IsSurface(g) && IsSurface(h)
    requires ColoursRenamed(degree, degreeH, pi) && ColoursRenamed(colours, coloursH, pi)
    requires |degree| == g.n && |degreeH| == h.n && |colours| == g.n && |coloursH| == h.n
    requires CanonicalCode(g, degree, colours, best) && CanonicalCode(h, degreeH, coloursH, bestH)
    ensures best == bestH
  {
    hide IsSurface, Triangulated, IsTable, Renamed, ColoursRenamed, Code, CanonicalCode, LexLess;
    SurfaceTriangulated(g);
    SurfaceTriangulated(h);
    SmallerRenamed(g, h, pi, inv, degree, degreeH, colours, coloursH, best, bestH);
    RenamedBack(g, h, pi, inv);
    ColoursBack(g, h, pi, inv, degree, degreeH);
    ColoursBack(g, h, pi, inv, colours, coloursH);
    SmallerRenamed(h, g, inv, pi, degreeH, degree, coloursH, colours, bestH, best);
    LexTotal(best, bestH, 0);
  }

  lemma ColoursBack(g: Surface, h: Surface, pi: seq<int>, inv: seq<int>, colours: seq<int>, coloursH: seq<int>)
    requires Renamed(g, h, pi, inv) && ColoursRenamed(colours, coloursH, pi)
    ensures ColoursRenamed(coloursH, colours, inv)
  {
    forall v | 0 <= v < g.n
      ensures 0 <= inv[v] < g.n && colours[inv[v]] == coloursH[v]
    {
      assert pi[inv[v]] == v;
    }
  }

  lemma EdgesRenamed(g: Surface, h: Surface, pi: seq<int>, inv: seq<int>)
    requires Renamed(g, h, pi, inv)
    ensures IsTable(g) && IsTable(h) && |Edges(g)| == |Edges(h)|
  {
    RenamedTables(g, h, pi, inv);
    hide Renamed, IsTable;
    RenamedInverse(g, h, pi, inv);
    forall x, y | 0 <= x < g.n && 0 <= y < g.n
      ensures (pi[x], pi[y]) in Edges(h) <==> (x, y) in Edges(g)
    {
      EdgeRenamed(g, h, pi, inv, x, y);
    }
    ImageSize(pi, inv, g.n, Edges(g), Edges(h));
  }

  lemma {:induction false} ImageSize(pi: seq<int>, inv: seq<int>, n: nat, s: set<(int, int)>, t: set<(int, int)>)
    requires Inverse(pi, inv, n)
    requires forall e :: e in s || e in t ==> 0 <= e.0 < n && 0 <= e.1 < n
    requires forall x, y :: 0 <= x < n && 0 <= y < n ==> ((pi[x], pi[y]) in t <==> (x, y) in s)
    ensures |s| == |t|
  {
    forall e | e in t
      ensures (inv[e.0], inv[e.1]) in s
    {
      assert pi[inv[e.0]] == e.0 && pi[inv[e.1]] == e.1;
    }
    if s == {} {
      assert t == {};
    } else {
      var e :| e in s;
      var d := (pi[e.0], pi[e.1]);
      assert d in t;
      forall x, y | 0 <= x < n && 0 <= y < n
        ensures (pi[x], pi[y]) in t - {d} <==> (x, y) in s - {e}
      {
        assert inv[pi[x]] == x && inv[pi[y]] == y && inv[pi[e.0]] == e.0 && inv[pi[e.1]] == e.1;
      }
      ImageSize(pi, inv, n, s - {e}, t - {d});
    }
  }

  lemma KeyRenamed(g: Surface, h: Surface, pi: seq<int>, inv: seq<int>, degree: seq<int>, degreeH: seq<int>, x: int,
                   y: int)
    requires Renamed(g, h, pi, inv) && ColoursRenamed(degree, degreeH, pi) && |degree| == g.n && |degreeH| == h.n
    requires IsTable(g) && IsTable(h) && Edge(g, x, y)
    ensures |pi| == g.n && Edge(h, pi[x], pi[y]) && Key(h, degreeH, pi[x], pi[y]) == Key(g, degree, x, y)
  {
    hide Renamed, IsTable, ColoursRenamed;
    EdgeInRange(g, x, y);
    EdgeRenamed(g, h, pi, inv, x, y);
    TableRange(g, x, y);
    ColourAt(degree, degreeH, pi, x);
    ColourAt(degree, degreeH, pi, y);
    ColourAt(degree, degreeH, pi, g.common[x][y]);
  }

  lemma TableRange(g: Surface, x: int, y: int)
    requires IsTable(g) && Edge(g, x, y)
    ensures 0 <= x < g.n && 0 <= y < g.n && |g.common| == g.n && |g.common[x]| == g.n && 0 <= g.common[x][y] < g.n
  {
  }

  lemma StartRenamedTo(g: Surface, h: Surface, pi: seq<int>, inv: seq<int>, degree: seq<int>, degreeH: seq<int>, x: int,
                       y: int)
    requires Renamed(g, h, pi, inv) && ColoursRenamed(degree, degreeH, pi) && |degree| == g.n && |degreeH| == h.n
    requires IsTable(g) && IsTable(h) && IsStart(g, degree, x, y)
    ensures |pi| == g.n && IsStart(h, degreeH, pi[x], pi[y])
  {
    hide Renamed, IsTable, ColoursRenamed, Key;
    KeyRenamed(g, h, pi, inv, degree, degreeH, x, y);
    RenamedInverse(g, h, pi, inv);
    forall u, v | Edge(h, u, v)
      ensures Key(h, degreeH, u, v) <= Key(h, degreeH, pi[x], pi[y])
    {
      EdgeInRange(h, u, v);
      assert pi[inv[u]] == u && pi[inv[v]] == v;
      EdgeRenamed(g, h, pi, inv, inv[u], inv[v]);
      KeyRenamed(g, h, pi, inv, degree, degreeH, inv[u], inv[v]);
    }
  }

  /** The renamed surface has no greater canonical code. */
  lemma SmallerRenamed(g: Surface, h: Surface, pi: seq<int>, inv: seq<int>, degree: seq<int>, degreeH: seq<int>,
                       colours: seq<int>, coloursH: seq<int>, best: seq<int>, bestH: seq<int>)
    requires Renamed(g, h, pi, inv) && IsSurface(g) && IsSurface(h)
    requires ColoursRenamed(degree, degreeH, pi) && ColoursRenamed(colours, coloursH, pi)
    requires |degree| == g.n && |degreeH| == h.n && |colours| == g.n && |coloursH| == h.n
    requires CanonicalCode(g, degree, colours, best) && CanonicalCode(h, degreeH, coloursH, bestH)
    ensures !LexLess(best, bestH) && |best| == |bestH|
  {
    hide IsSurface, Triangulated, IsTable, Renamed, ColoursRenamed, LexLess, IsStart, Edges;
    SurfaceTriangulated(g);
    SurfaceTriangulated(h);
    EdgesRenamed(g, h, pi, inv);
    var len := |Edges(g)|;
    var x, y := BestStart(g, degree, colours, best);
    StartRenamedTo(g, h, pi, inv, degree, degreeH, x, y);
    EdgesExist(g, x, y);
    CodeRenamed(g, h, pi, inv, colours, coloursH, x, y, len);
    var u, v := BestStart(h, degreeH, coloursH, bestH);
  }

  lemma BestStart(g: Surface, degree: seq<int>, colours: seq<int>, best: seq<int>) returns (x: int, y: int)
    requires Triangulated(g) && |colours| == g.n && |degree| == g.n && CanonicalCode(g, degree, colours, best)
    ensures IsStart(g, degree, x, y) && Edge(g, x, y) && 0 <= x < g.n && best == Code(g, colours, x, y, |Edges(g)|)
  {
    hide Key, Code;
    x, y :| IsStart(g, degree, x, y) && best == Code(g, colours, x, y, |Edges(g)|);
  }

  function RenameFacet(f: Facet, pi: seq<int>): Facet
    requires Corners(f, |pi|)
  {
    Facet(pi[f.a], pi[f.b], pi[f.c])
  }

  ghost function RenameAll(facets: seq<Facet>, pi: seq<int>): (r: seq<Facet>)
    requires AllCorners(facets, |pi|)
    ensures |r| == |facets| && forall i :: 0 <= i < |r| ==> r[i] == RenameFacet(facets[i], pi)
  {
    seq(|facets|, i requires 0 <= i < |facets| => RenameFacet(facets[i], pi))
  }

  lemma FollowsRenamed(f: Facet, pi: seq<int>, inv: seq<int>, n: nat, x: int, y: int)
    requires Inverse(pi, inv, n) && Corners(f, n) && 0 <= x < n && 0 <= y < n
    ensures Follows(RenameFacet(f, pi), pi[x], pi[y]) == Name(pi, Follows(f, x, y))
    ensures Follows(f, x, y) != -1 ==> Name(pi, Follows(f, x, y)) != -1
  {
    assert inv[pi[x]] == x && inv[pi[y]] == y && inv[pi[f.a]] == f.a && inv[pi[f.b]] == f.b && inv[pi[f.c]] == f.c;
    assert pi[x] >= 0 && pi[y] >= 0 && pi[f.a] >= 0 && pi[f.b] >= 0 && pi[f.c] >= 0;
  }

  /** The same facet, written from another corner on. */
  predicate IsRotation(f: Facet, g: Facet) {
    f == g || f == Facet(g.b, g.c, g.a) || f == Facet(g.c, g.a, g.b)
  }

  /** The facet is in the list, from whatever corner on it is written. */
  ghost predicate HasRotation(f: Facet, facets: seq<Facet>) {
    exists j :: 0 <= j < |facets| && IsRotation(f, facets[j])
  }

  /** The two lists have the same facets, in any order and each written from any corner on. */
  ghost predicate SameFacets(s: seq<Facet>, t: seq<Facet>) {
    (forall i :: 0 <= i < |s| ==> HasRotation(s[i], t)) && (forall i :: 0 <= i < |t| ==> HasRotation(t[i], s))
  }

  lemma FollowsRotated(f: Facet, g: Facet, n: nat, x: int, y: int)
    requires IsRotation(f, g) && Corners(g, n)
    ensures Follows(f, x, y) == Follows(g, x, y)
  {
  }

  lemma RenamedCorners(f: Facet, pi: seq<int>, inv: seq<int>, n: nat)
    requires Inverse(pi, inv, n) && Corners(f, n)
    ensures |pi| == n && Corners(RenameFacet(f, pi), n)
  {
    assert inv[pi[f.a]] == f.a && inv[pi[f.b]] == f.b && inv[pi[f.c]] == f.c;
  }

  /** Facets renamed, put in any other order and written from any corner on give the renamed table. */
  lemma FacetsRenamed(facets: seq<Facet>, facetsH: seq<Facet>, n: nat, pi: seq<int>, inv: seq<int>)
    requires Inverse(pi, inv, n) && AllCorners(facets, n) && AllCorners(facetsH, n) && !Clash(facets) && !Clash(facetsH)
    requires SameFacets(facetsH, RenameAll(facets, pi))
    ensures Renamed(Table(facets, n), Table(facetsH, n), pi, inv)
  {
    TableIsTable(facets, n);
    TableIsTable(facetsH, n);
    hide Table, IsTable, Clash, Follows, Third, SameFacets;
    forall x, y | 0 <= x < n && 0 <= y < n
      ensures 0 <= pi[x] < n && 0 <= pi[y] < n && Third(facetsH, pi[x], pi[y]) == Name(pi, Third(facets, x, y))
    {
      ThirdRenamed(facets, facetsH, n, pi, inv, x, y);
    }
  }

  lemma ThirdRenamed(facets: seq<Facet>, facetsH: seq<Facet>, n: nat, pi: seq<int>, inv: seq<int>, x: int, y: int)
    requires Inverse(pi, inv, n) && AllCorners(facets, n) && !Clash(facetsH)
    requires SameFacets(facetsH, RenameAll(facets, pi)) && 0 <= x < n && 0 <= y < n
    ensures Third(facetsH, pi[x], pi[y]) == Name(pi, Third(facets, x, y))
  {
    var renamed := RenameAll(facets, pi);
    hide *;
    ThirdRenamedBy(facets, facetsH, renamed, n, pi, inv, x, y);
  }

  lemma RotationIn(f: Facet, facets: seq<Facet>) returns (j: int)
    requires HasRotation(f, facets)
    ensures 0 <= j < |facets| && IsRotation(f, facets[j])
  {
    j :| 0 <= j < |facets| && IsRotation(f, facets[j]);
  }

  lemma RotatedBack(f: Facet, g: Facet)
    requires IsRotation(f, g)
    ensures IsRotation(g, f)
  {
  }

  lemma ThirdRenamedBy(facets: seq<Facet>, facetsH: seq<Facet>, renamed: seq<Facet>, n: nat, pi: seq<int>,
                       inv: seq<int>, x: int, y: int)
    requires Inverse(pi, inv, n) && AllCorners(facets, n) && !Clash(facetsH) && |renamed| == |facets|
    requires forall i :: 0 <= i < |renamed| ==> renamed[i] == RenameFacet(facets[i], pi)
    requires SameFacets(facetsH, renamed) && 0 <= x < n && 0 <= y < n
    ensures Third(facetsH, pi[x], pi[y]) == Name(pi, Third(facets, x, y))
  {
    hide Clash, Follows, Third, Inverse, HasRotation, IsRotation;
    ThirdIsFacet(facets, x, y);
    ThirdInverse(pi, inv, n, x, y);
    if Third(facets, x, y) != -1 {
      var i :| 0 <= i < |facets| && Follows(facets[i], x, y) == Third(facets, x, y);
      FollowsRenamed(facets[i], pi, inv, n, x, y);
      RenamedCorners(facets[i], pi, inv, n);
      var j := RotationIn(renamed[i], facetsH);
      RotatedBack(renamed[i], facetsH[j]);
      FollowsRotated(facetsH[j], renamed[i], n, pi[x], pi[y]);
      FacetIsThird(facetsH, pi[x], pi[y], j);
    } else {
      forall j | 0 <= j < |facetsH|
        ensures Follows(facetsH[j], pi[x], pi[y]) == -1
      {
        var i := RotationIn(facetsH[j], renamed);
        FollowsRenamed(facets[i], pi, inv, n, x, y);
        RenamedCorners(facets[i], pi, inv, n);
        FollowsRotated(facetsH[j], renamed[i], n, pi[x], pi[y]);
      }
      ThirdIsFacet(facetsH, pi[x], pi[y]);
    }
  }

  lemma ThirdInverse(pi: seq<int>, inv: seq<int>, n: nat, x: int, y: int)
    requires Inverse(pi, inv, n) && 0 <= x < n && 0 <= y < n
    ensures |pi| == n && 0 <= pi[x] < n && 0 <= pi[y] < n
  {
  }

  /** Renaming the vertices, reordering the facets and writing each from another corner on changes neither the
      best code nor the hash, as long as not all degrees and colours are equal. */
  lemma FormInvariant(facets: seq<Facet>, facetsH: seq<Facet>, n: nat, pi: seq<int>, inv: seq<int>,
                      degree: seq<int>, degreeH: seq<int>, colours: seq<int>, coloursH: seq<int>,
                      code: seq<int>, codeH: seq<int>, labels: seq<Int8>, labelsH: seq<Int8>)
    requires WellFormed(facets, n, degree, colours) && WellFormed(facetsH, n, degreeH, coloursH)
    requires !Clash(facets) && !Clash(facetsH)
    requires Inverse(pi, inv, n) && SameFacets(facetsH, RenameAll(facets, pi))
    requires ColoursRenamed(degree, degreeH, pi) && ColoursRenamed(colours, coloursH, pi)
    requires Triangulated(Table(facets, n)) && IsForm(facets, n, degree, colours, code, labels)
    requires Triangulated(Table(facetsH, n)) && IsForm(facetsH, n, degreeH, coloursH, codeH, labelsH)
    requires !AllEqual(n, degree, colours)
    ensures code == codeH
    ensures (forall i :: 0 <= i < |code| ==> code[i] >= 0) ==> HashOf(code) == HashOf(codeH)
  {
    hide Clash, Table, HashOf, Triangulated, CanonicalCode, Renamed, IsSurface, IsWalkOf, SameFacets;
    FacetsRenamed(facets, facetsH, n, pi, inv);
    UnequalRenamed(n, pi, inv, degree, degreeH, colours, coloursH);
    CanonicalCodeRenamed(Table(facets, n), Table(facetsH, n), pi, inv, degree, degreeH, colours, coloursH, code, codeH);
  }

  lemma UnequalRenamed(n: nat, pi: seq<int>, inv: seq<int>, degree: seq<int>, degreeH: seq<int>,
                       colours: seq<int>, coloursH: seq<int>)
    requires Inverse(pi, inv, n) && ColoursRenamed(degree, degreeH, pi) && ColoursRenamed(colours, coloursH, pi)
    requires |degree| == n && |colours| == n && |degreeH| == n && |coloursH| == n && !AllEqual(n, degree, colours)
    ensures !AllEqual(n, degreeH, coloursH)
  {
    var i :| 1 <= i < n && !(degree[i] == degree[0] && colours[i] == colours[0]);
    assert degreeH[pi[i]] == degree[i] && degreeH[pi[0]] == degree[0];
    assert coloursH[pi[i]] == colours[i] && coloursH[pi[0]] == colours[0];
  }
}
