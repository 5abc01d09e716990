/** canonical_form_coloured: the smallest code over the starting edges of greatest degree. */
module CanonicalForm {
  import opened RotationSystem
  import opened WeinbergWalk
  import opened WeinbergCode
  import opened FacetTable
  import opened Bits

  // Starting edges -----------------------------------------------------------------------------------

  /** Three degrees side by side in one word. */
  function Packed(high: int, middle: int, low: int): int {
    high * 0x10000 + middle * 0x100 + low
  }

  /** Keys of byte degrees are ordered like the triples of degrees, the first corner before the others. */
  lemma PackedOrder(high: int, middle: int, low: int, high': int, middle': int, low': int)
    requires 0 <= middle < 0x100 && 0 <= low < 0x100 && 0 <= middle' < 0x100 && 0 <= low' < 0x100
    ensures Packed(high, middle, low) < Packed(high', middle', low') <==>
      high < high' || (high == high' && (middle < middle' || (middle == middle' && low < low')))
  {
  }

  /** The degrees around the facet with the directed edge x -> y, from x on. */
  function Key(g: Surface, degree: seq<int>, x: int, y: int): int
    requires IsTable(g) && |degree| == g.n && Edge(g, x, y)
  {
    Packed(degree[x], degree[y], degree[g.common[x][y]])
  }

  /** A directed edge of greatest key. */
  ghost predicate IsStart(g: Surface, degree: seq<int>, x: int, y: int)
    requires IsTable(g) && |degree| == g.n
  {
    Edge(g, x, y) && forall u, v :: Edge(g, u, v) ==> Key(g, degree, u, v) <= Key(g, degree, x, y)
  }

  /** The degrees at x, at y and at the third corner are less than those at u, at v and there: the first difference
      decides. */
  predicate LessDegrees(g: Surface, degree: seq<int>, x: int, y: int, u: int, v: int)
    requires IsTable(g) && |degree| == g.n && Edge(g, x, y) && Edge(g, u, v)
  {
    degree[x] < degree[u] || (degree[x] == degree[u] && (degree[y] < degree[v] ||
      (degree[y] == degree[v] && degree[g.common[x][y]] < degree[g.common[u][v]])))
  }

  /** The walks start from the edges with the greatest degrees. */
  lemma StartMeaning(g: Surface, degree: seq<int>, x: int, y: int)
    requires IsTable(g) && |degree| == g.n && forall v :: 0 <= v < g.n ==> 0 <= degree[v] < 0x100
    ensures IsStart(g, degree, x, y) <==>
      Edge(g, x, y) && forall u, v :: Edge(g, u, v) ==> !LessDegrees(g, degree, x, y, u, v)
  {
    hide Packed;
    forall u, v | Edge(g, x, y) && Edge(g, u, v)
      ensures LessDegrees(g, degree, x, y, u, v) <==> Key(g, degree, x, y) < Key(g, degree, u, v)
    {
      PackedOrder(degree[x], degree[y], degree[g.common[x][y]], degree[u], degree[v], degree[g.common[u][v]]);
    }
  }

  const MAX_NODES := 16

  /** Facets of a surface whose degrees fit a byte and whose labels fit a signed byte. */
  ghost predicate WellFormed(facets: seq<Facet>, n: nat, degree: seq<int>, colours: seq<int>) {
    && AllCorners(facets, n) && facets != [] && |degree| == n && |colours| == n && n <= MAX_NODES
    && (forall v :: 0 <= v < n ==> 0 <= degree[v] < 128)
    && LabelsFit(Table(facets, n), colours)
    && (!Clash(facets) ==> IsSurface(Table(facets, n)))
  }

  /** `best` is the code of the walk from e, and `labels` are its labels. */
  ghost predicate BestBy(g: Surface, colours: seq<int>, e: (int, int), best: seq<int>, labels: seq<Int8>)
    requires Triangulated(g) && |colours| == g.n
  {
    Edge(g, e.0, e.1) && best == Code(g, colours, e.0, e.1, |Edges(g)|) && Labelled(g, colours, e.0, e.1, labels)
  }

  /** The code from e is not below `best`. */
  ghost predicate NotBelow(g: Surface, colours: seq<int>, e: (int, int), best: seq<int>)
    requires Triangulated(g) && |colours| == g.n
  {
    Edge(g, e.0, e.1) && !LexLess(Code(g, colours, e.0, e.1, |Edges(g)|), best)
  }

  /** `best` is the least code over the tried starting edges; with none tried it is all 127. */
  ghost predicate LeastOf(g: Surface, colours: seq<int>, tried: set<(int, int)>, best: seq<int>, labels: seq<Int8>)
    requires Triangulated(g) && |colours| == g.n
  {
    && |best| == |Edges(g)|
    && (tried == {} ==> forall i :: 0 <= i < |best| ==> best[i] == 127)
    && (tried != {} ==> exists e :: e in tried && BestBy(g, colours, e, best, labels))
    && (forall e :: e in tried ==> NotBelow(g, colours, e, best))
  }

  /** The canonical code: the least code over all starting edges of greatest key. */
  ghost predicate CanonicalCode(g: Surface, degree: seq<int>, colours: seq<int>, best: seq<int>)
    requires Triangulated(g) && |colours| == g.n && |degree| == g.n
  {
    && (exists x, y :: IsStart(g, degree, x, y) && best == Code(g, colours, x, y, |Edges(g)|))
    && (forall x, y :: IsStart(g, degree, x, y) ==> !LexLess(Code(g, colours, x, y, |Edges(g)|), best))
  }

  // Lexicographic order --------------------------------------------------------------------------------

  lemma LexTransitive(x: seq<int>, y: seq<int>, z: seq<int>)
    requires LexLess(x, y) && LexLess(y, z)
    ensures LexLess(x, z)
  {
    var i :| LessAt(x, y, i);
    var j :| LessAt(y, z, j);
    assert LessAt(x, z, if i < j then i else j);
  }

  lemma {:induction false} LexTotal(x: seq<int>, y: seq<int>, from: nat)
    requires |x| == |y| && from <= |x| && forall k :: 0 <= k < from ==> x[k] == y[k]
    ensures x == y || LexLess(x, y) || LexLess(y, x)
    decreases |x| - from
  {
    if from < |x| {
      if x[from] < y[from] {
        assert LessAt(x, y, from);
      } else if y[from] < x[from] {
        assert LessAt(y, x, from);
      } else {
        LexTotal(x, y, from + 1);
      }
    }
  }

  // The search over the starting edges -----------------------------------------------------------------

  /** No code is all 127: the first two vertices get different labels. */
  lemma CodeBeatsInitial(g: Surface, colours: seq<int>, a: int, b: int, best: seq<int>)
    requires IsSurface(g) && Edge(g, a, b) && LabelsFit(g, colours) && |best| == |Edges(g)|
    requires forall i :: 0 <= i < |best| ==> best[i] == 127
    ensures |Edges(g)| >= 2 && |colours| == g.n && Triangulated(g) && 0 <= a < g.n
    ensures LexLess(Code(g, colours, a, b, |Edges(g)|), best)
  {
    hide IsSurface, Connected, Manifold, LexLess, Triangulated, Edges, CodeAt;
    Basics(g, colours, a, b);
    EdgesExist(g, a, b);
    EdgesEven(g);
    var code := Code(g, colours, a, b, |Edges(g)|);
    FirstTwo(g, colours, a, b);
    forall i | 0 <= i < |code|
      ensures code[i] < 128
    {
      CodeFits(g, colours, a, b, i);
    }
    BelowTop(code, best);
  }

  lemma BelowTop(code: seq<int>, top: seq<int>)
    requires |code| == |top| && forall i :: 0 <= i < |top| ==> top[i] == 127 && code[i] < 128
    requires exists i :: 0 <= i < |code| && code[i] != 127
    ensures LexLess(code, top)
  {
    LexTotal(code, top, 0);
  }

  lemma CodeFits(g: Surface, colours: seq<int>, a: int, b: int, i: nat)
    requires IsSurface(g) && Edge(g, a, b) && LabelsFit(g, colours) && i < |Edges(g)|
    ensures |colours| == g.n && Triangulated(g) && 0 <= a < g.n && 0 <= CodeAt(g, colours, a, b, i) < 128
  {
    hide IsSurface, Edges, Triangulated;
    Basics(g, colours, a, b);
    if i > 0 {
      hide CodeAt;
      WalkStep(g, colours, a, b, i - 1);
    } else {
      LabelRange(g, colours, a, 0);
    }
  }

  lemma FirstTwo(g: Surface, colours: seq<int>, a: int, b: int)
    requires IsSurface(g) && Edge(g, a, b) && LabelsFit(g, colours)
    ensures |colours| == g.n && Triangulated(g) && 0 <= a < g.n
    ensures CodeAt(g, colours, a, b, 0) != 127 || CodeAt(g, colours, a, b, 1) != 127
  {
    Basics(g, colours, a, b);
    assert a != b;
    hide IsSurface, Triangulated, LabelsFit;
    assert After(g, a, b, 0) == Start(a, b);
    var ca, cb := colours[a], colours[b];
    assert CodeAt(g, colours, a, b, 0) == ca * g.n;
    assert CodeAt(g, colours, a, b, 1) == cb * g.n + 1;
    DifferByOne(ca, cb, g.n);
  }

  lemma DifferByOne(p: int, q: int, n: int)
    requires n >= 2
    ensures p * n != q * n + 1
  {
    var d := p - q;
    assert p * n - q * n == d * n;
    assert d >= 1 ==> d * n >= n;
    assert d <= 0 ==> d * n <= 0;
  }

  /** One more start: the least code over the starts tried so far stays the least. */
  method TryStart(g: Surface, numEdges: nat, colours: seq<int>, bestCode: array<Int8>, labelling: array<Int8>,
                  a: int, b: int, ghost tried: set<(int, int)>)
    requires IsSurface(g) && Edge(g, a, b) && |Edges(g)| == 2 * numEdges && LabelsFit(g, colours)
    requires bestCode.Length >= 2 * numEdges && labelling.Length >= g.n && bestCode != labelling
    requires LeastOf(g, colours, tried, bestCode[..2 * numEdges], labelling[..g.n])
    modifies bestCode, labelling
    ensures LeastOf(g, colours, tried + {(a, b)}, bestCode[..2 * numEdges], labelling[..g.n])
  {
    hide IsSurface, Triangulated, Edges, LexLess, LabelsFit, LeastOf, Edge;
    Basics(g, colours, a, b);
    ghost var before, labels := bestCode[..2 * numEdges], labelling[..g.n];
    var won := WeinbergColoured(g, numEdges, colours, bestCode, labelling, a, b);
    assert !won ==> labelling[..g.n] == labels by {
      assert labelling[..][..g.n] == labelling[..g.n];
    }
    LeastStep(g, colours, tried, before, labels, a, b, won, labelling[..g.n]);
  }

  lemma LeastStep(g: Surface, colours: seq<int>, tried: set<(int, int)>, best: seq<int>, labels: seq<Int8>,
                  a: int, b: int, won: bool, newLabels: seq<Int8>)
    requires IsSurface(g) && Edge(g, a, b) && LabelsFit(g, colours)
    requires Triangulated(g) && |colours| == g.n && 0 <= a < g.n
    requires LeastOf(g, colours, tried, best, labels) && won == LexLess(Code(g, colours, a, b, |Edges(g)|), best)
    requires won ==> Labelled(g, colours, a, b, newLabels)
    requires !won ==> newLabels == labels
    ensures LeastOf(g, colours, tried + {(a, b)}, if won then Code(g, colours, a, b, |Edges(g)|) else best, newLabels)
  {
    hide IsSurface, Triangulated, Edges, LexLess, LabelsFit, Edge, Labelled, Code;
    Basics(g, colours, a, b);
    if tried == {} {
      CodeBeatsInitial(g, colours, a, b, best);
    }
    var code := Code(g, colours, a, b, |Edges(g)|);
    LexIrreflexive(code);
    if won {
      assert BestBy(g, colours, (a, b), code, newLabels);
      forall e | e in tried
        ensures NotBelow(g, colours, e, code)
      {
        assert NotBelow(g, colours, e, best);
        EdgeInRange(g, e.0, e.1);
        var other := Code(g, colours, e.0, e.1, |Edges(g)|);
        if LexLess(other, code) {
          LexTransitive(other, code, best);
        }
      }
    }
  }

  lemma LexIrreflexive(x: seq<int>)
    ensures !LexLess(x, x)
  {
  }

  /** A rotation of the facet that starts with x -> y has the given key. */
  ghost predicate KeyIs(degree: seq<int>, f: Facet, x: int, y: int, key: int)
    requires Corners(f, |degree|)
  {
    Follows(f, x, y) != -1 && Packed(degree[x], degree[y], degree[Follows(f, x, y)]) == key
  }

  ghost predicate AtMost(degree: seq<int>, f: Facet, key: int)
    requires Corners(f, |degree|)
  {
    Packed(degree[f.a], degree[f.b], degree[f.c]) <= key && Packed(degree[f.b], degree[f.c], degree[f.a]) <= key &&
    Packed(degree[f.c], degree[f.a], degree[f.b]) <= key
  }

  ghost predicate Attained(degree: seq<int>, f: Facet, key: int)
    requires Corners(f, |degree|)
  {
    Packed(degree[f.a], degree[f.b], degree[f.c]) == key || Packed(degree[f.b], degree[f.c], degree[f.a]) == key ||
    Packed(degree[f.c], degree[f.a], degree[f.b]) == key
  }

  function Max(x: int, y: int): int {
    if x < y then y else x
  }

  lemma PackedPositive(high: int, middle: int, low: int)
    requires high >= 0 && middle >= 0 && low >= 0
    ensures Packed(high, middle, low) >= 0
  {
  }

  lemma AtMostGrows(degree: seq<int>, f: Facet, key: int, more: int)
    requires Corners(f, |degree|) && AtMost(degree, f, key) && key <= more
    ensures AtMost(degree, f, more)
  {
  }

  /** The greater of a key and the three keys of a facet. */
  method RaiseTo(best: int, degree: seq<int>, f: Facet) returns (raised: int)
    requires Corners(f, |degree|) && forall v :: 0 <= v < |degree| ==> 0 <= degree[v] < 128
    ensures AtMost(degree, f, raised) && best <= raised
    ensures raised == best || Attained(degree, f, raised)
    ensures best == 0 ==> Attained(degree, f, raised)
  {
    var da, db, dc := degree[f.a], degree[f.b], degree[f.c];
    PackedPositive(da, db, dc);
    raised := Max(best, Packed(da, db, dc));
    raised := Max(raised, Packed(db, dc, da));
    raised := Max(raised, Packed(dc, da, db));
  }

  /** The greatest key over all facets and rotations. */
  method BestDegree(facets: seq<Facet>, degree: seq<int>) returns (best: int)
    requires AllCorners(facets, |degree|) && facets != [] && forall v :: 0 <= v < |degree| ==> 0 <= degree[v] < 128
    ensures forall i :: 0 <= i < |facets| ==> AtMost(degree, facets[i], best)
    ensures exists i :: 0 <= i < |facets| && Attained(degree, facets[i], best)
  {
    best := 0;
    for i := 0 to |facets|
      invariant forall j :: 0 <= j < i ==> AtMost(degree, facets[j], best)
      invariant if i == 0 then best == 0 else exists j :: 0 <= j < i && Attained(degree, facets[j], best)
    {
      ghost var before := best;
      best := RaiseTo(best, degree, facets[i]);
      hide AtMost, Attained;
      forall j | 0 <= j < i
        ensures AtMost(degree, facets[j], best)
      {
        AtMostGrows(degree, facets[j], before, best);
      }
    }
  }

  /** The starts tried are the edges of the first k facets with the greatest key. */
  ghost predicate TriedUpTo(facets: seq<Facet>, degree: seq<int>, best: int, k: int, tried: set<(int, int)>)
    requires AllCorners(facets, |degree|)
  {
    forall x, y :: (x, y) in tried <==> TriedIn(facets, degree, best, k, x, y)
  }

  ghost predicate TriedIn(facets: seq<Facet>, degree: seq<int>, best: int, k: int, x: int, y: int)
    requires AllCorners(facets, |degree|)
  {
    exists i :: 0 <= i < k && i < |facets| && KeyIs(degree, facets[i], x, y, best)
  }

  /** The starts a facet contributes. */
  ghost function StartsOf(degree: seq<int>, f: Facet, best: int): set<(int, int)>
    requires Corners(f, |degree|)
  {
    (if Packed(degree[f.a], degree[f.b], degree[f.c]) == best then {(f.a, f.b)} else {}) +
    (if Packed(degree[f.b], degree[f.c], degree[f.a]) == best then {(f.b, f.c)} else {}) +
    (if Packed(degree[f.c], degree[f.a], degree[f.b]) == best then {(f.c, f.a)} else {})
  }

  lemma TriedNext(facets: seq<Facet>, degree: seq<int>, best: int, k: int, tried: set<(int, int)>)
    requires AllCorners(facets, |degree|) && 0 <= k < |facets| && TriedUpTo(facets, degree, best, k, tried)
    ensures TriedUpTo(facets, degree, best, k + 1, tried + StartsOf(degree, facets[k], best))
  {
    var f := facets[k];
    assert Corners(f, |degree|);
    forall x, y
      ensures (x, y) in StartsOf(degree, f, best) <==> KeyIs(degree, f, x, y, best)
    {
    }
    hide KeyIs, StartsOf, Packed;
    forall x, y
      ensures TriedIn(facets, degree, best, k + 1, x, y) <==>
        TriedIn(facets, degree, best, k, x, y) || KeyIs(degree, f, x, y, best)
    {
      if TriedIn(facets, degree, best, k + 1, x, y) {
        var i :| 0 <= i < k + 1 && i < |facets| && KeyIs(degree, facets[i], x, y, best);
      }
    }
  }

  lemma FacetEdges(facets: seq<Facet>, n: nat, f: Facet, i: int)
    requires AllCorners(facets, n) && !Clash(facets) && 0 <= i < |facets| && facets[i] == f
    ensures IsTable(Table(facets, n)) && Corners(f, n)
    ensures Edge(Table(facets, n), f.a, f.b) && Edge(Table(facets, n), f.b, f.c) && Edge(Table(facets, n), f.c, f.a)
    ensures Table(facets, n).common[f.a][f.b] == f.c && Table(facets, n).common[f.b][f.c] == f.a
    ensures Table(facets, n).common[f.c][f.a] == f.b
  {
    assert Corners(f, n);
    TableIsTable(facets, n);
    FacetIsThird(facets, f.a, f.b, i);
    FacetIsThird(facets, f.b, f.c, i);
    FacetIsThird(facets, f.c, f.a, i);
  }

  /** The three rotations of one facet. */
  method TryFacet(g: Surface, numEdges: nat, degree: seq<int>, colours: seq<int>, f: Facet, best: int,
                  bestCode: array<Int8>, labelling: array<Int8>, ghost tried: set<(int, int)>)
    requires IsSurface(g) && |degree| == g.n && Corners(f, g.n) && Edge(g, f.a, f.b) && Edge(g, f.b, f.c)
    requires Edge(g, f.c, f.a)
    requires |Edges(g)| == 2 * numEdges && LabelsFit(g, colours)
    requires bestCode.Length >= 2 * numEdges && labelling.Length >= g.n && bestCode != labelling
    requires LeastOf(g, colours, tried, bestCode[..2 * numEdges], labelling[..g.n])
    modifies bestCode, labelling
    ensures LeastOf(g, colours, tried + StartsOf(degree, f, best), bestCode[..2 * numEdges], labelling[..g.n])
  {
    hide IsSurface, Triangulated, Edges, LabelsFit, LeastOf, Edge, Packed;
    Basics(g, colours, f.a, f.b);
    var da, db, dc := degree[f.a], degree[f.b], degree[f.c];
    ghost var now := tried;
    if best == Packed(da, db, dc) {
      TryStart(g, numEdges, colours, bestCode, labelling, f.a, f.b, now);
      now := now + {(f.a, f.b)};
    }
    if best == Packed(db, dc, da) {
      TryStart(g, numEdges, colours, bestCode, labelling, f.b, f.c, now);
      now := now + {(f.b, f.c)};
    }
    if best == Packed(dc, da, db) {
      TryStart(g, numEdges, colours, bestCode, labelling, f.c, f.a, now);
      now := now + {(f.c, f.a)};
    }
    assert now == tried + StartsOf(degree, f, best);
  }

  predicate AllEqual(n: nat, degree: seq<int>, colours: seq<int>)
    requires |degree| == n && |colours| == n
  {
    forall i :: 1 <= i < n ==> degree[i] == degree[0] && colours[i] == colours[0]
  }

  /** What the search leaves: the least code over the starts with the greatest key. */
  lemma TriedAll(facets: seq<Facet>, n: nat, degree: seq<int>, best: int, tried: set<(int, int)>, x: int, y: int)
    requires AllCorners(facets, n) && !Clash(facets) && |degree| == n && IsTable(Table(facets, n))
    requires forall i :: 0 <= i < |facets| ==> AtMost(degree, facets[i], best)
    requires exists i :: 0 <= i < |facets| && Attained(degree, facets[i], best)
    requires TriedUpTo(facets, degree, best, |facets|, tried)
    ensures (x, y) in tried <==> IsStart(Table(facets, n), degree, x, y)
  {
    var g := Table(facets, n);
    hide Packed, Clash, Table, IsTable, AtMost, Attained, TriedIn;
    AttainedSomewhere(facets, n, degree, best, tried);
    forall u, v | Edge(g, u, v)
      ensures Key(g, degree, u, v) <= best
      ensures (u, v) in tried <==> Key(g, degree, u, v) == best
    {
      KeyOfEdge(facets, n, degree, best, u, v);
    }
    if (x, y) in tried {
      TriedIsEdge(facets, n, degree, best, x, y);
    }
  }

  lemma TriedIsEdge(facets: seq<Facet>, n: nat, degree: seq<int>, best: int, x: int, y: int)
    requires AllCorners(facets, n) && |degree| == n && TriedIn(facets, degree, best, |facets|, x, y)
    ensures IsTable(Table(facets, n)) && Edge(Table(facets, n), x, y)
  {
    var i :| 0 <= i < |facets| && KeyIs(degree, facets[i], x, y, best);
    ThirdIsFacet(facets, x, y);
    EdgeIffThird(facets, n, x, y);
  }

  lemma AttainedSomewhere(facets: seq<Facet>, n: nat, degree: seq<int>, best: int, tried: set<(int, int)>)
    requires AllCorners(facets, n) && !Clash(facets) && |degree| == n
    requires exists i :: 0 <= i < |facets| && Attained(degree, facets[i], best)
    requires TriedUpTo(facets, degree, best, |facets|, tried)
    ensures IsTable(Table(facets, n))
    ensures exists x, y ::
      (x, y) in tried && Edge(Table(facets, n), x, y) && Key(Table(facets, n), degree, x, y) == best
  {
    var i :| 0 <= i < |facets| && Attained(degree, facets[i], best);
    var f := facets[i];
    FacetEdges(facets, n, f, i);
    hide Packed, Table, Clash;
    var x, y := f.a, f.b;
    if Packed(degree[f.a], degree[f.b], degree[f.c]) == best {
      x, y := f.a, f.b;
    } else if Packed(degree[f.b], degree[f.c], degree[f.a]) == best {
      x, y := f.b, f.c;
    } else {
      x, y := f.c, f.a;
    }
    assert KeyIs(degree, f, x, y, best);
    assert TriedIn(facets, degree, best, |facets|, x, y);
    assert (x, y) in tried;
  }

  lemma KeyOfEdge(facets: seq<Facet>, n: nat, degree: seq<int>, best: int, x: int, y: int)
    requires AllCorners(facets, n) && !Clash(facets) && |degree| == n
    requires IsTable(Table(facets, n)) && Edge(Table(facets, n), x, y)
    requires forall i :: 0 <= i < |facets| ==> AtMost(degree, facets[i], best)
    ensures Key(Table(facets, n), degree, x, y) <= best
    ensures TriedIn(facets, degree, best, |facets|, x, y) <==> Key(Table(facets, n), degree, x, y) == best
  {
    TableIsTable(facets, n);
    EdgeIffThird(facets, n, x, y);
    ThirdIsFacet(facets, x, y);
    var i :| 0 <= i < |facets| && Follows(facets[i], x, y) == Third(facets, x, y);
    hide Packed, Clash, Table, IsTable, Third;
    assert AtMost(degree, facets[i], best);
    if j :| 0 <= j < |facets| && KeyIs(degree, facets[j], x, y, best) {
      FacetIsThird(facets, x, y, j);
    }
    if Key(Table(facets, n), degree, x, y) == best {
      assert KeyIs(degree, facets[i], x, y, best);
    }
  }

  // The hash and the labelling --------------------------------------------------------------------------

  /** Four bits of a code entry at the place of its index. */
  function Nibble(x: int, i: nat): nat
    requires x >= 0
  {
    ((x + i % 8) % 16) * Pow2((4 * i) % 64)
  }

  function HashOf(code: seq<int>): nat
    requires forall i :: 0 <= i < |code| ==> code[i] >= 0
  {
    if code == [] then 0 else
      var last := |code| - 1;
      Xor(HashOf(code[..last]), Nibble(code[last], last))
  }

  /** How many entries have a one at the place p of the hash: every sixteenth entry has its four bits there, plus
      its index modulo eight. */
  function Ones(code: seq<int>, p: nat): nat
    requires forall i :: 0 <= i < |code| ==> code[i] >= 0
  {
    if code == [] then 0 else
      var last := |code| - 1;
      Ones(code[..last], p) + if last % 16 == p / 4 && Bit(code[last] + last % 8, p % 4) == 1 then 1 else 0
  }

  lemma LowBits(x: nat, r: nat)
    requires r < 4
    ensures Bit(x % 16, r) == Bit(x, r)
  {
    assert Pow2(4) == 16;
    hide Pow2, Bit;
    BitBelow(x % 16, x / 16, r, 4 - r);
    assert x % 16 + (x / 16) * 16 == x;
  }

  lemma HighBits(x: nat, r: nat)
    requires r >= 4 && x < 16
    ensures Bit(x, r) == 0
  {
    assert Pow2(4) == 16;
    Pow2Monotone(4, r);
    hide Pow2;
    SameQuotient(x, Pow2(r), 0, x);
  }

  lemma NibbleBit(x: nat, i: nat, p: nat)
    requires p < 64
    ensures Bit(Nibble(x, i), p) == if i % 16 == p / 4 then Bit(x + i % 8, p % 4) else 0
  {
    hide Bit, Pow2;
    var v, s := (x + i % 8) % 16, (4 * i) % 64;
    ShiftBit(v, s, p);
    PlaceOfNibble(i, p, s);
    if s <= p {
      if p - s < 4 {
        LowBits(x + i % 8, p - s);
      } else {
        HighBits(v, p - s);
      }
    }
  }

  lemma PlaceOfNibble(i: nat, p: nat, s: nat)
    requires p < 64 && s == (4 * i) % 64
    ensures i % 16 == p / 4 <==> s <= p < s + 4
    ensures s <= p < s + 4 ==> p - s == p % 4
  {
    NibblePlace(i, s);
    var j, k, r := i % 16, p / 4, p % 4;
    assert s == 4 * j && p == 4 * k + r;
  }

  lemma NibblePlace(i: nat, s: nat)
    requires s == (4 * i) % 64
    ensures s == 4 * (i % 16)
  {
    var q, j := i / 16, i % 16;
    assert 4 * i == 64 * q + 4 * j;
  }

  /** Every bit of the hash is the parity of the entries that have a one there. */
  lemma {:induction false} HashBits(code: seq<int>, p: nat)
    requires p < 64 && forall i :: 0 <= i < |code| ==> code[i] >= 0
    ensures Bit(HashOf(code), p) == Ones(code, p) % 2
  {
    hide Bit, Nibble, Xor;
    if code == [] {
      ZeroBit(p);
    } else {
      var last := |code| - 1;
      HashBits(code[..last], p);
      XorBit(HashOf(code[..last]), Nibble(code[last], last), p);
      NibbleBit(code[last], last, p);
      BitRange(code[last] + last % 8, p % 4);
    }
  }

  /** The hash has 64 bits. */
  lemma {:induction false} HashFits(code: seq<int>)
    requires forall i :: 0 <= i < |code| ==> code[i] >= 0
    ensures HashOf(code) < Pow2(64)
  {
    hide Pow2, Xor;
    if code != [] {
      var last := |code| - 1;
      HashFits(code[..last]);
      NibbleFits(code[last], last);
      XorFits(HashOf(code[..last]), Nibble(code[last], last), 64);
    }
  }

  lemma NibbleFits(x: nat, i: nat)
    ensures Nibble(x, i) < Pow2(64)
  {
    assert Pow2(4) == 16;
    hide Pow2;
    var s := (4 * i) % 64;
    PowerSplits(4, s);
    Pow2Monotone(4 + s, 64);
    TimesLess((x + i % 8) % 16, 16, Pow2(s));
  }

  lemma TimesLess(v: int, a: int, b: int)
    requires v < a && b > 0
    ensures v * b < a * b
  {
  }

  method HashCode(bestCode: array<Int8>, len: nat) returns (hash: nat)
    requires len <= bestCode.Length && forall i :: 0 <= i < len ==> bestCode[i] >= 0
    ensures hash == HashOf(bestCode[..len])
  {
    hide Nibble, Xor;
    hash := 0;
    for i := 0 to len
      invariant hash == HashOf(bestCode[..i])
    {
      ghost var code: seq<int> := bestCode[..i + 1];
      assert code[..i] == bestCode[..i];
      hash := Xor(hash, Nibble(bestCode[i], i));
    }
  }

  /** Entry 0 stands for the central atom; the others are the order of discovery, from one on. */
  ghost predicate Canonical(g: Surface, e: (int, int), labels: seq<Int8>)
    requires Triangulated(g)
  {
    var found := After(g, e.0, e.1, if |Edges(g)| == 0 then 0 else |Edges(g)| - 1).found;
    |labels| == g.n + 1 && labels[0] == 0 &&
    forall v :: 0 <= v < g.n ==> v in found && labels[v + 1] == found[v] + 1
  }

  /** The labels move up by one place; from the top down nothing is overwritten too early. */
  method ShiftLabels(n: nat, labels: array<Int8>)
    requires n > 0 && labels.Length >= n + 1 && forall v :: 0 <= v < n ==> labels[v] >= 0
    requires n < 128
    modifies labels
    ensures labels[0] == 0
    ensures forall v :: 0 <= v < n ==> labels[v + 1] == old(labels[v]) % n + 1
    ensures labels[n + 1..] == old(labels[n + 1..])
  {
    var i := n - 1;
    while i >= 0
      invariant -1 <= i < n
      invariant forall v :: 0 <= v <= i ==> labels[v] == old(labels[v])
      invariant forall v :: i < v < n ==> labels[v + 1] == old(labels[v]) % n + 1
      invariant labels[n + 1..] == old(labels[n + 1..])
    {
      labels[i + 1] := labels[i] % n + 1;
      i := i - 1;
    }
    labels[0] := 0;
  }

  lemma InitialLeast(g: Surface, colours: seq<int>, best: seq<int>, labels: seq<Int8>)
    requires Triangulated(g) && |colours| == g.n && |best| == |Edges(g)|
    requires forall i :: 0 <= i < |best| ==> best[i] == 127
    ensures LeastOf(g, colours, {}, best, labels)
  {
  }

  /** The walks over all facets with the best degree. */
  method TryAll(facets: seq<Facet>, g: Surface, numEdges: nat, degree: seq<int>, colours: seq<int>, best: int,
                bestCode: array<Int8>, labelling: array<Int8>) returns (ghost tried: set<(int, int)>)
    requires AllCorners(facets, g.n) && !Clash(facets) && g == Table(facets, g.n) && IsSurface(g) && |degree| == g.n
    requires |Edges(g)| == 2 * numEdges && LabelsFit(g, colours)
    requires bestCode.Length >= 2 * numEdges && labelling.Length >= g.n && bestCode != labelling
    requires LeastOf(g, colours, {}, bestCode[..2 * numEdges], labelling[..g.n])
    modifies bestCode, labelling
    ensures LeastOf(g, colours, tried, bestCode[..2 * numEdges], labelling[..g.n])
    ensures TriedUpTo(facets, degree, best, |facets|, tried)
  {
    hide IsSurface, Triangulated, Edges, LabelsFit, LeastOf, Clash, Table, TriedUpTo, StartsOf, Edge;
    SurfaceTriangulated(g);
    FitLength(g, colours);
    tried := {};
    NoneTried(facets, degree, best);
    for i := 0 to |facets|
      invariant LeastOf(g, colours, tried, bestCode[..2 * numEdges], labelling[..g.n])
      invariant TriedUpTo(facets, degree, best, i, tried)
    {
      FacetEdges(facets, g.n, facets[i], i);
      TryFacet(g, numEdges, degree, colours, facets[i], best, bestCode, labelling, tried);
      TriedNext(facets, degree, best, i, tried);
      tried := tried + StartsOf(degree, facets[i], best);
    }
  }

  lemma NoneTried(facets: seq<Facet>, degree: seq<int>, best: int)
    requires AllCorners(facets, |degree|)
    ensures TriedUpTo(facets, degree, best, 0, {})
  {
  }

  lemma FitLength(g: Surface, colours: seq<int>)
    requires LabelsFit(g, colours)
    ensures |colours| == g.n
  {
  }

  /** The best code belongs to a walk that also left the labels. */
  ghost predicate HasWalk(g: Surface, colours: seq<int>, best: seq<int>, labels: seq<Int8>)
    requires Triangulated(g) && |colours| == g.n
  {
    exists e :: BestBy(g, colours, e, best, labels)
  }

  lemma LeastIsCanonical(facets: seq<Facet>, n: nat, degree: seq<int>, colours: seq<int>, best: int,
                         tried: set<(int, int)>, code: seq<int>, labels: seq<Int8>)
    requires AllCorners(facets, n) && !Clash(facets) && IsSurface(Table(facets, n)) && |degree| == n && |colours| == n
    requires forall i :: 0 <= i < |facets| ==> AtMost(degree, facets[i], best)
    requires exists i :: 0 <= i < |facets| && Attained(degree, facets[i], best)
    requires TriedUpTo(facets, degree, best, |facets|, tried)
    requires Triangulated(Table(facets, n)) && LeastOf(Table(facets, n), colours, tried, code, labels)
    ensures CanonicalCode(Table(facets, n), degree, colours, code) && HasWalk(Table(facets, n), colours, code, labels)
  {
    var g := Table(facets, n);
    hide IsSurface, Triangulated, Clash, Table, AtMost, Attained, TriedIn, Edges, Labelled, LexLess, TriedUpTo, Key,
      Code;
    TableIsTable(facets, n);
    forall x, y
      ensures (x, y) in tried <==> IsStart(g, degree, x, y)
    {
      TriedAll(facets, n, degree, best, tried, x, y);
    }
    hide IsStart;
    AttainedSomewhere(facets, n, degree, best, tried);
    var e :| e in tried && BestBy(g, colours, e, code, labels);
    var x, y := e.0, e.1;
    assert e == (x, y);
    forall u, v | IsStart(g, degree, u, v)
      ensures Edge(g, u, v) && !LexLess(Code(g, colours, u, v, |Edges(g)|), code)
    {
      assert NotBelow(g, colours, (u, v), code);
    }
  }

  /** Canonical code, labelling and hash; an error when two facets clash. With all degrees and colours
      equal only the first edge of the first facet is tried. */
  method SearchCode(facets: seq<Facet>, g: Surface, degree: seq<int>, colours: seq<int>,
                    bestCode: array<Int8>, labelling: array<Int8>)
    requires WellFormed(facets, g.n, degree, colours) && !Clash(facets) && g == Table(facets, g.n)
    requires bestCode.Length >= 3 * |facets| && labelling.Length >= g.n && bestCode != labelling
    requires forall i :: 0 <= i < bestCode.Length ==> bestCode[i] == 127
    modifies bestCode, labelling
    ensures IsSurface(g) && HasWalk(g, colours, bestCode[..3 * |facets|], labelling[..g.n])
    ensures !AllEqual(g.n, degree, colours) ==> CanonicalCode(g, degree, colours, bestCode[..3 * |facets|])
    ensures AllEqual(g.n, degree, colours) ==>
      Corners(facets[0], g.n) && bestCode[..3 * |facets|] == Code(g, colours, facets[0].a, facets[0].b, 3 * |facets|)
  {
    var numEdges: nat := 3 * |facets| / 2;
    EdgeCount(facets, g.n);
    assert IsSurface(g) && LabelsFit(g, colours) && AllCorners(facets, g.n) && Corners(facets[0], g.n);
    assert forall v :: 0 <= v < g.n ==> 0 <= degree[v] < 128;
    hide IsSurface, Triangulated, Edges, LabelsFit, LeastOf, Clash, Table, TriedUpTo, CanonicalCode, Code, HasWalk,
      WellFormed, AtMost, Attained;
    SurfaceTriangulated(g);
    EdgesEven(g);
    assert 2 * numEdges == 3 * |facets|;
    InitialLeast(g, colours, bestCode[..2 * numEdges], labelling[..g.n]);
    if AllEqual(g.n, degree, colours) {
      FacetEdges(facets, g.n, facets[0], 0);
      TryStart(g, numEdges, colours, bestCode, labelling, facets[0].a, facets[0].b, {});
      OnlyOne(g, colours, (facets[0].a, facets[0].b), bestCode[..2 * numEdges], labelling[..g.n]);
    } else {
      var best := BestDegree(facets, degree);
      ghost var tried := TryAll(facets, g, numEdges, degree, colours, best, bestCode, labelling);
      LeastIsCanonical(facets, g.n, degree, colours, best, tried, bestCode[..2 * numEdges], labelling[..g.n]);
    }
  }

  lemma OnlyOne(g: Surface, colours: seq<int>, e: (int, int), code: seq<int>, labels: seq<Int8>)
    requires Triangulated(g) && |colours| == g.n && LeastOf(g, colours, {} + {e}, code, labels)
    ensures Edge(g, e.0, e.1) && code == Code(g, colours, e.0, e.1, |Edges(g)|) && HasWalk(g, colours, code, labels)
  {
    hide Triangulated, Edges, Labelled, LexLess, Code;
    var d :| d in {} + {e} && BestBy(g, colours, d, code, labels);
    assert d == e;
  }

  /** What a successful run leaves behind, up to and including the final shift of the labels. */
  ghost predicate IsForm(facets: seq<Facet>, n: nat, degree: seq<int>, colours: seq<int>, code: seq<int>,
                         labels: seq<Int8>)
    requires Triangulated(Table(facets, n)) && |degree| == n && |colours| == n
  {
    var g := Table(facets, n);
    && (exists e :: IsWalkOf(g, colours, e, code, labels))
    && (!AllEqual(n, degree, colours) ==> CanonicalCode(g, degree, colours, code))
    && (AllEqual(n, degree, colours) ==>
          facets != [] && Corners(facets[0], n) && code == Code(g, colours, facets[0].a, facets[0].b, |code|))
  }

  ghost predicate IsWalkOf(g: Surface, colours: seq<int>, e: (int, int), code: seq<int>, labels: seq<Int8>)
    requires Triangulated(g) && |colours| == g.n
  {
    Edge(g, e.0, e.1) && code == Code(g, colours, e.0, e.1, |Edges(g)|) && Canonical(g, e, labels)
  }

  lemma LabelledAt(g: Surface, colours: seq<int>, a: int, b: int, labels: seq<Int8>, v: int)
    requires Triangulated(g) && |colours| == g.n && Labelled(g, colours, a, b, labels) && |Edges(g)| > 0 && 0 <= v < g.n
    ensures var found := After(g, a, b, |Edges(g)| - 1).found;
      v in found && labels[v] == Label(g, colours, v, found[v])
  {
    assert labels[v] >= -128;
  }

  lemma ShiftedLabels(g: Surface, colours: seq<int>, code: seq<int>, labels: seq<Int8>, shifted: seq<Int8>)
    requires IsSurface(g) && LabelsFit(g, colours) && |colours| == g.n && HasWalk(g, colours, code, labels)
    requires |shifted| == g.n + 1 && shifted[0] == 0 && g.n > 0
    requires forall v :: 0 <= v < g.n ==> shifted[v + 1] == labels[v] % g.n + 1
    ensures exists e :: IsWalkOf(g, colours, e, code, shifted)
  {
    hide IsSurface, Triangulated, Edges, Code, LabelsFit, After;
    SurfaceTriangulated(g);
    var e :| BestBy(g, colours, e, code, labels);
    EdgesExist(g, e.0, e.1);
    var last: nat := |Edges(g)| - 1;
    var found := After(g, e.0, e.1, last).found;
    FoundFits(g, e.0, e.1, last);
    forall v | 0 <= v < g.n
      ensures v in found && shifted[v + 1] == found[v] + 1
    {
      LabelledAt(g, colours, e.0, e.1, labels, v);
      ModLabel(colours[v], g.n, found[v]);
    }
    assert IsWalkOf(g, colours, e, code, shifted);
  }

  lemma FoundFits(g: Surface, a: int, b: int, k: nat)
    requires IsSurface(g) && Edge(g, a, b) && k < |Edges(g)|
    ensures Triangulated(g)
    ensures forall v :: v in After(g, a, b, k).found ==> 0 <= After(g, a, b, k).found[v] < g.n
  {
    hide Manifold, Connected, Searching, After;
    var w := After(g, a, b, k);
    var path, returning := WalkSearches(g, a, b, k);
    SearchIsSane(g, w, path, a, b, returning);
    AfterNumbered(g, a, b, k);
    assert w.found.Keys <= Range(g.n);
    SubsetSize(w.found.Keys, Range(g.n));
    assert |w.found| == |w.found.Keys|;
  }

  lemma ModLabel(colour: int, n: int, number: int)
    requires 0 <= number < n
    ensures (colour * n + number) % n == number
  {
    var r := (colour * n + number) % n;
    var q := (colour * n + number) / n;
    assert colour * n + number == n * q + r;
    var d := q - colour;
    assert n * d == number - r by {
      assert n * d == n * q - n * colour;
    }
    Within(n, d, number - r);
  }

  lemma Within(n: int, d: int, x: int)
    requires n > 0 && n * d == x && -n < x < n
    ensures x == 0
  {
    assert d >= 1 ==> n * d >= n;
    assert d <= -1 ==> n * d <= -n;
  }

  /** Labels and codes of a walk are never negative. */
  lemma FormPositive(g: Surface, colours: seq<int>, code: seq<int>, labels: seq<Int8>)
    requires IsSurface(g) && LabelsFit(g, colours) && |colours| == g.n && HasWalk(g, colours, code, labels)
    ensures |labels| == g.n && (forall v :: 0 <= v < g.n ==> labels[v] >= 0)
    ensures forall i :: 0 <= i < |code| ==> code[i] >= 0
  {
    hide IsSurface, Triangulated, Edges, CodeAt, LabelsFit, After, Label;
    SurfaceTriangulated(g);
    var e :| BestBy(g, colours, e, code, labels);
    EdgesExist(g, e.0, e.1);
    FoundFits(g, e.0, e.1, |Edges(g)| - 1);
    forall v | 0 <= v < g.n
      ensures labels[v] >= 0
    {
      LabelledAt(g, colours, e.0, e.1, labels, v);
      LabelRange(g, colours, v, After(g, e.0, e.1, |Edges(g)| - 1).found[v]);
    }
    forall i | 0 <= i < |code|
      ensures code[i] >= 0
    {
      CodeFits(g, colours, e.0, e.1, i);
    }
  }

  lemma FormBasics(facets: seq<Facet>, n: nat, degree: seq<int>, colours: seq<int>)
    requires WellFormed(facets, n, degree, colours)
    ensures AllCorners(facets, n) && 0 < n <= MAX_NODES && |degree| == n && |colours| == n && facets != []
    ensures LabelsFit(Table(facets, n), colours) && (!Clash(facets) ==> IsSurface(Table(facets, n)))
    ensures Corners(facets[0], n)
  {
    assert Corners(facets[0], n);
  }

  /** The search with the final shift of the labels. */
  method SearchAndShift(facets: seq<Facet>, g: Surface, degree: seq<int>, colours: seq<int>,
                        bestCode: array<Int8>, labelling: array<Int8>)
    requires WellFormed(facets, g.n, degree, colours) && !Clash(facets) && g == Table(facets, g.n)
    requires bestCode.Length >= 3 * |facets| && labelling.Length >= g.n + 1 && bestCode != labelling
    requires forall i :: 0 <= i < bestCode.Length ==> bestCode[i] == 127
    modifies bestCode, labelling
    ensures Triangulated(g) && |degree| == g.n && |colours| == g.n
    ensures IsForm(facets, g.n, degree, colours, bestCode[..3 * |facets|], labelling[..g.n + 1])
    ensures forall i :: 0 <= i < 3 * |facets| ==> bestCode[i] >= 0
  {
    hide WellFormed, IsSurface, LabelsFit, Clash, Table, CanonicalCode, Code, HasWalk, Triangulated, IsWalkOf;
    FormBasics(facets, g.n, degree, colours);
    SearchCode(facets, g, degree, colours, bestCode, labelling);
    SurfaceTriangulated(g);
    ghost var code, labels := bestCode[..3 * |facets|], labelling[..g.n];
    FormPositive(g, colours, code, labels);
    assert forall v :: 0 <= v < g.n ==> labelling[v] == labels[v];
    ShiftLabels(g.n, labelling);
    ShiftedLabels(g, colours, code, labels, labelling[..g.n + 1]);
    assert bestCode[..3 * |facets|] == code;
    assert forall i :: 0 <= i < 3 * |facets| ==> bestCode[i] == code[i];
  }

  /** Canonical code, labelling and hash; an error exactly when some directed edge is in two facets. */
  method CanonicalFormColoured(facets: seq<Facet>, n: nat, degree: seq<int>, colours: seq<int>,
                               labelling: array<Int8>, bestCode: array<Int8>) returns (ok: bool, hash: nat)
    requires WellFormed(facets, n, degree, colours)
    requires bestCode.Length >= 3 * |facets| && labelling.Length >= n + 1 && bestCode != labelling
    modifies bestCode, labelling
    ensures ok == !Clash(facets)
    ensures ok ==> Triangulated(Table(facets, n)) && |degree| == n && |colours| == n
    ensures ok ==> IsForm(facets, n, degree, colours, bestCode[..3 * |facets|], labelling[..n + 1])
    ensures ok ==> (forall i :: 0 <= i < 3 * |facets| ==> bestCode[i] >= 0) && hash == HashOf(bestCode[..3 * |facets|])
  {
    hide WellFormed, IsSurface, LabelsFit, Clash, Table, IsForm, Triangulated, HashOf;
    FormBasics(facets, n, degree, colours);
    var common;
    ok, common := BuildFacetMap(facets, n);
    if !ok {
      return false, 0;
    }
    forall i | 0 <= i < bestCode.Length {
      bestCode[i] := 127;
    }
    SearchAndShift(facets, Surface(n, common), degree, colours, bestCode, labelling);
    hash := HashCode(bestCode, 3 * |facets|);
  }
}
