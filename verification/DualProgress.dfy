/** Every round that leaves a node unmatched moves the duals up, and they are bounded by the optimum. */
module DualProgress {
  import opened Sums
  import opened Duality
  import opened EdgeIndex
  import opened BlossomTree
  import opened BlossomFamily
  import opened BlossomPartition
  import opened BlossomCircuit
  import opened BlossomExpand
  import opened BlossomDuals
  import opened BlossomUnblock
  import opened BlossomRetrieve
  import opened MatchingStart
  import opened AlternatingForest
  import opened AugmentingPath
  import opened ForestGrowth
  import opened DualRounds
  import opened SearchOrder

  // The step is positive -----------------------------------------------------------------------------------------

  lemma CategoryBack(a: int, b: int, n: nat, outer: seq<int>, kind: seq<int>)
    ensures Category(a, b, n, outer, kind) == Category(b, a, n, outer, kind)
  {
  }

  /** When the search is over, every edge that bounds the step has slack. */
  lemma BoundHasSlack(a: int, b: int, n: nat, outer: seq<int>, kind: seq<int>, slack: seq<real>)
    requires 0 <= a < b < n && |slack| == EdgeCount(n) && Category(a, b, n, outer, kind) != 0
    requires !Promising(a, b, n, outer, kind, slack) && !Promising(b, a, n, outer, kind, slack)
    ensures SlackOf(slack, n, a, b) > 0.0
  {
    IndexIsBijection(n, a, b, b, a);
  }

  /** An outermost odd blossom has a dual. */
  lemma OddHasDual(family: set<Tree>, base: set<Tree>, stops: set<int>, n: nat, active: seq<bool>, free: seq<int>,
                   deep: seq<seq<int>>,
                   shallow: seq<seq<int>>, outer: seq<int>, kind: seq<int>, mate: seq<int>, slack: seq<real>,
                   blocked: seq<bool>, dual: seq<real>, j: int)
    requires Whole(family, {}, n, active, free, deep, shallow, outer)
    requires IsReady(family, base, stops, n, active, blocked, dual, mate, slack)
    requires FreshAreEven(family, stops, kind, n) && n <= j < 2 * n && active[j] && outer[j] == j && |kind| == 2 * n
    requires kind[j] == ODD
    ensures |dual| == 2 * n && dual[j] > 0.0
  {
    hide *;
    SortsDiffer();
    ReadyParts(family, base, stops, n, active, blocked, dual, mate, slack);
    var t := OutermostTree(family, {}, n, active, free, deep, shallow, outer, j);
    FreshLabel(family, stops, kind, n, t);
    FullHasDual(n, blocked, dual, j);
  }

  lemma FreshLabel(family: set<Tree>, stops: set<int>, kind: seq<int>, n: nat, t: Tree)
    requires FreshAreEven(family, stops, kind, n) && t in family && n <= t.id < 2 * n
    ensures |kind| == 2 * n && (t.id !in stops ==> kind[t.id] == EVEN)
  {
  }

  lemma FullHasDual(n: nat, blocked: seq<bool>, dual: seq<real>, j: int)
    requires |blocked| == 2 * n && |dual| == 2 * n
    ensures j in FullBlossoms(n, blocked, dual) ==> 0 <= j < 2 * n && dual[j] > 0.0
  {
  }

  lemma AllSize(s: seq<int>, n: nat)
    requires Distinct(s) && (forall x :: x in s ==> 0 <= x < n) && forall x :: 0 <= x < n ==> x in s
    ensures |s| == n
  {
    DistinctSize(s);
    RangeSize(n);
    assert Elements(s) == Upto(0, n);
  }

  /** An even number of vertices is not one odd set. */
  lemma OtherVertex(s: seq<int>, n: nat) returns (v: int)
    requires Distinct(s) && |s| % 2 == 1 && n % 2 == 0 && forall x :: x in s ==> 0 <= x < n
    ensures 0 <= v < n && v !in s
  {
    assert exists x :: 0 <= x < n && x !in s by {
      if forall x :: 0 <= x < n ==> x in s {
        AllSize(s, n);
      }
    }
    v :| 0 <= v < n && v !in s;
  }

  lemma {:induction false} RangeSize(n: nat)
    ensures |Upto(0, n)| == n
  {
    if n > 0 {
      RangeSize(n - 1);
      assert Upto(0, n) == Upto(0, n - 1) + {n - 1};
    } else {
      assert Upto(0, 0) == {};
    }
  }

  /** Outside an unmatched node there is another node that is not odd. */
  lemma OtherNode(family: set<Tree>, stops: set<int>, n: nat, active: seq<bool>, free: seq<int>, deep: seq<seq<int>>,
                  shallow: seq<seq<int>>, outer: seq<int>,
                  forest: seq<int>, kind: seq<int>, root: seq<int>, mate: seq<int>, slack: seq<real>,
                  r: Tree) returns (v: int)
    requires Whole(family, {}, n, active, free, deep, shallow, outer) && PartlyMatched(family, mate, slack, n)
    requires n % 2 == 0
    requires IsForest(family, stops, n, outer, forest, kind, root, mate, deep, slack) && r in family && |mate| == 2 * n
    requires |kind| == 2 * n
    requires 0 <= r.id < 2 * n && mate[r.id] == -1
    ensures 0 <= v < n && |outer| == 2 * n && 0 <= outer[v] < 2 * n && outer[v] != r.id && kind[outer[v]] != ODD
  {
    hide *;
    SortsDiffer();
    ForestParts(family, stops, n, outer, forest, kind, root, mate, deep, slack);
    WholeSizes(family, {}, n, active, free, deep, shallow, outer);
    TreeFacts(family, n, active, free, deep, shallow, outer, r);
    LeavesDistinct(r, n);
    v := OtherVertex(Leaves(r), n);
    DeepIffOuter(family, n, active, free, deep, shallow, outer, r, v);
    var s := VertexTree(family, n, active, free, deep, shallow, outer, v);
    if kind[s.id] == ODD {
      LabelFacts(family, n, outer, kind, root, mate, s);
      var q := MateBack(family, n, active, free, deep, shallow, outer, mate, slack, s);
      MateLabel(s.id, q.id, EVEN, n, outer, kind, mate);
      LeadsFacts(s.id, q.id, n, outer, mate);
      LeadsFacts(q.id, s.id, n, outer, mate);
      v := mate[s.id];
    }
  }

  /** So some edge bounds the step. */
  lemma SomeBound(family: set<Tree>, stops: set<int>, n: nat, active: seq<bool>, free: seq<int>, deep: seq<seq<int>>,
                  shallow: seq<seq<int>>, outer: seq<int>,
                  forest: seq<int>, kind: seq<int>, root: seq<int>, mate: seq<int>, slack: seq<real>, r: Tree)
    requires Whole(family, {}, n, active, free, deep, shallow, outer) && PartlyMatched(family, mate, slack, n)
    requires n % 2 == 0
    requires IsForest(family, stops, n, outer, forest, kind, root, mate, deep, slack) && r in family && |mate| == 2 * n
    requires |kind| == 2 * n
    requires 0 <= r.id < 2 * n && mate[r.id] == -1 && |outer| == 2 * n && |active| == 2 * n
    ensures !Unbounded(n, outer, active, kind)
  {
    var v := OtherNode(family, stops, n, active, free, deep, shallow, outer, forest, kind, root, mate, slack, r);
    var u := SomeLeaf(family, n, active, free, deep, shallow, outer, r);
    ForestParts(family, stops, n, outer, forest, kind, root, mate, deep, slack);
    LabelFacts(family, n, outer, kind, root, mate, r);
    LabelsAt(kind, n, outer[v]);
    hide Whole, PartlyMatched, IsForest, Labelling, Labels, EvensClimb, FreshAreEven;
    assert Category(u, v, n, outer, kind) != 0;
    CategoryBack(u, v, n, outer, kind);
    hide Category;
    var a, b := if u < v then u else v, if u < v then v else u;
    assert 0 <= a < b < n && Category(a, b, n, outer, kind) != 0;
  }

  /** The step after a search that leaves a node unmatched is positive. */
  lemma PositiveStep(family: set<Tree>, base: set<Tree>, stops: set<int>, n: nat, active: seq<bool>, free: seq<int>,
                     deep: seq<seq<int>>,
                     shallow: seq<seq<int>>, outer: seq<int>, forest: seq<int>, kind: seq<int>, root: seq<int>,
                     mate: seq<int>, slack: seq<real>,
                     blocked: seq<bool>, dual: seq<real>, e: real, r: Tree)
    requires Whole(family, {}, n, active, free, deep, shallow, outer)
    requires IsReady(family, base, stops, n, active, blocked, dual, mate, slack)
    requires IsForest(family, stops, n, outer, forest, kind, root, mate, deep, slack)
    requires PartlyMatched(family, mate, slack, n)
    requires |slack| == EdgeCount(n) && |outer| == 2 * n && |active| == 2 * n && |kind| == 2 * n && |dual| == 2 * n
    requires |mate| == 2 * n
    requires (forall u, v :: !Promising(u, v, n, outer, kind, slack)) && IsStep(e, n, outer, active, kind, slack, dual)
    requires n % 2 == 0 && r in family && 0 <= r.id < 2 * n && mate[r.id] == -1
    ensures e > 0.0
  {
    SomeBound(family, stops, n, active, free, deep, shallow, outer, forest, kind, root, mate, slack, r);
    ForestParts(family, stops, n, outer, forest, kind, root, mate, deep, slack);
    hide Whole, PartlyMatched, IsForest, IsReady, Labelling, Labels, EvensClimb, FreshAreEven, Promising, Category,
      SlackOf, EdgeCount, Unbounded;
    forall a, b | 0 <= a < b < n && Category(a, b, n, outer, kind) != 0
      ensures SlackOf(slack, n, a, b) > 0.0
    {
      BoundHasSlack(a, b, n, outer, kind, slack);
    }
    forall j | n <= j < 2 * n && active[j] && j == outer[j] && kind[j] == ODD
      ensures dual[j] > 0.0
    {
      OddHasDual(family, base, stops, n, active, free, deep, shallow, outer, kind, mate, slack, blocked, dual, j);
    }
  }

  // The sum of the duals ------------------------------------------------------------------------------------------

  /** An outermost node with the label. */
  predicate IsMarked(sort: int, j: int, outer: seq<int>, active: seq<bool>, kind: seq<int>) {
    0 <= j < |outer| && j < |active| && j < |kind| && j == outer[j] && active[j] && kind[j] == sort
  }

  /** The numbers of those below k. */
  ghost function Marked(sort: int, k: int, outer: seq<int>, active: seq<bool>, kind: seq<int>): set<int> {
    set j | 0 <= j < k && IsMarked(sort, j, outer, active, kind)
  }

  function TwiceChange(outer: seq<int>, active: seq<bool>, kind: seq<int>, e: real): int -> real {
    j => 2.0 * DualChange(j, outer, active, kind, e)
  }

  function Count(b: bool): int {
    if b then 1 else 0
  }

  lemma MarkedNext(sort: int, k: int, outer: seq<int>, active: seq<bool>, kind: seq<int>)
    requires 0 <= k
    ensures |Marked(sort, k + 1, outer, active, kind)| ==
      |Marked(sort, k, outer, active, kind)| + Count(IsMarked(sort, k, outer, active, kind))
  {
    hide IsMarked;
    if IsMarked(sort, k, outer, active, kind) {
      assert Marked(sort, k + 1, outer, active, kind) == Marked(sort, k, outer, active, kind) + {k};
    } else {
      assert Marked(sort, k + 1, outer, active, kind) == Marked(sort, k, outer, active, kind);
    }
  }

  /** Twice the step, k times. */
  function Steps(e: real, k: int): real {
    2.0 * e * (k as real)
  }

  lemma MoreSteps(e: real, x: int, d: int)
    ensures Steps(e, x) + Steps(e, d) == Steps(e, x + d) && Steps(e, 0) == 0.0
  {
    assert (x + d) as real == (x as real) + (d as real);
  }

  lemma {:induction false} ChangeSum(k: nat, outer: seq<int>, active: seq<bool>, kind: seq<int>, e: real)
    ensures Sum(TwiceChange(outer, active, kind, e), k) ==
      Steps(e, |Marked(EVEN, k, outer, active, kind)| - |Marked(ODD, k, outer, active, kind)|)
  {
    if k == 0 {
      assert Marked(EVEN, 0, outer, active, kind) == {} && Marked(ODD, 0, outer, active, kind) == {};
    } else {
      hide *;
      ChangeSum(k - 1, outer, active, kind, e);
      MarkedNext(EVEN, k - 1, outer, active, kind);
      MarkedNext(ODD, k - 1, outer, active, kind);
      ChangeTerm(k - 1, outer, active, kind, e);
      SumNext(TwiceChange(outer, active, kind, e), k);
      MoreSteps(e, |Marked(EVEN, k - 1, outer, active, kind)| - |Marked(ODD, k - 1, outer, active, kind)|,
        Count(IsMarked(EVEN, k - 1, outer, active, kind)) - Count(IsMarked(ODD, k - 1, outer, active, kind)));
    }
  }

  lemma SumNext(f: int -> real, k: nat)
    requires k > 0
    ensures Sum(f, k) == Sum(f, k - 1) + f(k - 1)
  {
  }

  lemma ChangeTerm(j: int, outer: seq<int>, active: seq<bool>, kind: seq<int>, e: real)
    ensures TwiceChange(outer, active, kind, e)(j) ==
      Steps(e, Count(IsMarked(EVEN, j, outer, active, kind)) - Count(IsMarked(ODD, j, outer, active, kind)))
  {
  }

  /** A set that another set has images of, all different, is no larger. */
  lemma {:induction false} ImagesFit(a: set<int>, b: set<int>, image: seq<int>)
    requires forall x :: x in a ==> 0 <= x < |image| && image[x] in b
    requires forall x, y :: x in a && y in a && image[x] == image[y] ==> x == y
    ensures |a| <= |b|
  {
    if a != {} {
      var x := AnyOf(a);
      ImagesFit(a - {x}, b - {image[x]}, image);
    }
  }

  /** The outermost nodes that the mates lead to. */
  function MateNodes(n: nat, outer: seq<int>, mate: seq<int>): seq<int>
    requires |outer| == 2 * n && |mate| == 2 * n
  {
    seq(2 * n, j requires 0 <= j < 2 * n => if 0 <= mate[j] < n then outer[mate[j]] else -1)
  }

  lemma NodeOf(family: set<Tree>, n: nat, active: seq<bool>, free: seq<int>, deep: seq<seq<int>>,
               shallow: seq<seq<int>>, outer: seq<int>, j: int)
    returns (t: Tree)
    requires Whole(family, {}, n, active, free, deep, shallow, outer) && 0 <= j < 2 * n && active[j] && outer[j] == j
    ensures t in family && t.id == j
  {
    if j < n {
      t := VertexTree(family, n, active, free, deep, shallow, outer, j);
    } else {
      t := OutermostTree(family, {}, n, active, free, deep, shallow, outer, j);
    }
  }

  /** The mate of an odd node is an even one, other than an unmatched one, and leads back. */
  lemma OddMate(family: set<Tree>, stops: set<int>, n: nat, active: seq<bool>, free: seq<int>, deep: seq<seq<int>>,
                shallow: seq<seq<int>>, outer: seq<int>,
                forest: seq<int>, kind: seq<int>, root: seq<int>, mate: seq<int>, slack: seq<real>, r: Tree, j: int)
    requires Whole(family, {}, n, active, free, deep, shallow, outer) && PartlyMatched(family, mate, slack, n)
    requires |active| == 2 * n
    requires IsForest(family, stops, n, outer, forest, kind, root, mate, deep, slack) && |mate| == 2 * n
    requires |kind| == 2 * n && |outer| == 2 * n
    requires r in family && 0 <= r.id < 2 * n && mate[r.id] == -1 && j in Marked(ODD, 2 * n, outer, active, kind)
    ensures 0 <= j < 2 * n && MateNodes(n, outer, mate)[j] in Marked(EVEN, 2 * n, outer, active, kind) - {r.id}
    ensures 0 <= MateNodes(n, outer, mate)[j] < 2 * n && MateNodes(n, outer, mate)[MateNodes(n, outer, mate)[j]] == j
  {
    hide *;
    SortsDiffer();
    ForestParts(family, stops, n, outer, forest, kind, root, mate, deep, slack);
    MarkedAt(ODD, n, outer, active, kind, j);
    var s := NodeOf(family, n, active, free, deep, shallow, outer, j);
    LabelFacts(family, n, outer, kind, root, mate, s);
    var q := MateBack(family, n, active, free, deep, shallow, outer, mate, slack,
      s) by { MateNotGone(s.id, EVEN, n, outer, kind, mate); }
    MateLabel(s.id, q.id, EVEN, n, outer, kind, mate);
    LeadsFacts(s.id, q.id, n, outer, mate);
    LeadsFacts(q.id, s.id, n, outer, mate);
    ActiveTree(family, n, active, free, deep, shallow, outer, q);
    MarkedAt(EVEN, n, outer, active, kind, q.id);
    MateNodeIs(n, outer, mate, j);
    MateNodeIs(n, outer, mate, q.id);
  }

  lemma MarkedAt(sort: int, n: nat, outer: seq<int>, active: seq<bool>, kind: seq<int>, j: int)
    requires |outer| == 2 * n && |active| == 2 * n && |kind| == 2 * n
    ensures j in Marked(sort, 2 * n, outer, active, kind) <==>
      0 <= j < 2 * n && j == outer[j] && active[j] && kind[j] == sort
  {
  }

  lemma MateNodeIs(n: nat, outer: seq<int>, mate: seq<int>, j: int)
    requires |outer| == 2 * n && |mate| == 2 * n && 0 <= j < 2 * n && 0 <= mate[j] < n
    ensures |MateNodes(n, outer, mate)| == 2 * n && MateNodes(n, outer, mate)[j] == outer[mate[j]]
  {
  }

  lemma MateNotGone(p: int, sort: int, n: nat, outer: seq<int>, kind: seq<int>, mate: seq<int>)
    requires MateIs(p, sort, n, outer, kind, mate)
    ensures 0 <= p < |mate| && mate[p] != -1
  {
  }

  /** There are more even nodes than odd ones. */
  lemma MoreEven(family: set<Tree>, stops: set<int>, n: nat, active: seq<bool>, free: seq<int>, deep: seq<seq<int>>,
                 shallow: seq<seq<int>>, outer: seq<int>,
                 forest: seq<int>, kind: seq<int>, root: seq<int>, mate: seq<int>, slack: seq<real>, r: Tree)
    requires Whole(family, {}, n, active, free, deep, shallow, outer) && PartlyMatched(family, mate, slack, n)
    requires |active| == 2 * n
    requires IsForest(family, stops, n, outer, forest, kind, root, mate, deep, slack) && |mate| == 2 * n
    requires |kind| == 2 * n && |outer| == 2 * n
    requires r in family && 0 <= r.id < 2 * n && mate[r.id] == -1
    ensures |Marked(EVEN, 2 * n, outer, active, kind)| > |Marked(ODD, 2 * n, outer, active, kind)|
  {
    ForestParts(family, stops, n, outer, forest, kind, root, mate, deep, slack);
    LabelFacts(family, n, outer, kind, root, mate, r);
    ActiveTree(family, n, active, free, deep, shallow, outer, r);
    var evens, odds, image := Marked(EVEN, 2 * n, outer, active, kind), Marked(ODD, 2 * n, outer, active,
      kind), MateNodes(n, outer, mate);
    assert r.id in evens;
    hide Whole, PartlyMatched, IsForest, Labelling, Labels, EvensClimb, FreshAreEven, MateNodes, Marked;
    forall j | j in odds
      ensures 0 <= j < 2 * n && image[j] in evens - {r.id} && 0 <= image[j] < 2 * n && image[image[j]] == j
    {
      OddMate(family, stops, n, active, free, deep, shallow, outer, forest, kind, root, mate, slack, r, j);
    }
    ImagesFit(odds, evens - {r.id}, image);
  }

  /** A step moves the sum of the duals up by at least itself. */
  lemma DualsGrow(family: set<Tree>, stops: set<int>, n: nat, active: seq<bool>, free: seq<int>, deep: seq<seq<int>>,
                  shallow: seq<seq<int>>, outer: seq<int>,
                  forest: seq<int>, kind: seq<int>, root: seq<int>, mate: seq<int>, slack: seq<real>, dual: seq<real>,
                  dual': seq<real>, e: real, r: Tree)
    requires Whole(family, {}, n, active, free, deep, shallow, outer) && PartlyMatched(family, mate, slack, n)
    requires |active| == 2 * n
    requires IsForest(family, stops, n, outer, forest, kind, root, mate, deep, slack) && |mate| == 2 * n
    requires |kind| == 2 * n && |outer| == 2 * n
    requires r in family && 0 <= r.id < 2 * n && mate[r.id] == -1 && |dual| == 2 * n && |dual'| == 2 * n && e >= 0.0
    requires forall j :: 0 <= j < 2 * n ==> dual'[j] == dual[j] + DualChange(j, outer, active, kind, e)
    ensures Sum(TwiceDuals(dual'), 2 * n) >= Sum(TwiceDuals(dual), 2 * n) + 2.0 * e
  {
    hide *;
    MoreEven(family, stops, n, active, free, deep, shallow, outer, forest, kind, root, mate, slack, r);
    ChangeSum(2 * n, outer, active, kind, e);
    TermsAdd(n, outer, active, kind, dual, dual', e);
    AtLeastOnce(e, |Marked(EVEN, 2 * n, outer, active, kind)| - |Marked(ODD, 2 * n, outer, active, kind)|);
  }

  lemma TermsAdd(n: nat, outer: seq<int>, active: seq<bool>, kind: seq<int>, dual: seq<real>, dual': seq<real>, e: real)
    requires |dual| == 2 * n && |dual'| == 2 * n
    requires forall j :: 0 <= j < 2 * n ==> dual'[j] == dual[j] + DualChange(j, outer, active, kind, e)
    ensures Sum(TwiceDuals(dual'), 2 * n) == Sum(TwiceDuals(dual), 2 * n) + Sum(TwiceChange(outer, active, kind, e),
      2 * n)
  {
    hide DualChange, Sum;
    SumPlus(TwiceDuals(dual), TwiceChange(outer, active, kind, e), TwiceDuals(dual'), 2 * n);
  }

  lemma AtLeastOnce(e: real, k: int)
    requires e >= 0.0 && k >= 1
    ensures Steps(e, k) >= 2.0 * e
  {
    assert e * ((k - 1) as real) >= 0.0;
    assert e * (k as real) == e * ((k - 1) as real) + e;
  }

  // The bound ----------------------------------------------------------------------------------------------------

  /** Each vertex with its neighbour: a perfect matching of an even number of vertices. */
  function Neighbours(n: nat): seq<int> {
    seq(n, i => if i % 2 == 0 then i + 1 else i - 1)
  }

  lemma NeighboursPerfect(n: nat)
    requires n % 2 == 0
    ensures IsPerfect(Neighbours(n), n)
  {
  }

  lemma DualActive(n: nat, active: seq<bool>, blocked: seq<bool>, dual: seq<real>, j: int)
    requires Blocking(n, active, blocked, dual) && n <= j < 2 * n && dual[j] > 0.0
    ensures |active| == 2 * n && active[j]
  {
  }

  lemma OddList(s: seq<int>, n: nat)
    requires Distinct(s) && |s| % 2 == 1 && forall y :: y in s ==> 0 <= y < n
    ensures IsOddSet(s, n)
  {
    forall i | 0 <= i < |s|
      ensures 0 <= s[i] < n
    {
      assert s[i] in s;
    }
  }

  /** The duals never exceed the cost of a perfect matching. */
  lemma DualsBounded(family: set<Tree>, n: nat, active: seq<bool>, free: seq<int>, deep: seq<seq<int>>,
                     shallow: seq<seq<int>>, outer: seq<int>,
                     blocked: seq<bool>, costs: seq<real>, slack: seq<real>, dual: seq<real>, partner: seq<int>)
    requires Whole(family, {}, n, active, free, deep, shallow, outer) && Certified(n, costs, slack, dual, deep)
    requires IsPerfect(partner, n)
    requires Blocking(n, active, blocked, dual) && |dual| == 2 * n
    ensures Sum(TwiceDuals(dual), 2 * n) <= TwiceCost(EdgeFunction(costs, n), partner)
  {
    VertexLists(family, n, active, free, deep, shallow, outer);
    WholeSizes(family, {}, n, active, free, deep, shallow, outer);
    forall j | n <= j < 2 * n && dual[j] > 0.0
      ensures IsOddSet(deep[j], n)
    {
      DualActive(n, active, blocked, dual, j);
      ActiveNode(family, n, active, free, deep, shallow, outer, j);
      OddList(deep[j], n);
    }
    hide Whole, Certified, Blocking, Certificate, Sum, TwiceCost, EdgeFunction;
    CertificateHolds(n, costs, slack, dual, deep);
    WeakDuality(n, EdgeFunction(costs, n), EdgeFunction(slack, n), dual, deep, partner);
  }
}
