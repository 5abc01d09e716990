/** Why the duals stay whole multiples of a unit: the slacks between even nodes are even. */
module DualParity {
  import opened EdgeIndex
  import opened BlossomTree
  import opened BlossomFamily
  import opened BlossomPartition
  import opened BlossomCircuit
  import opened BlossomExpand
  import opened BlossomDuals
  import opened BlossomRetrieve
  import opened MatchingStart
  import opened FreshBlossoms
  import opened AlternatingForest
  import opened ForestContraction
  import opened AugmentingPath
  import opened ForestGrowth
  import opened DualRounds
  import opened Units
  import opened Sums
  import opened Duality
  import opened SearchOrder
  import opened DualProgress

  /** Costs are even numbers of units, duals whole ones. */
  ghost predicate InUnits(n: nat, costs: seq<real>, slack: seq<real>, dual: seq<real>, deep: seq<seq<int>>,
                          unit: real) {
    Certified(n, costs, slack, dual, deep) && AllMultiple(costs, 2.0 * unit) && AllMultiple(dual, unit)
  }

  lemma Through(n: nat, costs: seq<real>, slack: seq<real>, dual: seq<real>, deep: seq<seq<int>>, unit: real, u: int,
                v: int, w: int)
    requires InUnits(n, costs, slack, dual, deep, unit) && Alike(u, v, slack, n, unit) && Alike(v, w, slack, n, unit)
    ensures Alike(u, w, slack, n, unit)
  {
    AlikeThrough(n, costs, slack, dual, deep, u, v, w, unit);
  }

  lemma TightAlike(n: nat, costs: seq<real>, slack: seq<real>, dual: seq<real>, deep: seq<seq<int>>, unit: real, u: int,
                   v: int)
    requires InUnits(n, costs, slack, dual, deep, unit) && Tight(slack, n, u, v)
    ensures Alike(u, v, slack, n, unit)
  {
    hide EdgeCount, Multiple, AllMultiple;
    SlackBack(slack, n, u, v);
    var a, b := if u < v then u else v, if u < v then v else u;
    assert SlackOf(slack, n, a, b) >= 0.0;
    MultipleZero(2.0 * unit);
  }

  // Inside a node ---------------------------------------------------------------------------------------------------

  lemma KidOf(t: Tree, n: nat, x: int) returns (i: int)
    requires Shape(t, n) && x in Leaves(t) && t.kids != []
    ensures 0 <= i < |t.kids| && x in Leaves(t.kids[i]) && Shape(t.kids[i], n)
  {
    LeafOfKid(t.kids, x);
    i :| 0 <= i < |t.kids| && x in Leaves(t.kids[i]);
    KidShape(t.kids, n, i);
  }

  lemma KidAt(t: Tree, slack: seq<real>, n: nat, i: int)
    requires Shape(t, n) && TightTree(t, slack, n) && 0 <= i < |t.kids|
    ensures Shape(t.kids[i], n) && TightTree(t.kids[i], slack, n)
  {
    KidShape(t.kids, n, i);
    KidTight(t.kids, slack, n, i);
  }

  lemma NextKid(t: Tree, slack: seq<real>, n: nat, i: int) returns (p: int, q: int)
    requires TightTree(t, slack, n) && 0 < i < |t.kids|
    ensures p in Leaves(t.kids[i - 1]) && q in Leaves(t.kids[i]) && Tight(slack, n, p, q)
  {
    hide Tight;
    assert After(i - 1, |t.kids|) == i && Linked(slack, n, Leaves(t.kids[i - 1]), Leaves(t.kids[i]));
    p, q :| p in Leaves(t.kids[i - 1]) && q in Leaves(t.kids[i]) && Tight(slack, n, p, q);
  }

  /** All vertices of a node are alike, because edges without slack connect them. */
  lemma {:induction false} TreeAlike(n: nat, costs: seq<real>, slack: seq<real>, dual: seq<real>, deep: seq<seq<int>>,
                                     unit: real, t: Tree, x: int, y: int)
    requires InUnits(n, costs, slack, dual, deep, unit) && Shape(t, n) && TightTree(t, slack, n) && x in Leaves(t)
    requires y in Leaves(t)
    ensures Alike(x, y, slack, n, unit)
    decreases t, |t.kids|
  {
    if t.kids == [] {
      SlackSize(n, costs, slack, dual, deep, unit);
      MakeAlike(x, y, slack, n, unit);
    } else {
      hide InUnits, Shape, TightTree, Leaves, Alike;
      var i := KidOf(t, n, x);
      var j := KidOf(t, n, y);
      KidAt(t, slack, n, 0);
      LeavesDistinct(t.kids[0], n);
      var z := Leaves(t.kids[0])[0];
      assert z in Leaves(t.kids[0]);
      FromFirst(n, costs, slack, dual, deep, unit, t, i, z, x);
      FromFirst(n, costs, slack, dual, deep, unit, t, j, z, y);
      AlikeBack(z, x, slack, n, unit);
      Through(n, costs, slack, dual, deep, unit, x, z, y);
    }
  }

  lemma SlackSize(n: nat, costs: seq<real>, slack: seq<real>, dual: seq<real>, deep: seq<seq<int>>, unit: real)
    requires InUnits(n, costs, slack, dual, deep, unit)
    ensures |slack| == EdgeCount(n)
  {
  }

  lemma {:induction false} FromFirst(n: nat, costs: seq<real>, slack: seq<real>, dual: seq<real>, deep: seq<seq<int>>,
                                     unit: real, t: Tree, i: int, x: int, y: int)
    requires InUnits(n, costs, slack, dual, deep, unit) && Shape(t, n) && TightTree(t, slack, n)
    requires 0 <= i < |t.kids| && x in Leaves(t.kids[0]) && y in Leaves(t.kids[i])
    ensures Alike(x, y, slack, n, unit)
    decreases t, i
  {
    hide InUnits, Shape, TightTree, Leaves, Alike, Tight;
    KidAt(t, slack, n, i);
    if i == 0 {
      TreeAlike(n, costs, slack, dual, deep, unit, t.kids[0], x, y);
    } else {
      var p, q := NextKid(t, slack, n, i);
      FromFirst(n, costs, slack, dual, deep, unit, t, i - 1, x, p);
      TightAlike(n, costs, slack, dual, deep, unit, p, q);
      Through(n, costs, slack, dual, deep, unit, x, p, q);
      TreeAlike(n, costs, slack, dual, deep, unit, t.kids[i], q, y);
      Through(n, costs, slack, dual, deep, unit, x, q, y);
    }
  }

  // Along a climb --------------------------------------------------------------------------------------------------

  lemma TightStep(path: seq<int>, deep: seq<seq<int>>, slack: seq<real>, n: nat, i: int) returns (p: int, q: int)
    requires PathTight(path, deep, slack, n) && 0 < i < |path|
    ensures 0 <= path[i - 1] < |deep| && 0 <= path[i] < |deep| && p in deep[path[i - 1]] && q in deep[path[i]]
    ensures Tight(slack, n, p, q)
  {
    hide Tight;
    assert Joined(deep, slack, n, path[i - 1], path[i - 1 + 1]);
    p, q :| p in deep[path[i - 1]] && q in deep[path[i]] && Tight(slack, n, p, q);
  }

  lemma NodeAlike(family: set<Tree>, n: nat, active: seq<bool>, free: seq<int>, deep: seq<seq<int>>,
                  shallow: seq<seq<int>>, outer: seq<int>,
                  costs: seq<real>, slack: seq<real>, dual: seq<real>, unit: real, w: int, x: int, y: int)
    requires Whole(family, {}, n, active, free, deep, shallow, outer) && InUnits(n, costs, slack, dual, deep, unit)
    requires TightFamily(family, slack, n)
    requires HasTree(family, w) && 0 <= w < |deep| && x in deep[w] && y in deep[w]
    ensures Alike(x, y, slack, n, unit)
  {
    hide *;
    var t := PickTree(family, w);
    TreeFacts(family, n, active, free, deep, shallow, outer, t);
    TightIn(family, slack, n, t);
    TreeAlike(n, costs, slack, dual, deep, unit, t, x, y);
  }

  lemma {:induction false} PathAlike(family: set<Tree>, n: nat, active: seq<bool>, free: seq<int>, deep: seq<seq<int>>,
                                     shallow: seq<seq<int>>, outer: seq<int>,
                                     costs: seq<real>, slack: seq<real>, dual: seq<real>, unit: real, path: seq<int>,
                                     i: int, x: int, y: int)
    requires Whole(family, {}, n, active, free, deep, shallow, outer) && InUnits(n, costs, slack, dual, deep, unit)
    requires TightFamily(family, slack, n)
    requires AllTrees(family, path) && PathTight(path, deep, slack, n) && 0 <= i < |path|
    requires 0 <= path[0] < |deep| && x in deep[path[0]] && 0 <= path[i] < |deep| && y in deep[path[i]]
    ensures Alike(x, y, slack, n, unit)
    decreases i
  {
    hide *;
    TreeOn(family, path, i);
    if i == 0 {
      NodeAlike(family, n, active, free, deep, shallow, outer, costs, slack, dual, unit, path[0], x, y);
    } else {
      var p, q := TightStep(path, deep, slack, n, i);
      PathAlike(family, n, active, free, deep, shallow, outer, costs, slack, dual, unit, path, i - 1, x, p);
      TightAlike(n, costs, slack, dual, deep, unit, p, q);
      Through(n, costs, slack, dual, deep, unit, x, p, q);
      NodeAlike(family, n, active, free, deep, shallow, outer, costs, slack, dual, unit, path[i], q, y);
      Through(n, costs, slack, dual, deep, unit, x, q, y);
    }
  }

  // From the unmatched nodes to the even ones -------------------------------------------------------------

  /** A vertex of a node that a reset would show unmatched. */
  ghost predicate Bare(x: int, base: set<Tree>, mate: seq<int>) {
    exists t :: t in Exposed(base, mate) && x in Leaves(t)
  }

  ghost predicate BareAlike(base: set<Tree>, mate: seq<int>, slack: seq<real>, n: nat, unit: real) {
    forall x, y :: Bare(x, base, mate) && Bare(y, base, mate) ==> Alike(x, y, slack, n, unit)
  }

  lemma FewerBare(base: set<Tree>, mate: seq<int>, mate': seq<int>, slack: seq<real>, n: nat, unit: real)
    requires BareAlike(base, mate, slack, n, unit) && Exposed(base, mate') <= Exposed(base, mate)
    ensures BareAlike(base, mate', slack, n, unit)
  {
    hide Exposed, Alike, Leaves;
    forall x, y | Bare(x, base, mate') && Bare(y, base, mate')
      ensures Alike(x, y, slack, n, unit)
    {
      assert Bare(x, base, mate) && Bare(y, base, mate);
    }
  }

  /** An unmatched node has a bare vertex. */
  lemma BareIn(family: set<Tree>, base: set<Tree>, stops: set<int>, n: nat, mate: seq<int>, slack: seq<real>,
               r: Tree) returns (z: int)
    requires Laminar(family, {}, n) && Good(family, stops, mate, slack, n) && KeptOf(family, stops) == base
    requires r in family && 0 <= r.id < |mate| && mate[r.id] == -1
    ensures z in Leaves(r) && Bare(z, base, mate)
  {
    hide *;
    FamilyShape(family, n, r);
    var k := GoodFacts(family, stops, mate, slack, n, r);
    PieceFacts(r, k, stops, mate, slack, n);
    KeptCovered(r, stops, n);
    InKeptOf(family, stops, r, k);
    LeavesDistinct(k, n);
    z := Leaves(k)[0];
    assert z in Leaves(k);
    KeptLeaf(r, stops, n, k, z);
    MakeBare(z, base, mate, k);
  }

  lemma MakeBare(z: int, base: set<Tree>, mate: seq<int>, k: Tree)
    requires k in base && 0 <= k.id < |mate| && mate[k.id] == -1 && z in Leaves(k)
    ensures Bare(z, base, mate)
  {
    hide Leaves;
    assert k in Exposed(base, mate);
  }

  lemma EvenParts(x: int, n: nat, outer: seq<int>, kind: seq<int>)
    requires IsEven(x, n, outer, kind)
    ensures 0 <= x < n <= |outer| && 0 <= outer[x] < |kind| && kind[outer[x]] == EVEN
  {
  }

  lemma MakeEven(x: int, n: nat, outer: seq<int>, kind: seq<int>)
    requires 0 <= x < n <= |outer| && 0 <= outer[x] < |kind| && kind[outer[x]] == EVEN
    ensures IsEven(x, n, outer, kind)
  {
  }

  /** A vertex of an even node is like some bare vertex. */
  lemma EvenToBare(family: set<Tree>, base: set<Tree>, stops: set<int>, n: nat, active: seq<bool>, free: seq<int>,
                   deep: seq<seq<int>>,
                   shallow: seq<seq<int>>, outer: seq<int>, forest: seq<int>, kind: seq<int>, root: seq<int>,
                   mate: seq<int>, slack: seq<real>,
                   blocked: seq<bool>, dual: seq<real>, costs: seq<real>, unit: real, x: int) returns (z: int)
    requires Whole(family, {}, n, active, free, deep, shallow, outer)
    requires IsReady(family, base, stops, n, active, blocked, dual, mate, slack)
    requires IsForest(family, stops, n, outer, forest, kind, root, mate, deep, slack)
    requires InUnits(n, costs, slack, dual, deep, unit)
    requires |outer| == 2 * n && IsEven(x, n, outer, kind)
    ensures Bare(z, base, mate) && Alike(x, z, slack, n, unit)
  {
    hide *;
    ReadyParts(family, base, stops, n, active, blocked, dual, mate, slack);
    ForestParts(family, stops, n, outer, forest, kind, root, mate, deep, slack);
    LaminarOf(family, n, active, free, deep, shallow, outer);
    WholeSizes(family, {}, n, active, free, deep, shallow, outer);
    EvenParts(x, n, outer, kind);
    var t := VertexTree(family, n, active, free, deep, shallow, outer, x);
    var path := ClimbOf(family, t, n, outer, forest, kind, root, mate, deep, slack);
    ClimbParts(path, t.id, n, outer, forest, kind, root, mate, deep, slack);
    HasTreeBy(family, t);
    ClimbTrees(family, n, active, free, deep, shallow, outer, forest, path);
    TreeOn(family, path, |path| - 1);
    var r := PickTree(family, path[|path| - 1]);
    TreeFacts(family, n, active, free, deep, shallow, outer, r);
    z := BareIn(family, base, stops, n, mate, slack, r);
    PathAlike(family, n, active, free, deep, shallow, outer, costs, slack, dual, unit, path, |path| - 1, x, z);
  }

  /** So the vertices of all even nodes are alike. */
  lemma EvensAlike(family: set<Tree>, base: set<Tree>, stops: set<int>, n: nat, active: seq<bool>, free: seq<int>,
                   deep: seq<seq<int>>,
                   shallow: seq<seq<int>>, outer: seq<int>, forest: seq<int>, kind: seq<int>, root: seq<int>,
                   mate: seq<int>, slack: seq<real>,
                   blocked: seq<bool>, dual: seq<real>, costs: seq<real>, unit: real, x: int, y: int)
    requires Whole(family, {}, n, active, free, deep, shallow, outer)
    requires IsReady(family, base, stops, n, active, blocked, dual, mate, slack)
    requires IsForest(family, stops, n, outer, forest, kind, root, mate, deep, slack)
    requires InUnits(n, costs, slack, dual, deep, unit)
    requires BareAlike(base, mate, slack, n, unit)
    requires |outer| == 2 * n && IsEven(x, n, outer, kind) && IsEven(y, n, outer, kind)
    ensures Alike(x, y, slack, n, unit)
  {
    hide *;
    var a := EvenToBare(family, base, stops, n, active, free, deep, shallow, outer, forest, kind, root, mate, slack,
      blocked, dual, costs, unit, x);
    var b := EvenToBare(family, base, stops, n, active, free, deep, shallow, outer, forest, kind, root, mate, slack,
      blocked, dual, costs, unit, y);
    BareAt(base, mate, slack, n, unit, a, b);
    AlikeBack(y, b, slack, n, unit);
    Through(n, costs, slack, dual, deep, unit, x, a, b);
    Through(n, costs, slack, dual, deep, unit, x, b, y);
  }

  lemma BareAt(base: set<Tree>, mate: seq<int>, slack: seq<real>, n: nat, unit: real, x: int, y: int)
    requires BareAlike(base, mate, slack, n, unit) && Bare(x, base, mate) && Bare(y, base, mate)
    ensures Alike(x, y, slack, n, unit)
  {
  }

  /** A vertex of an even node. */
  ghost predicate IsEven(x: int, n: nat, outer: seq<int>, kind: seq<int>) {
    0 <= x < n <= |outer| && 0 <= outer[x] < |kind| && kind[outer[x]] == EVEN
  }

  ghost predicate AllEvensAlike(n: nat, outer: seq<int>, kind: seq<int>, slack: seq<real>, unit: real) {
    |outer| == 2 * n &&
    forall x, y :: IsEven(x, n, outer, kind) && IsEven(y, n, outer, kind) ==> Alike(x, y, slack, n, unit)
  }

  lemma ForestAlike(family: set<Tree>, base: set<Tree>, stops: set<int>, n: nat, active: seq<bool>, free: seq<int>,
                    deep: seq<seq<int>>,
                    shallow: seq<seq<int>>, outer: seq<int>, forest: seq<int>, kind: seq<int>, root: seq<int>,
                    mate: seq<int>, slack: seq<real>,
                    blocked: seq<bool>, dual: seq<real>, costs: seq<real>, unit: real)
    requires Whole(family, {}, n, active, free, deep, shallow, outer)
    requires IsReady(family, base, stops, n, active, blocked, dual, mate, slack)
    requires IsForest(family, stops, n, outer, forest, kind, root, mate, deep, slack)
    requires InUnits(n, costs, slack, dual, deep, unit)
    requires BareAlike(base, mate, slack, n, unit) && |outer| == 2 * n
    ensures AllEvensAlike(n, outer, kind, slack, unit)
  {
    hide Whole, IsReady, IsForest, InUnits, BareAlike, Alike;
    forall x, y | IsEven(x, n, outer, kind) && IsEven(y, n, outer, kind)
      ensures Alike(x, y, slack, n, unit)
    {
      EvensAlike(family, base, stops, n, active, free, deep, shallow, outer, forest, kind, root, mate, slack, blocked,
        dual, costs, unit, x, y);
    }
  }

  // The step ----------------------------------------------------------------------------------------------------------

  lemma BothEven(a: int, b: int, n: nat, outer: seq<int>, kind: seq<int>)
    requires Category(a, b, n, outer, kind) == 2
    ensures |outer| == 2 * n && IsEven(a, n, outer, kind) && IsEven(b, n, outer, kind)
  {
  }

  lemma UnitSlack(n: nat, costs: seq<real>, slack: seq<real>, dual: seq<real>, deep: seq<seq<int>>, unit: real, a: int,
                  b: int)
    requires InUnits(n, costs, slack, dual, deep, unit) && 0 <= a < b < n
    ensures |slack| == EdgeCount(n) && Multiple(SlackOf(slack, n, a, b), unit)
  {
    SlackMultiple(n, costs, slack, dual, deep, a, b, unit);
  }

  lemma PairStepUnits(n: nat, outer: seq<int>, kind: seq<int>, slack: seq<real>, unit: real, a: int, b: int, e: real)
    requires AllEvensAlike(n, outer, kind, slack, unit) && 0 <= a < b < n && Category(a, b, n, outer, kind) == 2
    requires |slack| == EdgeCount(n) && 2.0 * e == SlackOf(slack, n, a, b)
    ensures Multiple(e, unit)
  {
    BothEven(a, b, n, outer, kind);
    hide Category, Multiple, SlackOf;
    assert Alike(a, b, slack, n, unit);
    MultipleTwice(e, unit);
  }

  /** The step is a whole number of units. */
  lemma StepUnits(n: nat, costs: seq<real>, slack: seq<real>, dual: seq<real>, deep: seq<seq<int>>, unit: real,
                  outer: seq<int>, active: seq<bool>, kind: seq<int>, e: real)
    requires InUnits(n, costs, slack, dual, deep, unit) && AllEvensAlike(n, outer, kind, slack, unit)
    requires |slack| == EdgeCount(n) && |outer| == 2 * n && |active| == 2 * n && |kind| == 2 * n && |dual| == 2 * n
    requires IsStep(e, n, outer, active, kind, slack, dual)
    ensures Multiple(e, unit)
  {
    assert AllMultiple(dual, unit);
    hide Multiple, Category, SlackOf, EdgeCount, InUnits, AllEvensAlike, Unbounded;
    if exists a, b :: 0 <= a < b < n && Category(a, b, n, outer, kind) == 1 && e == SlackOf(slack, n, a, b) {
      var a, b :| 0 <= a < b < n && Category(a, b, n, outer, kind) == 1 && e == SlackOf(slack, n, a, b);
      UnitSlack(n, costs, slack, dual, deep, unit, a, b);
    } else if exists a, b ::
        0 <= a < b < n && Category(a, b, n, outer, kind) == 2 && 2.0 * e == SlackOf(slack, n, a, b) {
      var a, b :| 0 <= a < b < n && Category(a, b, n, outer, kind) == 2 && 2.0 * e == SlackOf(slack, n, a, b);
      PairStepUnits(n, outer, kind, slack, unit, a, b, e);
    } else if exists j :: n <= j < 2 * n && active[j] && j == outer[j] && kind[j] == ODD && e == dual[j] {
      var j :| n <= j < 2 * n && active[j] && j == outer[j] && kind[j] == ODD && e == dual[j];
    } else {
      MultipleZero(unit);
    }
  }

  lemma DualsStayUnits(dual: seq<real>, dual': seq<real>, n: nat, outer: seq<int>, active: seq<bool>, kind: seq<int>,
                       e: real, unit: real)
    requires AllMultiple(dual, unit) && Multiple(e, unit) && |dual| == 2 * n && |dual'| == 2 * n
    requires forall j :: 0 <= j < 2 * n ==> dual'[j] == dual[j] + DualChange(j, outer, active, kind, e)
    ensures AllMultiple(dual', unit)
  {
    hide Multiple;
    forall j | 0 <= j < 2 * n
      ensures Multiple(dual'[j], unit)
    {
      assert dual'[j] == dual[j] || dual'[j] == dual[j] + e || dual'[j] == dual[j] - e;
      MultiplePlus(dual[j], e, unit);
    }
  }

  /** The edge between two even vertices keeps an even slack. */
  lemma EvenSlackMoves(x: int, y: int, n: nat, outer: seq<int>, kind: seq<int>, slack: seq<real>, slack': seq<real>,
                       e: real, unit: real)
    requires Alike(x, y, slack, n, unit) && AllMoved(n, outer, kind, slack, slack', e) && Multiple(e, unit)
    requires |slack'| == EdgeCount(n)
    requires |outer| == 2 * n && IsEven(x, n, outer, kind) && IsEven(y, n, outer, kind)
    ensures Alike(x, y, slack', n, unit)
  {
    hide EdgeCount, Multiple, SlackOf;
    if x != y {
      var a, b := if x < y then x else y, if x < y then y else x;
      SlackBack(slack, n, x, y);
      SlackBack(slack', n, x, y);
      EvenSlackChange(a, b, n, outer, kind, slack, slack', e);
      MultipleTwice(e, unit);
      MultiplePlus(SlackOf(slack, n, a, b), 2.0 * e, 2.0 * unit);
    }
  }

  lemma EvenSlackChange(a: int, b: int, n: nat, outer: seq<int>, kind: seq<int>, slack: seq<real>, slack': seq<real>,
                        e: real)
    requires 0 <= a < b < n && AllMoved(n, outer, kind, slack, slack', e) && IsEven(a, n, outer, kind)
    requires IsEven(b, n, outer, kind)
    ensures |slack| == EdgeCount(n) && |slack'| == EdgeCount(n)
    ensures SlackOf(slack', n, a, b) == SlackOf(slack, n, a, b) || SlackOf(slack', n, a, b) == SlackOf(slack, n, a,
      b) - 2.0 * e
  {
    hide EdgeCount, SlackOf;
    assert Moved(a, b, n, outer, kind, slack, slack', e);
    assert Sign(EVEN) == 1.0;
  }

  /** A bare vertex after the step was in an even node before it. */
  lemma BareWasEven(family0: set<Tree>, n: nat, active0: seq<bool>, free0: seq<int>, deep: seq<seq<int>>,
                    shallow0: seq<seq<int>>, outer0: seq<int>,
                    stops0: set<int>, forest: seq<int>, kind: seq<int>, root: seq<int>, mate0: seq<int>,
                    slack0: seq<real>,
                    family: set<Tree>, base: set<Tree>, stops: set<int>, mate: seq<int>, slack: seq<real>, x: int)
    requires Whole(family0, {}, n, active0, free0, deep, shallow0, outer0)
    requires IsForest(family0, stops0, n, outer0, forest, kind, root, mate0, deep, slack0)
    requires Laminar(family, {}, n) && Good(family, stops, mate, slack, n) && KeptOf(family, stops) == base
    requires FewerExposed(family0, mate0, family, mate, n) && Bare(x, base, mate)
    ensures |outer0| == 2 * n && IsEven(x, n, outer0, kind)
  {
    hide *;
    var k := BareNode(x, base, mate);
    var s := OwnerOf(family, stops, k);
    FamilyShape(family, n, s);
    ShapeId(s, n);
    KeptLeaf(s, stops, n, k, x);
    ExposedOwner(stops, mate, slack, n, family, s, k);
    StillExposed(family0, mate0, family, mate, n, s);
    ForestParts(family0, stops0, n, outer0, forest, kind, root, mate0, deep, slack0);
    LabelFacts(family0, n, outer0, kind, root, mate0, s);
    TreeFacts(family0, n, active0, free0, deep, shallow0, outer0, s);
    MakeEven(x, n, outer0, kind);
  }

  lemma BareNode(x: int, base: set<Tree>, mate: seq<int>) returns (k: Tree)
    requires Bare(x, base, mate)
    ensures k in base && 0 <= k.id < |mate| && mate[k.id] == -1 && x in Leaves(k)
  {
    k :| k in Exposed(base, mate) && x in Leaves(k);
  }

  /** An unmatched piece is the piece through which its node is unmatched. */
  lemma ExposedOwner(stops: set<int>, mate: seq<int>, slack: seq<real>, n: nat, family: set<Tree>, s: Tree, k: Tree)
    requires Good(family, stops, mate, slack, n) && s in family && k in Kept(s, stops) && 0 <= k.id < |mate|
    requires mate[k.id] == -1
    ensures 0 <= s.id < |mate| && mate[s.id] == -1
  {
    hide *;
    var p := GoodFacts(family, stops, mate, slack, n, s);
    PieceFacts(s, p, stops, mate, slack, n);
    if k != p {
      var r := MatchedHas(Kept(s, stops) - {p}, k, mate, slack, n);
      MutualLeaves(k, r, mate, slack, n);
    }
  }

  lemma StillExposed(family0: set<Tree>, mate0: seq<int>, family: set<Tree>, mate: seq<int>, n: nat, s: Tree)
    requires FewerExposed(family0, mate0, family, mate, n) && s in family && 0 <= s.id < 2 * n && mate[s.id] == -1
    ensures s in family0 && |mate0| == 2 * n && mate0[s.id] == -1
  {
  }

  /** After the step the bare vertices are alike again. */
  lemma BareAfterStep(family0: set<Tree>, n: nat, active0: seq<bool>, free0: seq<int>, deep: seq<seq<int>>,
                      shallow0: seq<seq<int>>, outer0: seq<int>,
                      stops0: set<int>, forest: seq<int>, kind: seq<int>, root: seq<int>, mate0: seq<int>,
                      slack0: seq<real>, e: real, unit: real,
                      family: set<Tree>, base: set<Tree>, stops: set<int>, mate: seq<int>, slack: seq<real>)
    requires Whole(family0, {}, n, active0, free0, deep, shallow0, outer0)
    requires IsForest(family0, stops0, n, outer0, forest, kind, root, mate0, deep, slack0)
    requires Laminar(family, {}, n) && Good(family, stops, mate, slack, n) && KeptOf(family, stops) == base
    requires FewerExposed(family0, mate0, family, mate, n) && AllEvensAlike(n, outer0, kind, slack0, unit)
    requires AllMoved(n, outer0, kind, slack0, slack, e) && Multiple(e, unit) && |slack| == EdgeCount(n)
    ensures BareAlike(base, mate, slack, n, unit)
  {
    hide Whole, IsForest, Laminar, Good, KeptOf, FewerExposed, AllMoved, Multiple, EdgeCount, Bare, Alike, IsEven;
    forall x, y | Bare(x, base, mate) && Bare(y, base, mate)
      ensures Alike(x, y, slack, n, unit)
    {
      BareWasEven(family0, n, active0, free0, deep, shallow0, outer0, stops0, forest, kind, root, mate0, slack0, family,
        base, stops, mate, slack, x);
      BareWasEven(family0, n, active0, free0, deep, shallow0, outer0, stops0, forest, kind, root, mate0, slack0, family,
        base, stops, mate, slack, y);
      assert Alike(x, y, slack0, n, unit);
      EvenSlackMoves(x, y, n, outer0, kind, slack0, slack, e, unit);
    }
  }

  // A whole round -----------------------------------------------------------------------------------------------------

  /** A round keeps everything in units, and moves the duals up by a unit unless every node is matched. */
  lemma RoundUnits(family0: set<Tree>, base0: set<Tree>, stops0: set<int>, n: nat, active0: seq<bool>, free0: seq<int>,
                   deep: seq<seq<int>>,
                   shallow0: seq<seq<int>>, outer0: seq<int>, forest: seq<int>, kind: seq<int>, root: seq<int>,
                   mate0: seq<int>, slack0: seq<real>,
                   blocked0: seq<bool>, dual0: seq<real>, costs: seq<real>, e: real, unit: real,
                   family: set<Tree>, base: set<Tree>, stops: set<int>, active: seq<bool>, blocked: seq<bool>,
                   dual: seq<real>, mate: seq<int>, slack: seq<real>)
    requires Whole(family0, {}, n, active0, free0, deep, shallow0, outer0)
    requires IsReady(family0, base0, stops0, n, active0, blocked0, dual0, mate0, slack0)
    requires IsForest(family0, stops0, n, outer0, forest, kind, root, mate0, deep, slack0)
    requires InUnits(n, costs, slack0, dual0, deep, unit)
    requires BareAlike(base0, mate0, slack0, n, unit) && (forall u, v :: !Promising(u, v, n, outer0, kind, slack0))
    requires |slack0| == EdgeCount(n) && |outer0| == 2 * n && |active0| == 2 * n && |kind| == 2 * n && |dual0| == 2 * n
    requires |mate0| == 2 * n
    requires |dual| == 2 * n && |slack| == EdgeCount(n) && n % 2 == 0 && unit > 0.0
    requires IsStep(e, n, outer0, active0, kind, slack0, dual0) && AllMoved(n, outer0, kind, slack0, slack, e)
    requires forall j :: 0 <= j < 2 * n ==> dual[j] == dual0[j] + DualChange(j, outer0, active0, kind, e)
    requires Laminar(family, {}, n) && IsReady(family, base, stops, n, active, blocked, dual, mate, slack)
    requires FewerExposed(family0, mate0, family, mate, n)
    ensures AllMultiple(dual, unit) && BareAlike(base, mate, slack, n, unit)
    ensures (exists r :: r in family0 && 0 <= r.id < 2 * n && mate0[r.id] == -1) ==>
      Sum(TwiceDuals(dual), 2 * n) >= Sum(TwiceDuals(dual0), 2 * n) + 2.0 * unit
  {
    hide *;
    ReadyParts(family0, base0, stops0, n, active0, blocked0, dual0, mate0, slack0);
    ReadyParts(family, base, stops, n, active, blocked, dual, mate, slack);
    LaminarOf(family0, n, active0, free0, deep, shallow0, outer0);
    GoodIsPartly(family0, stops0, mate0, slack0, n);
    ForestAlike(family0, base0, stops0, n, active0, free0, deep, shallow0, outer0, forest, kind, root, mate0, slack0,
      blocked0, dual0, costs, unit);
    StepUnits(n, costs, slack0, dual0, deep, unit, outer0, active0, kind, e);
    UnitParts(n, costs, slack0, dual0, deep, unit);
    DualsStayUnits(dual0, dual, n, outer0, active0, kind, e, unit);
    BareAfterStep(family0, n, active0, free0, deep, shallow0, outer0, stops0, forest, kind, root, mate0, slack0, e,
      unit, family, base, stops, mate, slack);
    if r :| r in family0 && 0 <= r.id < 2 * n && mate0[r.id] == -1 {
      PositiveStep(family0, base0, stops0, n, active0, free0, deep, shallow0, outer0, forest, kind, root, mate0, slack0,
        blocked0, dual0, e, r);
      MultipleLeast(e, unit);
      DualsGrow(family0, stops0, n, active0, free0, deep, shallow0, outer0, forest, kind, root, mate0, slack0, dual0,
        dual, e, r);
    }
  }

  lemma UnitParts(n: nat, costs: seq<real>, slack: seq<real>, dual: seq<real>, deep: seq<seq<int>>, unit: real)
    requires InUnits(n, costs, slack, dual, deep, unit)
    ensures Certified(n, costs, slack, dual, deep) && AllMultiple(costs, 2.0 * unit) && AllMultiple(dual, unit)
  {
  }

  lemma MakeUnits(n: nat, costs: seq<real>, slack: seq<real>, dual: seq<real>, deep: seq<seq<int>>, unit: real)
    requires Certified(n, costs, slack, dual, deep) && AllMultiple(costs, 2.0 * unit) && AllMultiple(dual, unit)
    ensures InUnits(n, costs, slack, dual, deep, unit)
  {
  }

  lemma MatchedStay(base: set<Tree>, mate: seq<int>, mate': seq<int>)
    requires |mate'| == |mate| && forall i :: 0 <= i < |mate| && mate[i] != -1 ==> mate'[i] == mate[i]
    ensures Exposed(base, mate') <= Exposed(base, mate)
  {
  }

  lemma AllMovedBy(n: nat, outer: seq<int>, kind: seq<int>, slack: seq<real>, slack': seq<real>, e: real)
    requires forall u, v :: 0 <= u < v < n ==> Moved(u, v, n, outer, kind, slack, slack', e)
    ensures AllMoved(n, outer, kind, slack, slack', e)
  {
  }

  /** Lowering by a multiple keeps multiples. */
  lemma LoweredMultiple(costs: seq<real>, slack: seq<real>, shift: real, unit: real)
    requires Lowered(costs, slack, shift) && IsShift(shift, costs) && AllMultiple(costs, unit)
    ensures AllMultiple(slack, unit)
  {
    MultipleZero(unit);
    hide Multiple;
    assert Multiple(shift, unit);
    forall i | 0 <= i < |slack|
      ensures Multiple(slack[i], unit)
    {
      MultiplePlus(costs[i], shift, unit);
    }
  }

  // The rounds left --------------------------------------------------------------------------------------------------

  /** How many rounds of two units the duals can still grow. */
  ghost function RoundsLeft(bound: real, total: real, unit: real): int
    requires unit > 0.0
  {
    ((bound - total) / unit).Floor
  }

  lemma RoundsShrink(bound: real, total: real, total': real, unit: real)
    requires unit > 0.0 && total' >= total + 2.0 * unit && total' <= bound
    ensures 0 <= RoundsLeft(bound, total', unit) < RoundsLeft(bound, total, unit)
  {
    var x, y := (bound - total) / unit, (bound - total') / unit;
    assert x * unit == bound - total && y * unit == bound - total';
    Apart(x, y, unit, bound - total, bound - total');
    NotNegative(y, unit);
  }

  lemma Apart(x: real, y: real, unit: real, a: real, b: real)
    requires unit > 0.0 && x * unit == a && y * unit == b && a >= b + 2.0 * unit
    ensures x >= y + 2.0
  {
    assert (x - y - 2.0) * unit == x * unit - y * unit - 2.0 * unit;
    NotNegative(x - y - 2.0, unit);
  }

  lemma NotNegative(z: real, unit: real)
    requires unit > 0.0 && z * unit >= 0.0
    ensures z >= 0.0
  {
  }

  /** At the start all slacks are even numbers of units. */
  lemma StartUnits(n: nat, base: set<Tree>, mate: seq<int>, slack: seq<real>, dual: seq<real>, unit: real)
    requires Laminar(base, {}, n) && |slack| == EdgeCount(n) && AllMultiple(slack, 2.0 * unit)
    requires forall j :: 0 <= j < |dual| ==> dual[j] == 0.0
    ensures BareAlike(base, mate, slack, n, unit) && AllMultiple(dual, unit)
  {
    MultipleZero(unit);
    hide Multiple, EdgeCount, Laminar;
    forall x, y | Bare(x, base, mate) && Bare(y, base, mate)
      ensures Alike(x, y, slack, n, unit)
    {
      var s := BareNode(x, base, mate);
      var t := BareNode(y, base, mate);
      FamilyShape(base, n, s);
      FamilyShape(base, n, t);
      LeavesInArray(s, n);
      LeavesInArray(t, n);
      if x != y {
        IndexInRange(n, x, y);
      }
    }
  }
}
