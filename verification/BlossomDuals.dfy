/** How a dual step moves duals and slacks together. */
module BlossomDuals {
  import opened Sums
  import opened Duality
  import opened EdgeIndex
  import opened BlossomTree
  import opened BlossomFamily
  import opened BlossomPartition
  import opened BlossomCircuit

  /** +1 for an even node, -1 for an odd one, 0 for one without a label. */
  function Sign(kind: int): real {
    if kind == EVEN then 1.0 else if kind == ODD then -1.0 else 0.0
  }

  /** How the dual of number j changes. */
  function DualChange(j: int, outer: seq<int>, active: seq<bool>, kind: seq<int>, e: real): real {
    if 0 <= j < |outer| && j < |active| && j < |kind| && j == outer[j] && active[j] then Sign(kind[j]) * e else 0.0
  }

  /** How the slack of the edge u - v changes. */
  function SlackChange(u: int, v: int, outer: seq<int>, kind: seq<int>, e: real): real
    requires 0 <= u < |outer| && 0 <= v < |outer| && 0 <= outer[u] < |kind| && 0 <= outer[v] < |kind|
  {
    if outer[u] == outer[v] then 0.0 else -(Sign(kind[outer[u]]) * e + Sign(kind[outer[v]]) * e)
  }

  /** The slack of every edge is its cost less the duals of the sets that separate its ends, and is not
      negative; nor are the duals of blossoms. */
  ghost predicate Certified(n: nat, costs: seq<real>, slack: seq<real>, dual: seq<real>, deep: seq<seq<int>>) {
    && |costs| == EdgeCount(n) && |slack| == EdgeCount(n) && |dual| == 2 * n && |deep| == 2 * n
    && (forall u, v :: 0 <= u < v < n ==> SlackOf(slack, n, u, v) >= 0.0)
    && (forall u, v :: 0 <= u < v < n ==>
          SlackOf(slack, n, u, v) == SlackOf(costs, n, u, v) - DualSum(dual, deep, u, v))
    && (forall j :: n <= j < 2 * n ==> dual[j] >= 0.0)
  }

  /** Every label is one of the three. */
  ghost predicate Labels(kind: seq<int>, n: nat) {
    |kind| == 2 * n && forall j :: 0 <= j < 2 * n ==> kind[j] == EVEN || kind[j] == ODD || kind[j] == UNLABELED
  }

  /** An edge that bounds the step: it may lose e or 2e. */
  ghost predicate Bounds(u: int, v: int, outer: seq<int>, kind: seq<int>)
    requires 0 <= u < |outer| && 0 <= v < |outer| && 0 <= outer[u] < |kind| && 0 <= outer[v] < |kind|
  {
    (kind[outer[u]] == EVEN && kind[outer[v]] == UNLABELED) ||
      (kind[outer[v]] == EVEN && kind[outer[u]] == UNLABELED) ||
    (outer[u] != outer[v] && kind[outer[u]] == EVEN && kind[outer[v]] == EVEN)
  }

  /** The share of one number in the change of the dual sum. */
  function ChangeAt(u: int, v: int, deep: seq<seq<int>>, outer: seq<int>, active: seq<bool>, kind: seq<int>,
                    e: real): int -> real {
    j => if 0 <= j < |deep| && Separates(deep[j], u, v) then DualChange(j, outer, active, kind, e) else 0.0
  }

  /** Only the two outermost nodes of the ends change the dual sum of an edge. */
  lemma DualSumChange(family: set<Tree>, n: nat, active: seq<bool>, free: seq<int>, deep: seq<seq<int>>,
                      shallow: seq<seq<int>>, outer: seq<int>,
                      kind: seq<int>, dual: seq<real>, dual': seq<real>, e: real, u: int, v: int)
    requires Whole(family, {}, n, active, free, deep, shallow, outer) && |kind| == 2 * n && |dual| == 2 * n
    requires |dual'| == 2 * n
    requires forall j :: 0 <= j < 2 * n ==> dual'[j] == dual[j] + DualChange(j, outer, active, kind, e)
    requires 0 <= u < n && 0 <= v < n && u != v
    ensures 0 <= outer[u] < 2 * n && 0 <= outer[v] < 2 * n
    ensures DualSum(dual', deep, u, v) == DualSum(dual, deep, u, v) - SlackChange(u, v, outer, kind, e)
  {
    hide Whole, DualChange, Separates, SlackChange, Sum, DualSum;
    var change := ChangeAt(u, v, deep, outer, active, kind, e);
    var s := VertexTree(family, n, active, free, deep, shallow, outer, u);
    var t := VertexTree(family, n, active, free, deep, shallow, outer, v);
    WholeSizes(family, {}, n, active, free, deep, shallow, outer);
    ChangeOutermost(outer, active, kind, e, outer[u], n);
    ChangeOutermost(outer, active, kind, e, outer[v], n);
    forall j | 0 <= j < 2 * n
      ensures change(j) == if (outer[u] == j) != (outer[v] == j) then DualChange(j, outer, active, kind, e) else 0.0
    {
      SeparatesOutermost(family, n, active, free, deep, shallow, outer, kind, e, u, v, j);
    }
    hide *;
    ChangeTotal(change, outer[u], outer[v], DualChange(outer[u], outer, active, kind, e),
      DualChange(outer[v], outer, active, kind, e), 2 * n);
    DualSumPlus(n, deep, dual, dual', outer, active, kind, e, u, v);
    SlackChangeIs(u, v, outer, kind, e);
  }

  lemma SlackChangeIs(u: int, v: int, outer: seq<int>, kind: seq<int>, e: real)
    requires 0 <= u < |outer| && 0 <= v < |outer| && 0 <= outer[u] < |kind| && 0 <= outer[v] < |kind|
    ensures SlackChange(u, v, outer, kind, e) ==
      if outer[u] == outer[v] then 0.0 else -(Sign(kind[outer[u]]) * e + Sign(kind[outer[v]]) * e)
  {
  }

  lemma ChangeTotal(change: int -> real, p: int, q: int, x: real, y: real, k: nat)
    requires 0 <= p < k && 0 <= q < k
    requires forall j :: 0 <= j < k && j != p && j != q ==> change(j) == 0.0
    requires if p == q then change(p) == 0.0 else change(p) == x && change(q) == y
    ensures Sum(change, k) == if p == q then 0.0 else x + y
  {
    if p == q {
      SumConstant(change, 0.0, k);
    } else {
      SumPair(change, p, q, k);
    }
  }

  lemma DualSumPlus(n: nat, deep: seq<seq<int>>, dual: seq<real>, dual': seq<real>, outer: seq<int>, active: seq<bool>,
                    kind: seq<int>, e: real, u: int, v: int)
    requires |dual| == 2 * n && |dual'| == 2 * n && |deep| == 2 * n
    requires forall j :: 0 <= j < 2 * n ==> dual'[j] == dual[j] + DualChange(j, outer, active, kind, e)
    ensures DualSum(dual', deep, u, v) == DualSum(dual, deep, u, v) + Sum(ChangeAt(u, v, deep, outer, active, kind, e),
      2 * n)
  {
    hide DualChange, Separates, Sum;
    SumPlus(Shares(dual, deep, u, v), ChangeAt(u, v, deep, outer, active, kind, e), Shares(dual', deep, u, v), 2 * n);
  }

  lemma ChangeOutermost(outer: seq<int>, active: seq<bool>, kind: seq<int>, e: real, r: int, n: nat)
    requires |outer| == 2 * n && |active| == 2 * n && |kind| == 2 * n && 0 <= r < 2 * n && outer[r] == r && active[r]
    ensures DualChange(r, outer, active, kind, e) == Sign(kind[r]) * e
  {
  }

  lemma SeparatesOutermost(family: set<Tree>, n: nat, active: seq<bool>, free: seq<int>, deep: seq<seq<int>>,
                           shallow: seq<seq<int>>, outer: seq<int>,
                           kind: seq<int>, e: real, u: int, v: int, j: int)
    requires Whole(family, {}, n, active, free, deep, shallow, outer) && |kind| == 2 * n
    requires 0 <= u < n && 0 <= v < n && 0 <= j < 2 * n
    ensures ChangeAt(u, v, deep, outer, active, kind, e)(j) ==
      if (outer[u] == j) != (outer[v] == j) then DualChange(j, outer, active, kind, e) else 0.0
  {
    if active[j] && outer[j] == j {
      DeepPartition(family, n, active, free, deep, shallow, outer, u, j);
      DeepPartition(family, n, active, free, deep, shallow, outer, v, j);
    }
  }

  /** A step that no edge and no odd blossom forbids keeps the certificate. */
  lemma StepKeepsCertificate(family: set<Tree>, n: nat, active: seq<bool>, free: seq<int>, deep: seq<seq<int>>,
                             shallow: seq<seq<int>>, outer: seq<int>,
                             kind: seq<int>, costs: seq<real>, slack: seq<real>, slack': seq<real>, dual: seq<real>,
                             dual': seq<real>, e: real)
    requires Whole(family, {}, n, active, free, deep, shallow, outer) && Labels(kind, n) && e >= 0.0
    requires Certified(n, costs, slack, dual, deep) && |slack'| == EdgeCount(n) && |dual'| == 2 * n
    requires forall j :: 0 <= j < 2 * n ==> dual'[j] == dual[j] + DualChange(j, outer, active, kind, e)
    requires forall u, v :: 0 <= u < v < n ==>
      Allowed(u, v, n, outer, kind, slack, e) && Moved(u, v, n, outer, kind, slack, slack', e)
    requires forall j :: n <= j < 2 * n && active[j] && j == outer[j] && kind[j] == ODD ==> e <= dual[j]
    ensures Certified(n, costs, slack', dual', deep)
  {
    hide Whole, EdgeCount;
    forall u, v | 0 <= u < v < n
      ensures SlackOf(slack', n, u, v) >= 0.0
      ensures SlackOf(slack', n, u, v) == SlackOf(costs, n, u, v) - DualSum(dual', deep, u, v)
    {
      DualSumChange(family, n, active, free, deep, shallow, outer, kind, dual, dual', e, u, v);
      assert Allowed(u, v, n, outer, kind, slack, e) && Moved(u, v, n, outer, kind, slack, slack', e);
    }
    WholeSizes(family, {}, n, active, free, deep, shallow, outer);
    DualsStay(n, active, outer, kind, costs, slack, dual, dual', deep, e);
  }

  lemma DualsStay(n: nat, active: seq<bool>, outer: seq<int>, kind: seq<int>, costs: seq<real>, slack: seq<real>,
                  dual: seq<real>, dual': seq<real>,
                  deep: seq<seq<int>>, e: real)
    requires Certified(n, costs, slack, dual, deep) && |dual'| == 2 * n && |active| == 2 * n && |outer| == 2 * n
    requires |kind| == 2 * n && e >= 0.0
    requires forall j :: 0 <= j < 2 * n ==> dual'[j] == dual[j] + DualChange(j, outer, active, kind, e)
    requires forall j :: n <= j < 2 * n && active[j] && j == outer[j] && kind[j] == ODD ==> e <= dual[j]
    ensures forall j :: n <= j < 2 * n ==> dual'[j] >= 0.0
  {
  }

  /** The step leaves the slack of the edge non-negative. */
  ghost predicate Allowed(u: int, v: int, n: nat, outer: seq<int>, kind: seq<int>, slack: seq<real>, e: real) {
    && |outer| == 2 * n && |kind| == 2 * n && |slack| == EdgeCount(n) && 0 <= u < v < n
    && 0 <= outer[u] < 2 * n && 0 <= outer[v] < 2 * n
    && (Bounds(u, v, outer, kind) ==> SlackOf(slack, n, u, v) + SlackChange(u, v, outer, kind, e) >= 0.0)
  }

  /** The slack of the edge after the step. */
  ghost predicate Moved(u: int, v: int, n: nat, outer: seq<int>, kind: seq<int>, slack: seq<real>, slack': seq<real>,
                        e: real) {
    && |outer| == 2 * n && |kind| == 2 * n && |slack| == EdgeCount(n) && |slack'| == EdgeCount(n) && 0 <= u < v < n
    && 0 <= outer[u] < 2 * n && 0 <= outer[v] < 2 * n
    && SlackOf(slack', n, u, v) == SlackOf(slack, n, u, v) + SlackChange(u, v, outer, kind, e)
  }

  // The size of the step -----------------------------------------------------------------------------------

  /** What kind of bound the edge a - b puts on the step: 1 for e <= slack, 2 for 2e <= slack, 0 for none. */
  function Category(a: int, b: int, n: nat, outer: seq<int>, kind: seq<int>): int {
    if !(0 <= a < n && 0 <= b < n && |outer| == 2 * n && |kind| == 2 * n && 0 <= outer[a] < 2 * n &&
      0 <= outer[b] < 2 * n) then 0
    else if (kind[outer[a]] == EVEN && kind[outer[b]] == UNLABELED) ||
      (kind[outer[b]] == EVEN && kind[outer[a]] == UNLABELED) then 1
    else if outer[a] != outer[b] && kind[outer[a]] == EVEN && kind[outer[b]] == EVEN then 2
    else 0
  }

  /** The pairs before row u and, in row u, before v. */
  ghost predicate Scanned(a: int, b: int, u: int, v: int, n: nat) {
    0 <= a < b < n && (a < u || (a == u && b < v))
  }

  /** x is the least slack of the scanned edges of one category, if there is any. */
  ghost predicate LeastSlack(category: int, u: int, v: int, n: nat, outer: seq<int>, kind: seq<int>, slack: seq<real>,
                             init: bool, x: real)
    requires |slack| == EdgeCount(n)
  {
    && (forall a, b :: Scanned(a, b, u, v, n) && Category(a, b, n, outer, kind) == category ==>
          init && x <= SlackOf(slack, n, a, b))
    && (init ==> exists a, b ::
          Scanned(a, b, u, v, n) && Category(a, b, n, outer, kind) == category && x == SlackOf(slack, n, a, b))
  }

  lemma LeastSlackNext(category: int, u: int, v: int, n: nat, outer: seq<int>, kind: seq<int>, slack: seq<real>,
                       init: bool, x: real)
    requires |slack| == EdgeCount(n) && 0 <= u < v < n && LeastSlack(category, u, v, n, outer, kind, slack, init, x)
    ensures Category(u, v, n, outer, kind) != category ==>
      LeastSlack(category, u, v + 1, n, outer, kind, slack, init, x)
    ensures Category(u, v, n, outer, kind) == category && (!init || x > SlackOf(slack, n, u, v)) ==>
      LeastSlack(category, u, v + 1, n, outer, kind, slack, true, SlackOf(slack, n, u, v))
    ensures Category(u, v, n, outer, kind) == category && !(!init || x > SlackOf(slack, n, u, v)) ==>
      LeastSlack(category, u, v + 1, n, outer, kind, slack, init, x)
  {
    hide Category, SlackOf, EdgeCount;
    assert Scanned(u, v, u, v + 1, n);
    if init {
      var a, b :| Scanned(a, b, u, v, n) && Category(a, b, n, outer, kind) == category && x == SlackOf(slack, n, a, b);
      assert Scanned(a, b, u, v + 1, n);
    }
  }

  lemma LeastSlackRow(category: int, u: int, n: nat, outer: seq<int>, kind: seq<int>, slack: seq<real>, init: bool,
                      x: real)
    requires |slack| == EdgeCount(n) && 0 <= u < n && LeastSlack(category, u, n, n, outer, kind, slack, init, x)
    ensures LeastSlack(category, u + 1, u + 2, n, outer, kind, slack, init, x)
  {
    hide Category, SlackOf, EdgeCount;
    if init {
      var a, b :| Scanned(a, b, u, n, n) && Category(a, b, n, outer, kind) == category && x == SlackOf(slack, n, a, b);
      assert Scanned(a, b, u + 1, u + 2, n);
    }
  }

  lemma LeastSlackStart(category: int, n: nat, outer: seq<int>, kind: seq<int>, slack: seq<real>, x: real)
    requires |slack| == EdgeCount(n)
    ensures LeastSlack(category, 0, 1, n, outer, kind, slack, false, x)
  {
  }

  /** x is the least dual of the odd outermost blossoms before i, if there is any. */
  ghost predicate LeastDual(i: int, n: nat, outer: seq<int>, active: seq<bool>, kind: seq<int>, dual: seq<real>,
                            init: bool, x: real)
    requires |outer| == 2 * n && |active| == 2 * n && |kind| == 2 * n && |dual| == 2 * n
  {
    && (forall j :: n <= j < i && j < 2 * n && active[j] && j == outer[j] && kind[j] == ODD ==> init && x <= dual[j])
    && (init ==> exists j :: n <= j < i && j < 2 * n && active[j] && j == outer[j] && kind[j] == ODD && x == dual[j])
  }

  /** No edge and no odd blossom bounds the step. */
  ghost predicate Unbounded(n: nat, outer: seq<int>, active: seq<bool>, kind: seq<int>)
    requires |outer| == 2 * n && |active| == 2 * n && |kind| == 2 * n
  {
    && (forall a, b :: 0 <= a < b < n ==> Category(a, b, n, outer, kind) == 0)
    && (forall j :: n <= j < 2 * n ==> !(active[j] && j == outer[j] && kind[j] == ODD))
  }

  /** The step respects every bound, and meets one of them; without any bound it is zero. */
  ghost predicate IsStep(e: real, n: nat, outer: seq<int>, active: seq<bool>, kind: seq<int>, slack: seq<real>,
                         dual: seq<real>)
    requires |slack| == EdgeCount(n) && |outer| == 2 * n && |active| == 2 * n && |kind| == 2 * n && |dual| == 2 * n
  {
    && e >= 0.0
    && (forall a, b :: 0 <= a < b < n && Category(a, b, n, outer, kind) == 1 ==> e <= SlackOf(slack, n, a, b))
    && (forall a, b :: 0 <= a < b < n && Category(a, b, n, outer, kind) == 2 ==> 2.0 * e <= SlackOf(slack, n, a, b))
    && (forall j :: n <= j < 2 * n && active[j] && j == outer[j] && kind[j] == ODD ==> e <= dual[j])
    && ((e == 0.0 && Unbounded(n, outer, active, kind))
        || (exists a, b :: 0 <= a < b < n && Category(a, b, n, outer, kind) == 1 && e == SlackOf(slack, n, a, b))
        || (exists a, b :: 0 <= a < b < n && Category(a, b, n, outer, kind) == 2 && 2.0 * e == SlackOf(slack, n, a, b))
        || (exists j :: n <= j < 2 * n && active[j] && j == outer[j] && kind[j] == ODD && e == dual[j]))
  }

  /** The least of the three bounds, as the source takes it. */
  function StepOf(init1: bool, e1: real, init2: bool, e2: real, init3: bool, e3: real): real {
    var e := if init1 then e1 else if init2 then e2 else if init3 then e3 else 0.0;
    var f := if init2 && e > e2 / 2.0 then e2 / 2.0 else e;
    if init3 && f > e3 then e3 else f
  }

  lemma NoBounds(n: nat, outer: seq<int>, active: seq<bool>, kind: seq<int>, slack: seq<real>, dual: seq<real>,
                 e1: real, e2: real, e3: real)
    requires |slack| == EdgeCount(n) && |outer| == 2 * n && |active| == 2 * n && |kind| == 2 * n && |dual| == 2 * n
    requires LeastSlack(1, n, n + 1, n, outer, kind, slack, false, e1)
    requires LeastSlack(2, n, n + 1, n, outer, kind, slack, false, e2)
    requires LeastDual(2 * n, n, outer, active, kind, dual, false, e3)
    ensures Unbounded(n, outer, active, kind)
  {
    forall a, b | 0 <= a < b < n
      ensures Category(a, b, n, outer, kind) == 0
    {
      assert Scanned(a, b, n, n + 1, n);
    }
  }

  lemma StepIsStep(n: nat, outer: seq<int>, active: seq<bool>, kind: seq<int>, slack: seq<real>, dual: seq<real>,
                   init1: bool, e1: real, init2: bool, e2: real, init3: bool, e3: real)
    requires |slack| == EdgeCount(n) && |outer| == 2 * n && |active| == 2 * n && |kind| == 2 * n && |dual| == 2 * n
    requires LeastSlack(1, n, n + 1, n, outer, kind, slack, init1, e1)
    requires LeastSlack(2, n, n + 1, n, outer, kind, slack, init2, e2)
    requires LeastDual(2 * n, n, outer, active, kind, dual, init3, e3)
    requires forall a, b :: 0 <= a < b < n ==> SlackOf(slack, n, a, b) >= 0.0
    requires forall j :: n <= j < 2 * n ==> dual[j] >= 0.0
    ensures IsStep(StepOf(init1, e1, init2, e2, init3, e3), n, outer, active, kind, slack, dual)
  {
    hide Category, SlackOf, EdgeCount;
    var e := StepOf(init1, e1, init2, e2, init3, e3);
    forall a, b | 0 <= a < b < n && Category(a, b, n, outer, kind) == 1
      ensures e <= SlackOf(slack, n, a, b)
    {
      assert Scanned(a, b, n, n + 1, n);
    }
    forall a, b | 0 <= a < b < n && Category(a, b, n, outer, kind) == 2
      ensures 2.0 * e <= SlackOf(slack, n, a, b)
    {
      assert Scanned(a, b, n, n + 1, n);
    }
    if init1 {
      var a, b :| Scanned(a, b, n, n + 1, n) && Category(a, b, n, outer, kind) == 1 && e1 == SlackOf(slack, n, a, b);
    }
    if init2 {
      var a, b :| Scanned(a, b, n, n + 1, n) && Category(a, b, n, outer, kind) == 2 && e2 == SlackOf(slack, n, a, b);
    }
    if !init1 && !init2 && !init3 {
      NoBounds(n, outer, active, kind, slack, dual, e1, e2, e3);
    }
  }

  /** Such a step is allowed by every edge. */
  lemma StepAllowed(e: real, n: nat, outer: seq<int>, active: seq<bool>, kind: seq<int>, slack: seq<real>,
                    dual: seq<real>, u: int, v: int)
    requires |slack| == EdgeCount(n) && |outer| == 2 * n && |active| == 2 * n && |kind| == 2 * n && |dual| == 2 * n
    requires IsStep(e, n, outer, active, kind, slack, dual) && Labels(kind, n) && 0 <= u < v < n
    requires 0 <= outer[u] < 2 * n && 0 <= outer[v] < 2 * n && SlackOf(slack, n, u, v) >= 0.0
    ensures Allowed(u, v, n, outer, kind, slack, e)
  {
    hide SlackOf, EdgeCount;
    assert Category(u, v, n, outer, kind) == 1 ==> e <= SlackOf(slack, n, u, v);
    assert Category(u, v, n, outer, kind) == 2 ==> 2.0 * e <= SlackOf(slack, n, u, v);
  }

  // What the step leaves alone -------------------------------------------------------------------------------

  /** Edges inside an outermost node and between an even and an odd one keep their slack. */
  ghost predicate Steady(u: int, v: int, outer: seq<int>, kind: seq<int>) {
    0 <= u < |outer| && 0 <= v < |outer| && 0 <= outer[u] < |kind| && 0 <= outer[v] < |kind| &&
    (outer[u] == outer[v] || Sign(kind[outer[u]]) + Sign(kind[outer[v]]) == 0.0)
  }

  lemma TightStays(u: int, v: int, n: nat, outer: seq<int>, kind: seq<int>, slack: seq<real>, slack': seq<real>,
                   e: real)
    requires Tight(slack, n, u, v) && Steady(u, v, outer, kind) && |slack'| == EdgeCount(n)
    requires forall a, b :: 0 <= a < b < n ==> Moved(a, b, n, outer, kind, slack, slack', e)
    ensures Tight(slack', n, u, v)
  {
    var a, b := if u < v then u else v, if u < v then v else u;
    assert Moved(a, b, n, outer, kind, slack, slack', e);
    SignsCancel(Sign(kind[outer[a]]), Sign(kind[outer[b]]), e);
  }

  lemma SignsCancel(x: real, y: real, e: real)
    ensures x + y == 0.0 ==> x * e + y * e == 0.0
  {
    assert x * e + y * e == (x + y) * e;
  }

  /** Circuits inside an outermost node stay without slack. */
  lemma {:induction false} TreeStaysTight(t: Tree, n: nat, outer: seq<int>, kind: seq<int>, slack: seq<real>,
                                          slack': seq<real>, e: real, r: int)
    requires TightTree(t, slack, n) && |slack'| == EdgeCount(n) && |outer| == 2 * n && |kind| == 2 * n && 0 <= r < 2 * n
    requires forall v :: v in Leaves(t) ==> 0 <= v < n && outer[v] == r
    requires forall a, b :: 0 <= a < b < n ==> Moved(a, b, n, outer, kind, slack, slack', e)
    ensures TightTree(t, slack', n)
    decreases t
  {
    hide Moved, Tight, SlackOf, EdgeCount;
    assert t.kids != [] ==> Leaves(t) == AllLeaves(t.kids);
    forall i | 0 <= i < |t.kids|
      ensures 0 <= After(i, |t.kids|) < |t.kids|
      ensures Linked(slack', n, Leaves(t.kids[i]), Leaves(t.kids[After(i, |t.kids|)]))
    {
      var j := After(i, |t.kids|);
      assert Linked(slack, n, Leaves(t.kids[i]), Leaves(t.kids[j]));
      var x, y :| x in Leaves(t.kids[i]) && y in Leaves(t.kids[j]) && Tight(slack, n, x, y);
      KidLeaves(t.kids, i);
      KidLeaves(t.kids, j);
      TightStays(x, y, n, outer, kind, slack, slack', e);
    }
    forall i | 0 <= i < |t.kids|
      ensures TightTree(t.kids[i], slack', n)
    {
      KidTight(t.kids, slack, n, i);
      KidLeaves(t.kids, i);
      TreeStaysTight(t.kids[i], n, outer, kind, slack, slack', e, r);
    }
    TightKids(t.kids, slack', n);
  }

  /** Changing one place of the array changes the slack of one edge. */
  lemma OneSlackMoved(u: int, v: int, n: nat, outer: seq<int>, kind: seq<int>, slack0: seq<real>, slack1: seq<real>,
                      slack2: seq<real>, e: real)
    requires 0 <= u < v < n && |slack0| == EdgeCount(n) && |slack1| == EdgeCount(n) && |slack2| == EdgeCount(n)
    requires |outer| == 2 * n && |kind| == 2 * n && (forall x :: 0 <= x < n ==> 0 <= outer[x] < 2 * n)
    requires 0 <= GetEdgeIndex(n, u, v) < EdgeCount(n)
    requires slack2 == slack1[GetEdgeIndex(n, u, v) := SlackOf(slack1, n, u, v) + SlackChange(u, v, outer, kind, e)]
    requires forall a, b :: Scanned(a, b, u, v, n) ==> Moved(a, b, n, outer, kind, slack0, slack1, e)
    requires forall a, b :: 0 <= a < b < n && !Scanned(a, b, u, v, n) ==>
      SlackOf(slack1, n, a, b) == SlackOf(slack0, n, a, b)
    ensures forall a, b :: Scanned(a, b, u, v + 1, n) ==> Moved(a, b, n, outer, kind, slack0, slack2, e)
    ensures forall a, b :: 0 <= a < b < n && !Scanned(a, b, u, v + 1, n) ==>
      SlackOf(slack2, n, a, b) == SlackOf(slack0, n, a, b)
  {
    hide EdgeCount, GetEdgeIndex, SlackChange;
    forall a, b | 0 <= a < b < n
      ensures SlackOf(slack2, n, a, b) ==
        if a == u && b == v then SlackOf(slack1, n, u, v) + SlackChange(u, v, outer, kind, e)
          else SlackOf(slack1, n, a, b)
    {
      IndexIsBijection(n, a, b, u, v);
    }
    hide SlackOf;
    forall a, b | Scanned(a, b, u, v + 1, n)
      ensures Moved(a, b, n, outer, kind, slack0, slack2, e)
    {
      if a == u && b == v {
        assert !Scanned(a, b, u, v, n);
      } else {
        assert Scanned(a, b, u, v, n);
        assert Moved(a, b, n, outer, kind, slack0, slack1, e);
      }
    }
    forall a, b | 0 <= a < b < n && !Scanned(a, b, u, v + 1, n)
      ensures SlackOf(slack2, n, a, b) == SlackOf(slack0, n, a, b)
    {
      assert !Scanned(a, b, u, v, n);
    }
  }
}
