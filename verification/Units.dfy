/** Numbers that are whole multiples of a unit, and what that says about slacks and duals. */
module Units {
  import opened Sums
  import opened Duality
  import opened EdgeIndex
  import opened BlossomDuals

  function Times(k: int, unit: real): real {
    (k as real) * unit
  }

  ghost predicate Multiple(x: real, unit: real) {
    exists k: int :: x == Times(k, unit)
  }

  lemma TimesPlus(a: int, b: int, unit: real)
    ensures Times(a, unit) + Times(b, unit) == Times(a + b, unit)
    ensures Times(a, unit) - Times(b, unit) == Times(a - b, unit)
  {
    assert (a as real) + (b as real) == (a + b) as real;
    assert (a as real) - (b as real) == (a - b) as real;
  }

  lemma TimesTwice(a: int, unit: real)
    ensures Times(a, 2.0 * unit) == 2.0 * Times(a, unit) == Times(2 * a, unit)
  {
  }

  lemma MultipleZero(unit: real)
    ensures Multiple(0.0, unit)
  {
    assert Times(0, unit) == 0.0;
  }

  lemma MultiplePlus(x: real, y: real, unit: real)
    requires Multiple(x, unit) && Multiple(y, unit)
    ensures Multiple(x + y, unit) && Multiple(x - y, unit)
  {
    var a :| x == Times(a, unit);
    var b :| y == Times(b, unit);
    TimesPlus(a, b, unit);
  }

  /** A multiple of twice the unit, the double of a multiple, and the half of one. */
  lemma MultipleTwice(x: real, unit: real)
    ensures Multiple(x, unit) <==> Multiple(2.0 * x, 2.0 * unit)
    ensures Multiple(x, 2.0 * unit) ==> Multiple(x, unit)
  {
    if Multiple(x, unit) {
      var a :| x == Times(a, unit);
      TimesTwice(a, unit);
      assert 2.0 * x == Times(a, 2.0 * unit);
    }
    if Multiple(2.0 * x, 2.0 * unit) {
      var a :| 2.0 * x == Times(a, 2.0 * unit);
      TimesTwice(a, unit);
      assert x == Times(a, unit);
    }
    if Multiple(x, 2.0 * unit) {
      var a :| x == Times(a, 2.0 * unit);
      TimesTwice(a, unit);
      assert x == Times(2 * a, unit);
    }
  }

  lemma TimesSign(a: int, unit: real)
    requires unit > 0.0
    ensures a <= 0 ==> Times(a, unit) <= 0.0
    ensures a >= 0 ==> Times(a, unit) >= 0.0
  {
  }

  lemma TimesOrder(a: int, unit: real)
    requires unit > 0.0 && Times(a, unit) > 0.0
    ensures Times(a, unit) >= unit
  {
    TimesSign(a, unit);
    TimesSign(a - 1, unit);
    TimesPlus(a - 1, 1, unit);
  }

  /** A positive multiple is at least one unit. */
  lemma MultipleLeast(x: real, unit: real)
    requires Multiple(x, unit) && unit > 0.0 && x > 0.0
    ensures x >= unit
  {
    var a :| x == Times(a, unit);
    TimesOrder(a, unit);
  }

  lemma {:induction false} SumMultiple(f: int -> real, k: nat, unit: real)
    requires forall i :: 0 <= i < k ==> Multiple(f(i), unit)
    ensures Multiple(Sum(f, k), unit)
  {
    if k == 0 {
      MultipleZero(unit);
    } else {
      SumMultiple(f, k - 1, unit);
      MultiplePlus(Sum(f, k - 1), f(k - 1), unit);
    }
  }

  // Slacks -------------------------------------------------------------------------------------------------------

  ghost predicate AllMultiple(values: seq<real>, unit: real) {
    forall i :: 0 <= i < |values| ==> Multiple(values[i], unit)
  }

  /** The slack of the edge between two vertices is an even number of units. */
  ghost predicate Alike(u: int, v: int, slack: seq<real>, n: nat, unit: real) {
    && 0 <= u < n && 0 <= v < n && |slack| == EdgeCount(n)
    && (u != v ==> Multiple(SlackOf(slack, n, u, v), 2.0 * unit))
  }

  lemma SlackBack(slack: seq<real>, n: nat, u: int, v: int)
    requires 0 <= u < n && 0 <= v < n && u != v && |slack| == EdgeCount(n)
    ensures SlackOf(slack, n, u, v) == SlackOf(slack, n, v, u)
  {
    IndexIsBijection(n, u, v, v, u);
  }

  lemma AlikeBack(u: int, v: int, slack: seq<real>, n: nat, unit: real)
    requires Alike(u, v, slack, n, unit)
    ensures Alike(v, u, slack, n, unit)
  {
    if u != v {
      SlackBack(slack, n, u, v);
    }
  }

  function PairShares(dual: seq<real>, deep: seq<seq<int>>, u: int, v: int, w: int): int -> real {
    j => Share(dual, deep, u, v, j) + Share(dual, deep, v, w, j) + Share(dual, deep, u, w, j)
  }

  lemma ShareTriangle(dual: seq<real>, deep: seq<seq<int>>, u: int, v: int, w: int, j: int, unit: real)
    requires AllMultiple(dual, unit)
    ensures Multiple(PairShares(dual, deep, u, v, w)(j), 2.0 * unit)
  {
    MultipleZero(2.0 * unit);
    if 0 <= j < |dual| && j < |deep| {
      MultipleTwice(dual[j], unit);
    }
    hide Multiple;
    assert PairShares(dual, deep, u, v, w)(j) == 0.0 || (0 <= j < |dual| && PairShares(dual, deep, u, v,
      w)(j) == 2.0 * dual[j]);
  }

  /** Every set separates none or two of the pairs of three vertices. */
  lemma DualTriangle(dual: seq<real>, deep: seq<seq<int>>, u: int, v: int, w: int, unit: real)
    requires AllMultiple(dual, unit)
    ensures Multiple(DualSum(dual, deep, u, v) + DualSum(dual, deep, v, w) + DualSum(dual, deep, u, w), 2.0 * unit)
  {
    var k := |dual|;
    var two := (j: int) => Share(dual, deep, u, v, j) + Share(dual, deep, v, w, j);
    SumPlus(Shares(dual, deep, u, v), Shares(dual, deep, v, w), two, k);
    SumPlus(two, Shares(dual, deep, u, w), PairShares(dual, deep, u, v, w), k);
    forall j | 0 <= j < k
      ensures Multiple(PairShares(dual, deep, u, v, w)(j), 2.0 * unit)
    {
      ShareTriangle(dual, deep, u, v, w, j, unit);
    }
    hide Multiple;
    SumMultiple(PairShares(dual, deep, u, v, w), k, 2.0 * unit);
  }

  lemma DualSumBack(dual: seq<real>, deep: seq<seq<int>>, u: int, v: int)
    ensures DualSum(dual, deep, u, v) == DualSum(dual, deep, v, u)
  {
    SumEqual(Shares(dual, deep, u, v), Shares(dual, deep, v, u), |dual|);
  }

  lemma SlackIs(n: nat, costs: seq<real>, slack: seq<real>, dual: seq<real>, deep: seq<seq<int>>, u: int, v: int,
                unit: real)
    requires Certified(n, costs, slack, dual, deep) && AllMultiple(costs, 2.0 * unit) && 0 <= u < n && 0 <= v < n
    requires u != v
    ensures |slack| == EdgeCount(n) && Multiple(SlackOf(slack, n, u, v) + DualSum(dual, deep, u, v), 2.0 * unit)
  {
    var a, b := if u < v then u else v, if u < v then v else u;
    SlackBack(slack, n, u, v);
    DualSumBack(dual, deep, u, v);
    IndexInRange(n, a, b);
    assert SlackOf(slack, n, a, b) == SlackOf(costs, n, a, b) - DualSum(dual, deep, a, b);
  }

  /** Being joined by an even slack carries over from two pairs of three vertices to the third. */
  lemma AlikeThrough(n: nat, costs: seq<real>, slack: seq<real>, dual: seq<real>, deep: seq<seq<int>>, u: int, v: int,
                     w: int, unit: real)
    requires Certified(n, costs, slack, dual, deep) && AllMultiple(costs, 2.0 * unit) && AllMultiple(dual, unit)
    requires Alike(u, v, slack, n, unit) && Alike(v, w, slack, n, unit)
    ensures Alike(u, w, slack, n, unit)
  {
    if u != w && u != v && v != w {
      DualTriangle(dual, deep, u, v, w, unit);
      SlackIs(n, costs, slack, dual, deep, u, v, unit);
      SlackIs(n, costs, slack, dual, deep, v, w, unit);
      SlackIs(n, costs, slack, dual, deep, u, w, unit);
      hide *;
      AlikeFacts(u, v, slack, n, unit);
      AlikeFacts(v, w, slack, n, unit);
      ThirdEven(SlackOf(slack, n, u, v), SlackOf(slack, n, v, w), SlackOf(slack, n, u, w),
        DualSum(dual, deep, u, v), DualSum(dual, deep, v, w), DualSum(dual, deep, u, w), 2.0 * unit);
      MakeAlike(u, w, slack, n, unit);
    }
  }

  lemma AlikeFacts(u: int, v: int, slack: seq<real>, n: nat, unit: real)
    requires Alike(u, v, slack, n, unit)
    ensures 0 <= u < n && 0 <= v < n && |slack| == EdgeCount(n)
    ensures (u != v ==> Multiple(SlackOf(slack, n, u, v), 2.0 * unit))
  {
  }

  lemma MakeAlike(u: int, v: int, slack: seq<real>, n: nat, unit: real)
    requires 0 <= u < n && 0 <= v < n && |slack| == EdgeCount(n)
    requires (u != v ==> Multiple(SlackOf(slack, n, u, v), 2.0 * unit))
    ensures Alike(u, v, slack, n, unit)
  {
  }

  lemma ThirdEven(a: real, b: real, c: real, x: real, y: real, z: real, unit: real)
    requires Multiple(a + x, unit) && Multiple(b + y, unit) && Multiple(c + z, unit) && Multiple(x + y + z, unit)
    requires Multiple(a, unit) && Multiple(b, unit)
    ensures Multiple(c, unit)
  {
    MultiplePlus(a + x, a, unit);
    MultiplePlus(b + y, b, unit);
    assert (a + x) - a == x && (b + y) - b == y;
    MultiplePlus(x, y, unit);
    MultiplePlus(x + y + z, x + y, unit);
    assert (x + y + z) - (x + y) == z;
    MultiplePlus(c + z, z, unit);
    assert (c + z) - z == c;
  }

  /** Every slack is a whole number of units. */
  lemma SlackMultiple(n: nat, costs: seq<real>, slack: seq<real>, dual: seq<real>, deep: seq<seq<int>>, u: int, v: int,
                      unit: real)
    requires Certified(n, costs, slack, dual, deep) && AllMultiple(costs, 2.0 * unit) && AllMultiple(dual, unit)
    requires 0 <= u < n && 0 <= v < n && u != v
    ensures |slack| == EdgeCount(n) && Multiple(SlackOf(slack, n, u, v), unit)
  {
    SlackIs(n, costs, slack, dual, deep, u, v, unit);
    forall j | 0 <= j < |dual|
      ensures Multiple(Shares(dual, deep, u, v)(j), unit)
    {
      MultipleZero(unit);
    }
    hide Multiple;
    SumMultiple(Shares(dual, deep, u, v), |dual|, unit);
    hide *;
    var s, d := SlackOf(slack, n, u, v), DualSum(dual, deep, u, v);
    DualSumIs(dual, deep, u, v);
    MultipleTwice(s + d, unit);
    MultiplePlus(s + d, d, unit);
    assert (s + d) - d == s;
  }

  lemma DualSumIs(dual: seq<real>, deep: seq<seq<int>>, u: int, v: int)
    ensures DualSum(dual, deep, u, v) == Sum(Shares(dual, deep, u, v), |dual|)
  {
  }
}
