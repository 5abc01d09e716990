/** Why a matching with a dual certificate costs no more than any other perfect matching. */
module Duality {
  import opened Sums

  /** Each point and its partner; two points are partners of each other. */
  ghost predicate IsPerfect(partner: seq<int>, n: nat) {
    |partner| == n &&
    forall u :: 0 <= u < n ==> 0 <= partner[u] < n && partner[u] != u && partner[partner[u]] == u
  }

  /** Exactly one of u and v is in the list. */
  predicate Separates(s: seq<int>, u: int, v: int) {
    (u in s) != (v in s)
  }

  /** What the list j adds to the duals that separate u and v. */
  function Share(dual: seq<real>, deep: seq<seq<int>>, u: int, v: int, j: int): real {
    if 0 <= j < |dual| && j < |deep| && Separates(deep[j], u, v) then dual[j] else 0.0
  }

  function Shares(dual: seq<real>, deep: seq<seq<int>>, u: int, v: int): int -> real {
    j => Share(dual, deep, u, v, j)
  }

  /** The duals of all lists that contain exactly one of u and v. */
  function DualSum(dual: seq<real>, deep: seq<seq<int>>, u: int, v: int): real {
    Sum(Shares(dual, deep, u, v), |dual|)
  }

  /** Twice the cost of a matching. */
  function TwiceCost(cost: (int, int) -> real, partner: seq<int>): real {
    Sum(CostAt(cost, partner), |partner|)
  }

  function CostAt(cost: (int, int) -> real, partner: seq<int>): int -> real {
    u => if 0 <= u < |partner| then cost(u, partner[u]) else 0.0
  }

  /** slack is cost less the separating duals; slacks and the duals of blossoms are not negative. */
  ghost predicate Certificate(n: nat, cost: (int, int) -> real, slack: (int, int) -> real, dual: seq<real>,
                              deep: seq<seq<int>>) {
    && |dual| == 2 * n && |deep| == 2 * n
    && (forall u, v :: 0 <= u < n && 0 <= v < n && u != v ==>
          slack(u, v) >= 0.0 && slack(u, v) == cost(u, v) - DualSum(dual, deep, u, v))
    && (forall j :: 0 <= j < n ==> deep[j] == [j])
    && (forall j :: n <= j < 2 * n ==> dual[j] >= 0.0)
    && (forall j :: n <= j < 2 * n && dual[j] > 0.0 ==> IsOddSet(deep[j], n))
  }

  ghost predicate IsOddSet(s: seq<int>, n: nat) {
    && |s| % 2 == 1
    && (forall i, k :: 0 <= i < k < |s| ==> s[i] != s[k])
    && (forall i :: 0 <= i < |s| ==> 0 <= s[i] < n)
  }

  /** The matching uses only edges without slack and leaves each blossom with a dual on one edge. */
  ghost predicate Complementary(n: nat, slack: (int, int) -> real, dual: seq<real>, deep: seq<seq<int>>,
                                partner: seq<int>)
    requires |dual| == 2 * n && |deep| == 2 * n && |partner| == n
  {
    && (forall u :: 0 <= u < n ==> slack(u, partner[u]) == 0.0)
    && (forall j :: n <= j < 2 * n && dual[j] > 0.0 ==> CrossedOnce(deep[j], partner))
  }

  /** Only one point of the list has its partner outside. */
  ghost predicate CrossedOnce(s: seq<int>, partner: seq<int>) {
    forall u, v ::
      0 <= u < |partner| && 0 <= v < |partner| && u in s && v in s && partner[u] !in s && partner[v] !in s ==> u == v
  }

  lemma AnyOf<T>(s: set<T>) returns (x: T)
    requires s != {}
    ensures x in s
  {
    x :| x in s;
  }

  /** A list of odd length cannot be closed under taking partners. */
  lemma {:induction false} OddLeaves(s: set<int>, partner: seq<int>, n: nat)
    requires IsPerfect(partner, n) && |s| % 2 == 1 && forall u :: u in s ==> 0 <= u < n
    ensures exists u :: u in s && partner[u] !in s
  {
    if s != {} {
      var x := AnyOf(s);
      if partner[x] in s {
        var less := s - {x, partner[x]};
        assert |less| == |s| - 2;
        OddLeaves(less, partner, n);
        var u :| u in less && partner[u] !in less;
        assert partner[partner[u]] == u;
      }
    }
  }

  ghost function Elements(s: seq<int>): set<int> {
    set x | x in s
  }

  lemma {:induction false} DistinctSize(s: seq<int>)
    requires forall i, k :: 0 <= i < k < |s| ==> s[i] != s[k]
    ensures |Elements(s)| == |s|
  {
    if s != [] {
      var last := |s| - 1;
      DistinctSize(s[..last]);
      assert Elements(s) == Elements(s[..last]) + {s[last]};
    } else {
      assert Elements(s) == {};
    }
  }

  /** The share of the list j along the edge at u. */
  function ShareTable(dual: seq<real>, deep: seq<seq<int>>, partner: seq<int>): (int, int) -> real {
    (u, j) => if 0 <= u < |partner| then Share(dual, deep, u, partner[u], j) else 0.0
  }

  /** What the list j pays along all edges of a matching. */
  function Payment(dual: seq<real>, deep: seq<seq<int>>, partner: seq<int>, j: int): real {
    Sum(Column(ShareTable(dual, deep, partner), j), |partner|)
  }

  /** The list j pays at least twice its dual, and exactly that if it is a point or is crossed once. */
  lemma ListPays(n: nat, dual: seq<real>, deep: seq<seq<int>>, partner: seq<int>, j: int)
    requires IsPerfect(partner, n) && |dual| == 2 * n && |deep| == 2 * n && 0 <= j < 2 * n
    requires j < n ==> deep[j] == [j]
    requires j >= n ==> dual[j] >= 0.0 && (dual[j] > 0.0 ==> IsOddSet(deep[j], n))
    ensures Payment(dual, deep, partner, j) >= 2.0 * dual[j]
    ensures j < n || dual[j] == 0.0 || CrossedOnce(deep[j], partner) ==>
      Payment(dual, deep, partner, j) == 2.0 * dual[j]
  {
    var f := Column(ShareTable(dual, deep, partner), j);
    if j < n {
      assert partner[partner[j]] == j;
      SumPair(f, j, partner[j], n);
    } else if dual[j] == 0.0 {
      SumConstant(f, 0.0, n);
    } else {
      var s := deep[j];
      DistinctSize(s);
      OddLeaves(Elements(s), partner, n);
      var u :| u in Elements(s) && partner[u] !in Elements(s);
      assert u in s && partner[u] !in s && partner[partner[u]] == u;
      SumAtLeastPair(f, u, partner[u], n);
      if CrossedOnce(s, partner) {
        forall x | 0 <= x < n && x != u && x != partner[u]
          ensures f(x) == 0.0
        {
          assert partner[partner[x]] == x;
        }
        SumPair(f, u, partner[u], n);
      }
    }
  }

  /** Twice the cost of a perfect matching, split into slacks and payments. */
  lemma CostSplits(n: nat, cost: (int, int) -> real, slack: (int, int) -> real, dual: seq<real>, deep: seq<seq<int>>,
                   partner: seq<int>)
    requires Certificate(n, cost, slack, dual, deep) && IsPerfect(partner, n)
    ensures TwiceCost(cost, partner) == TwiceCost(slack, partner) + Sum(Payments(dual, deep, partner), 2 * n)
  {
    hide Share, Separates;
    var table := ShareTable(dual, deep, partner);
    forall u | 0 <= u < n
      ensures CostAt(cost, partner)(u) == CostAt(slack, partner)(u) + RowSums(table, 2 * n)(u)
    {
      SumEqual(Shares(dual, deep, u, partner[u]), Row(table, u), 2 * n);
    }
    SumPlus(CostAt(slack, partner), RowSums(table, 2 * n), CostAt(cost, partner), n);
    SumSwap(table, n, 2 * n);
    SumEqual(ColumnSums(table, n), Payments(dual, deep, partner), 2 * n);
  }

  function Payments(dual: seq<real>, deep: seq<seq<int>>, partner: seq<int>): int -> real {
    j => Payment(dual, deep, partner, j)
  }

  function TwiceDuals(dual: seq<real>): int -> real {
    j => if 0 <= j < |dual| then 2.0 * dual[j] else 0.0
  }

  /** No perfect matching costs less than the duals. */
  lemma WeakDuality(n: nat, cost: (int, int) -> real, slack: (int, int) -> real, dual: seq<real>, deep: seq<seq<int>>,
                    partner: seq<int>)
    requires Certificate(n, cost, slack, dual, deep) && IsPerfect(partner, n)
    ensures TwiceCost(cost, partner) >= Sum(TwiceDuals(dual), 2 * n)
  {
    CostSplits(n, cost, slack, dual, deep, partner);
    SumConstant(_ => 0.0, 0.0, n);
    SumAtMost(_ => 0.0, CostAt(slack, partner), n);
    forall j | 0 <= j < 2 * n
      ensures TwiceDuals(dual)(j) <= Payments(dual, deep, partner)(j)
    {
      ListPays(n, dual, deep, partner, j);
    }
    SumAtMost(TwiceDuals(dual), Payments(dual, deep, partner), 2 * n);
  }

  /** A complementary matching costs exactly the duals. */
  lemma ComplementaryCost(n: nat, cost: (int, int) -> real, slack: (int, int) -> real, dual: seq<real>,
                          deep: seq<seq<int>>, partner: seq<int>)
    requires Certificate(n, cost, slack, dual, deep) && IsPerfect(partner, n)
    requires Complementary(n, slack, dual, deep, partner)
    ensures TwiceCost(cost, partner) == Sum(TwiceDuals(dual), 2 * n)
  {
    CostSplits(n, cost, slack, dual, deep, partner);
    SumConstant(CostAt(slack, partner), 0.0, n);
    forall j | 0 <= j < 2 * n
      ensures TwiceDuals(dual)(j) == Payments(dual, deep, partner)(j)
    {
      ListPays(n, dual, deep, partner, j);
    }
    SumEqual(TwiceDuals(dual), Payments(dual, deep, partner), 2 * n);
  }

  /** A matching on edges without slack that crosses each paying blossom once is a cheapest one. */
  lemma ComplementaryIsOptimal(n: nat, cost: (int, int) -> real, slack: (int, int) -> real, dual: seq<real>,
                               deep: seq<seq<int>>,
                               best: seq<int>, other: seq<int>)
    requires Certificate(n, cost, slack, dual, deep) && IsPerfect(best, n) && IsPerfect(other, n)
    requires Complementary(n, slack, dual, deep, best)
    ensures TwiceCost(cost, best) <= TwiceCost(cost, other)
  {
    ComplementaryCost(n, cost, slack, dual, deep, best);
    WeakDuality(n, cost, slack, dual, deep, other);
  }

  /** Lowering all costs by the same amount changes all perfect matchings alike. */
  lemma ShiftKeepsOrder(n: nat, cost: (int, int) -> real, shifted: (int, int) -> real, shift: real, partner: seq<int>)
    requires IsPerfect(partner, n)
    requires forall u, v :: 0 <= u < n && 0 <= v < n && u != v ==> shifted(u, v) == cost(u, v) - shift
    ensures TwiceCost(cost, partner) == TwiceCost(shifted, partner) + shift * (n as real)
  {
    SumConstant(_ => shift, shift, n);
    SumPlus(CostAt(shifted, partner), _ => shift, CostAt(cost, partner), n);
  }
}
