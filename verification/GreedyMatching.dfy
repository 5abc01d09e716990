/** The greedy bound of the minimum-weight matching CSP, and when it is already the optimum. */
module GreedyMatching {
  import opened Sums
  import opened Duality

  datatype Point = Point(x: real, y: real, z: real)

  /** The squared length of a + b. */
  function Weight(a: Point, b: Point): real {
    var dx, dy, dz := a.x + b.x, a.y + b.y, a.z + b.z;
    dx * dx + dy * dy + dz * dz
  }

  function At(i: int, j: int, n: int): int {
    i * n + j
  }

  lemma RowsApart(i: int, k: int, n: int)
    requires i <= k && n >= 0
    ensures k * n >= i * n
    ensures i < k ==> k * n >= i * n + n
  {
    var d := k - i;
    assert k * n == i * n + d * n;
    assert d >= 1 ==> d * n >= n;
    assert d * n >= 0;
  }

  lemma AtInjective(i: int, j: int, k: int, l: int, n: int)
    requires 0 <= i < n && 0 <= j < n && 0 <= k < n && 0 <= l < n
    ensures 0 <= At(i, j, n) < n * n
    ensures At(i, j, n) == At(k, l, n) <==> i == k && j == l
  {
    RowsApart(0, i, n);
    RowsApart(i, n, n);
    if i < k {
      RowsApart(i, k, n);
    } else {
      RowsApart(k, i, n);
    }
  }

  function CostOf(weights: seq<real>, n: int): (int, int) -> real {
    (u, v) => if 0 <= At(u, v, n) < |weights| then weights[At(u, v, n)] else 0.0
  }

  /** j is the first nearest partner of i among the points before k. */
  ghost predicate IsNearest(weights: seq<real>, n: int, i: int, k: int, j: int) {
    0 <= j < k && j != i &&
    (forall l :: 0 <= l < k && l != i ==> CostOf(weights, n)(i, j) <= CostOf(weights, n)(i, l)) &&
    (forall l :: 0 <= l < j && l != i ==> CostOf(weights, n)(i, j) < CostOf(weights, n)(i, l))
  }

  /** The nearest partner of one point. */
  method NearestPartner(n: nat, weights: array<real>, i: int) returns (bi: int, min: real)
    requires n >= 2 && 0 <= i < n && weights.Length >= n * n
    ensures IsNearest(weights[..], n, i, n, bi) && min == CostOf(weights[..], n)(i, bi)
  {
    bi, min := -1, 0.0;
    for j := 0 to n
      invariant bi == -1 ==> j == 0 || (j == 1 && i == 0)
      invariant bi != -1 ==> IsNearest(weights[..], n, i, j, bi) && min == CostOf(weights[..], n)(i, bi)
    {
      AtInjective(i, j, i, j, n);
      var edgeWeight := weights[i * n + j];
      ghost var cost := CostOf(weights[..], n);
      assert edgeWeight == cost(i, j);
      assert bi != -1 ==> forall l :: 0 <= l < j && l != i ==> cost(i, bi) <= cost(i, l);
      // An infinite minimum stands for no partner yet.
      if i != j && (bi == -1 || edgeWeight < min) {
        min := edgeWeight;
        bi := j;
      }
    }
  }

  ghost predicate NearestPartners(weights: seq<real>, n: int, pair: seq<int>) {
    |pair| == n && forall i :: 0 <= i < n ==> IsNearest(weights, n, i, n, pair[i])
  }

  /** Half the sum of the row minima, and whether the nearest partners pair up. */
  method GreedyEdgeAssignment(n: nat, weights: array<real>) returns (bound: real, matching: bool, ghost pair: seq<int>)
    requires n != 1 && weights.Length >= n * n
    ensures NearestPartners(weights[..], n, pair)
    ensures 2.0 * bound == TwiceCost(CostOf(weights[..], n), pair)
    ensures matching == IsPerfect(pair, n)
  {
    var pairs := new int[n];
    var csp := 0.0;
    ghost var cost := CostOf(weights[..], n);
    for i := 0 to n
      invariant forall k :: 0 <= k < i ==> IsNearest(weights[..], n, k, n, pairs[k])
      invariant csp == Sum(CostAt(cost, pairs[..]), i)
    {
      var bi, min := NearestPartner(n, weights, i);
      ghost var before := pairs[..];
      pairs[i] := bi;
      SumEqual(CostAt(cost, before), CostAt(cost, pairs[..]), i);
      csp := csp + min;
    }
    pair := pairs[..];
    matching := true;
    assert forall k :: 0 <= k < n ==> IsNearest(weights[..], n, k, n, pairs[k]);
    for i := 0 to n
      invariant matching <==> forall k :: 0 <= k < i ==> pair[pair[k]] == k
    {
      assert IsNearest(weights[..], n, i, n, pairs[i]);
      if pairs[pairs[i]] != i {
        matching := false;
      }
    }
    bound := csp / 2.0;
  }

  /** No perfect matching has an edge below a row minimum. */
  lemma RowMinimaBound(weights: seq<real>, n: nat, pair: seq<int>, partner: seq<int>)
    requires NearestPartners(weights, n, pair) && IsPerfect(partner, n)
    ensures TwiceCost(CostOf(weights, n), pair) <= TwiceCost(CostOf(weights, n), partner)
  {
    var cost := CostOf(weights, n);
    forall u | 0 <= u < n
      ensures CostAt(cost, pair)(u) <= CostAt(cost, partner)(u)
    {
      assert IsNearest(weights, n, u, n, pair[u]);
    }
    SumAtMost(CostAt(cost, pair), CostAt(cost, partner), n);
  }

  /** The cost of the cheapest perfect matching, each edge counted once. */
  ghost predicate IsOptimum(weights: seq<real>, n: nat, value: real) {
    (exists best :: IsPerfect(best, n) && 2.0 * value == TwiceCost(CostOf(weights, n), best)) &&
    forall other :: IsPerfect(other, n) ==> 2.0 * value <= TwiceCost(CostOf(weights, n), other)
  }

  /** The greedy value is the optimum whenever the nearest partners pair up; otherwise it is a bound. */
  lemma GreedyIsOptimal(weights: seq<real>, n: nat, pair: seq<int>, bound: real)
    requires NearestPartners(weights, n, pair) && 2.0 * bound == TwiceCost(CostOf(weights, n), pair)
    ensures forall other :: IsPerfect(other, n) ==> 2.0 * bound <= TwiceCost(CostOf(weights, n), other)
    ensures IsPerfect(pair, n) ==> IsOptimum(weights, n, bound)
  {
    forall other | IsPerfect(other, n)
      ensures 2.0 * bound <= TwiceCost(CostOf(weights, n), other)
    {
      RowMinimaBound(weights, n, pair, other);
    }
  }

  ghost predicate HoldsWeights(weights: seq<real>, points: seq<Point>) {
    |weights| >= |points| * |points| &&
    forall i, j :: 0 <= i < |points| && 0 <= j < |points| && i != j ==>
      CostOf(weights, |points|)(i, j) == Weight(points[i], points[j])
  }

  /** The weights of all pairs, both ways round. */
  method FillWeights(points: seq<Point>, weights: array<real>)
    requires weights.Length >= |points| * |points|
    modifies weights
    ensures HoldsWeights(weights[..], points)
  {
    hide Weight;
    var n := |points|;
    for i := 0 to n
      invariant forall k, l :: 0 <= k < n && 0 <= l < n && k != l && (k < i || l < i) ==>
        CostOf(weights[..], n)(k, l) == Weight(points[k], points[l])
    {
      for j := i + 1 to n
        invariant forall k, l ::
          0 <= k < n && 0 <= l < n && k != l && (k < i || l < i || (k == i && l < j) || (l == i && k < j)) ==>
          CostOf(weights[..], n)(k, l) == Weight(points[k], points[l])
      {
        var s := Weight(points[i], points[j]);
        WeightSymmetric(points[i], points[j]);
        AtInjective(i, j, j, i, n);
        AtInjective(j, i, i, j, n);
        ghost var before := weights[..];
        weights[i * n + j] := s;
        weights[j * n + i] := s;
        forall k, l | 0 <= k < n && 0 <= l < n && k != l
          ensures CostOf(weights[..], n)(k, l) == if (k == i && l == j) || (k == j && l == i) then s
            else CostOf(before, n)(k, l)
        {
          AtInjective(k, l, i, j, n);
          AtInjective(k, l, j, i, n);
        }
      }
    }
  }

  lemma WeightSymmetric(a: Point, b: Point)
    ensures Weight(a, b) == Weight(b, a)
  {
  }
}
