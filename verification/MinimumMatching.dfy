/** The entry of the matching solver: from a cost matrix to a cheapest perfect matching and its cost. */
module MinimumMatching {
  import opened EdgeIndex
  import opened Duality
  import opened GreedyMatching
  import opened BlossomRetrieve
  import opened BlossomDuals
  import opened BlossomCircuit
  import opened MatchingStart
  import opened Powers
  import opened Units
  import opened DualParity
  import opened MatchingState
  import opened CentralSymmetry

  ghost predicate Symmetric(weights: seq<real>, n: nat) {
    |weights| == n * n && forall u, v :: 0 <= u < n && 0 <= v < n && u != v ==>
      CostOf(weights, n)(u, v) == CostOf(weights, n)(v, u)
  }

  /** The costs of the rows before u, and of row u before v, stand in their places. */
  ghost predicate Listed(slack: seq<real>, weights: seq<real>, n: nat, u: int, v: int) {
    |slack| <= EdgeCount(n) &&
    forall x, y :: 0 <= x < y < n && (x < u || (x == u && y < v)) ==>
      0 <= GetEdgeIndex(n, x, y) < |slack| && slack[GetEdgeIndex(n, x, y)] == CostOf(weights, n)(x, y)
  }

  lemma ListOne(slack: seq<real>, weights: seq<real>, n: nat, u: int, v: int)
    requires Listed(slack, weights, n, u, v) && 0 <= u < v < n && |slack| == RowStart(n, u) + (v - u - 1)
    ensures Listed(slack + [CostOf(weights, n)(u, v)], weights, n, u, v + 1)
  {
    IndexIs(n, u, v);
    IndexIsBijection(n, u, v, u, v);
    hide GetEdgeIndex, RowStart, EdgeCount, CostOf;
  }

  lemma NextRow(slack: seq<real>, weights: seq<real>, n: nat, u: int)
    requires Listed(slack, weights, n, u, n) && 0 <= u < n
    ensures Listed(slack, weights, n, u + 1, u + 2)
    ensures RowStart(n, u + 1) == RowStart(n, u) + (n - u - 1)
  {
    hide GetEdgeIndex, EdgeCount, CostOf;
  }

  lemma RowsEnd(n: nat)
    ensures n > 0 ==> RowStart(n, n) == EdgeCount(n)
    ensures n == 0 ==> EdgeCount(n) == 0
  {
    if n > 0 {
      RowStartIs(n, n);
      assert 2 * (n * n) - n * (n + 1) == n * (n - 1);
    }
  }

  /** The upper triangle of the matrix, row by row, is the list of edge costs. */
  method EdgeCosts(n: nat, costmatrix: seq<real>) returns (slack: seq<real>)
    requires |costmatrix| == n * n
    ensures |slack| == EdgeCount(n) && Listed(slack, costmatrix, n, n, n)
  {
    hide Listed, GetEdgeIndex, EdgeCount, CostOf;
    slack := [];
    NothingListed(costmatrix, n);
    for i := 0 to n
      invariant |slack| == RowStart(n, i) && Listed(slack, costmatrix, n, i, i + 1)
    {
      for j := i + 1 to n
        invariant |slack| == RowStart(n, i) + (j - i - 1) && Listed(slack, costmatrix, n, i, j)
      {
        AtInjective(i, j, i, j, n);
        MatrixEntry(costmatrix, n, i, j);
        ListOne(slack, costmatrix, n, i, j);
        slack := slack + [costmatrix[i * n + j]];
      }
      NextRow(slack, costmatrix, n, i);
    }
    RowsEnd(n);
    AllListed(slack, costmatrix, n);
  }

  lemma MatrixEntry(weights: seq<real>, n: nat, i: int, j: int)
    requires |weights| == n * n && 0 <= i < n && 0 <= j < n && 0 <= At(i, j, n) < n * n
    ensures 0 <= i * n + j < |weights| && CostOf(weights, n)(i, j) == weights[i * n + j]
  {
  }

  lemma NothingListed(weights: seq<real>, n: nat)
    ensures Listed([], weights, n, 0, 1) && RowStart(n, 0) == 0
  {
    assert EdgeCount(n) >= 0 by {
      if n > 0 {
        assert n * (n - 1) >= 0;
      }
    }
  }

  lemma AllListed(slack: seq<real>, weights: seq<real>, n: nat)
    requires Listed(slack, weights, n, n, n + 1)
    ensures Listed(slack, weights, n, n, n)
  {
  }

  /** So a matching costs the same by list and by matrix. */
  lemma SameCost(slack: seq<real>, weights: seq<real>, n: nat, partner: seq<int>)
    requires Listed(slack, weights, n, n, n) && |slack| == EdgeCount(n) && Symmetric(weights, n)
    requires IsPerfect(partner, n)
    ensures TwiceCost(EdgeFunction(slack, n), partner) == TwiceCost(CostOf(weights, n), partner)
  {
    var f, g := EdgeFunction(slack, n), CostOf(weights, n);
    forall u, v | 0 <= u < n && 0 <= v < n && u != v
      ensures f(u, v) == g(u, v) - 0.0
    {
      SameEdge(slack, weights, n, u, v);
    }
    hide EdgeFunction, CostOf, TwiceCost, Listed;
    ShiftKeepsOrder(n, g, f, 0.0, partner);
  }

  lemma SameEdge(slack: seq<real>, weights: seq<real>, n: nat, u: int, v: int)
    requires Listed(slack, weights, n, n, n) && |slack| == EdgeCount(n) && Symmetric(weights, n) && 0 <= u < n
    requires 0 <= v < n && u != v
    ensures EdgeFunction(slack, n)(u, v) == CostOf(weights, n)(u, v)
  {
    IndexIsBijection(n, u, v, v, u);
    var x, y := if u < v then u else v, if u < v then v else u;
    assert slack[GetEdgeIndex(n, x, y)] == CostOf(weights, n)(x, y);
  }

  /** All costs are whole multiples of the unit. */
  ghost predicate CostsInUnits(weights: seq<real>, n: nat, unit: real) {
    forall u, v :: 0 <= u < n && 0 <= v < n && u != v ==> Multiple(CostOf(weights, n)(u, v), unit)
  }

  lemma SlacksInUnits(slack: seq<real>, weights: seq<real>, n: nat, unit: real)
    requires Listed(slack, weights, n, n, n) && |slack| == EdgeCount(n) && CostsInUnits(weights, n, unit)
    ensures AllMultiple(slack, unit)
  {
    hide EdgeCount, GetEdgeIndex, CostOf, Multiple;
    forall i | 0 <= i < |slack|
      ensures Multiple(slack[i], unit)
    {
      var u, v := IndexOnto(n, i);
      assert slack[GetEdgeIndex(n, u, v)] == CostOf(weights, n)(u, v);
    }
  }

  /** The solver ends with the least cost of a perfect matching, and its pairs are such a matching. */
  method MinimumCostPerfectMatching(n: nat, costmatrix: seq<real>, ghost unit: real)
    returns (obj: real, res: seq<(int, int)>, ghost best: seq<int>)
    requires n % 2 == 0 && Symmetric(costmatrix, n) && unit > 0.0 && CostsInUnits(costmatrix, n, unit)
    ensures IsOptimum(costmatrix, n, obj)
    ensures IsPerfect(best, n) && 2.0 * obj == TwiceCost(CostOf(costmatrix, n), best)
    ensures PairsOf(res, seq(n, _ => true), best, n)
  {
    hide Listed, IsPerfect, TwiceCost, PairsOf, CostOf, EdgeFunction, Lowered, EdgeCount, IsOptimum, AllMultiple,
      CostsInUnits, Multiple, IsShift;
    var slack := EdgeCosts(n, costmatrix);
    SlacksInUnits(slack, costmatrix, n, unit);
    var m := new Matching(n, slack);
    ghost var shift :| Lowered(slack, m.slack, shift) && IsShift(shift, slack);
    ghost var lowered := m.slack;
    LoweredMultiple(slack, lowered, shift, unit);
    NoLabels(m.kind, n);
    assert 2.0 * (unit / 2.0) == unit;
    obj, res := m.Solve(costmatrix, lowered, unit / 2.0);
    best := m.mate[..n];
    forall other | IsPerfect(other, n)
      ensures TwiceCost(CostOf(costmatrix, n), best) <= TwiceCost(CostOf(costmatrix, n), other)
    {
      CheapestForCosts(n, slack, lowered, shift, best, other);
      SameCost(slack, costmatrix, n, best);
      SameCost(slack, costmatrix, n, other);
    }
    MakeOptimum(costmatrix, n, obj, best);
  }

  lemma NoLabels(kind: seq<int>, n: nat)
    requires kind == seq(2 * n, _ => UNLABELED)
    ensures Labels(kind, n)
  {
  }

  lemma MakeOptimum(weights: seq<real>, n: nat, value: real, best: seq<int>)
    requires IsPerfect(best, n) && 2.0 * value == TwiceCost(CostOf(weights, n), best)
    requires forall other :: IsPerfect(other, n) ==>
      TwiceCost(CostOf(weights, n), best) <= TwiceCost(CostOf(weights, n), other)
    ensures IsOptimum(weights, n, value)
  {
  }

  /** All coordinates are whole multiples of the unit. */
  ghost predicate PointsInUnits(points: seq<Point>, unit: real) {
    forall i :: 0 <= i < |points| ==>
      Multiple(points[i].x, unit) && Multiple(points[i].y, unit) && Multiple(points[i].z, unit)
  }

  lemma TimesTimes(a: int, b: int, unit: real)
    ensures Times(a, unit) * Times(b, unit) == Times(a * b, unit * unit)
  {
    assert (a as real) * (b as real) == (a * b) as real;
  }

  lemma MultipleSquare(x: real, y: real, unit: real)
    requires Multiple(x, unit) && Multiple(y, unit)
    ensures Multiple((x + y) * (x + y), unit * unit)
  {
    MultiplePlus(x, y, unit);
    var a :| x + y == Times(a, unit);
    TimesTimes(a, a, unit);
  }

  lemma WeightMultiple(a: Point, b: Point, unit: real)
    requires Multiple(a.x, unit) && Multiple(a.y, unit) && Multiple(a.z, unit) && Multiple(b.x, unit)
    requires Multiple(b.y, unit) && Multiple(b.z, unit)
    ensures Multiple(Weight(a, b), unit * unit)
  {
    MultipleSquare(a.x, b.x, unit);
    MultipleSquare(a.y, b.y, unit);
    MultipleSquare(a.z, b.z, unit);
    hide Multiple;
    var dx, dy, dz := a.x + b.x, a.y + b.y, a.z + b.z;
    ThreeMultiples(dx * dx, dy * dy, dz * dz, unit * unit);
  }

  lemma ThreeMultiples(x: real, y: real, z: real, unit: real)
    requires Multiple(x, unit) && Multiple(y, unit) && Multiple(z, unit)
    ensures Multiple(x + y + z, unit)
  {
    MultiplePlus(x, y, unit);
    MultiplePlus(x + y, z, unit);
  }

  lemma WeightsInUnits(weights: seq<real>, points: seq<Point>, unit: real)
    requires HoldsWeights(weights, points) && |weights| == |points| * |points| && PointsInUnits(points, unit)
    ensures CostsInUnits(weights, |points|, unit * unit)
  {
    hide Weight, CostOf, Multiple;
    var n := |points|;
    forall u, v | 0 <= u < n && 0 <= v < n && u != v
      ensures Multiple(CostOf(weights, n)(u, v), unit * unit)
    {
      WeightMultiple(points[u], points[v], unit);
    }
  }

  lemma PositiveProduct(x: real, y: real) returns (product: real)
    requires x > 0.0 && y > 0.0
    ensures product == x * y && product > 0.0
  {
    product := x * y;
  }

  /** Every binary number with exponents from `least` on is a multiple of one unit: for binary64 that is 2^-1074. */
  lemma BinaryInUnits(mantissa: int, exponent: int, least: int)
    requires exponent >= least
    ensures Multiple(Times(mantissa, Two(exponent)), Two(least)) && Two(least) > 0.0
  {
    hide *;
    TwoPos(least);
    TwoAdd(exponent - least, least);
    TwoIsPow(exponent - least);
    TimesIs(Pow(2, exponent - least), Two(least));
    TimesAgain(mantissa, Pow(2, exponent - least), Two(least));
    MultipleBy(mantissa * Pow(2, exponent - least), Two(least));
  }

  lemma TimesIs(k: int, unit: real)
    ensures Times(k, unit) == (k as real) * unit
  {
  }

  lemma MultipleBy(k: int, unit: real)
    ensures Multiple(Times(k, unit), unit)
  {
  }

  lemma TimesAgain(a: int, b: int, unit: real)
    ensures Times(a, Times(b, unit)) == Times(a * b, unit)
  {
    assert (a as real) * (b as real) == (a * b) as real;
  }

  /** The whole calculation: the greedy value or the solver's is the optimum over all perfect matchings of the
      points. It is zero exactly if the points can be paired with their opposites. */
  method CalculateMwmCsp(points: seq<Point>, weights: array<real>, ghost unit: real) returns (value: real)
    requires |points| % 2 == 0 && weights.Length == |points| * |points| && unit > 0.0 && PointsInUnits(points, unit)
    modifies weights
    ensures HoldsWeights(weights[..], points) && IsOptimum(weights[..], |points|, value)
    ensures MostSymmetric(points, value)
    ensures value == 0.0 <==> exists partner :: Opposites(points, partner)
  {
    hide HoldsWeights, IsOptimum, MostSymmetric, Opposites, CostOf, PointsInUnits, CostsInUnits, NearestPartners,
      TwiceCost, IsPerfect, Multiple;
    FillWeights(points, weights);
    var bound, matching, pair := GreedyEdgeAssignment(|points|, weights);
    if matching {
      GreedyIsOptimal(weights[..], |points|, pair, bound);
      OptimumIsSymmetric(points, weights[..], bound);
      return bound;
    }
    WeightsSymmetric(weights[..], points);
    WeightsInUnits(weights[..], points, unit);
    ghost var square := PositiveProduct(unit, unit);
    var res;
    ghost var best;
    value, res, best := MinimumCostPerfectMatching(|points|, weights[..], square);
    OptimumIsSymmetric(points, weights[..], value);
  }

  lemma WeightsSymmetric(weights: seq<real>, points: seq<Point>)
    requires HoldsWeights(weights, points) && |weights| == |points| * |points|
    ensures Symmetric(weights, |points|)
  {
    hide Weight, CostOf;
    var n := |points|;
    forall u, v | 0 <= u < n && 0 <= v < n && u != v
      ensures CostOf(weights, n)(u, v) == CostOf(weights, n)(v, u)
    {
      WeightSymmetric(points[u], points[v]);
    }
  }
}
