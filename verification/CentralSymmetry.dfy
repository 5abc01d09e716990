/** What the value of the matching says about the points: how far they are from pairs of opposite points. */
module CentralSymmetry {
  import opened Sums
  import opened Duality
  import opened GreedyMatching

  function Product(x: real, y: real): real {
    x * y
  }

  function Square(x: real): real {
    Product(x, x)
  }

  /** Over all pairs of partners among the first k points, each pair once: the squares of the sums of their
      coordinates. */
  function Asymmetry(points: seq<Point>, partner: seq<int>, k: nat): real
    requires IsPerfect(partner, |points|) && k <= |points|
  {
    if k == 0 then 0.0
    else
      var i, j := k - 1, partner[k - 1];
      Asymmetry(points, partner, k - 1) +
      if j < i then
        Square(points[i].x + points[j].x) + Square(points[i].y + points[j].y) + Square(points[i].z + points[j].z)
      else 0.0
  }

  predicate Opposite(a: Point, b: Point) {
    a.x == -b.x && a.y == -b.y && a.z == -b.z
  }

  /** Every point and its partner are opposite. */
  ghost predicate Opposites(points: seq<Point>, partner: seq<int>) {
    IsPerfect(partner, |points|) &&
    forall i :: 0 <= i < |points| ==>
      Opposite(points[partner[i]], points[i])
  }

  lemma ProductSign(x: real, y: real)
    ensures (x > 0.0 && y > 0.0) || (x < 0.0 && y < 0.0) ==> Product(x, y) > 0.0
    ensures x == 0.0 ==> Product(x, y) == 0.0
  {
  }

  lemma SquareSign(x: real)
    ensures Square(x) >= 0.0 && (Square(x) == 0.0 <==> x == 0.0)
  {
    hide Product;
    ProductSign(x, x);
  }

  /** There is nothing to add up exactly if the points are partners of their opposites. */
  lemma {:induction false} AsymmetryZero(points: seq<Point>, partner: seq<int>, k: nat)
    requires IsPerfect(partner, |points|) && k <= |points|
    ensures Asymmetry(points, partner, k) >= 0.0
    ensures Asymmetry(points, partner, k) == 0.0 <==>
      forall i :: 0 <= i < k && partner[i] < i ==>
        Opposite(points[partner[i]], points[i])
  {
    hide Square;
    if k > 0 {
      var i, j := k - 1, partner[k - 1];
      AsymmetryZero(points, partner, k - 1);
      if j < i {
        SquareSign(points[i].x + points[j].x);
        SquareSign(points[i].y + points[j].y);
        SquareSign(points[i].z + points[j].z);
      }
    }
  }

  lemma NoAsymmetry(points: seq<Point>, partner: seq<int>)
    requires IsPerfect(partner, |points|)
    ensures Asymmetry(points, partner, |points|) == 0.0 <==> Opposites(points, partner)
    ensures Asymmetry(points, partner, |points|) >= 0.0
  {
    AsymmetryZero(points, partner, |points|);
    if Asymmetry(points, partner, |points|) == 0.0 {
      forall i | 0 <= i < |points|
        ensures Opposite(points[partner[i]], points[i])
      {
        var j := partner[i];
        assert partner[j] == i && j != i;
      }
    }
  }

  /** What a pair costs, at its later point. */
  function LaterCost(cost: (int, int) -> real, partner: seq<int>): int -> real {
    i => if 0 <= i < |partner| && partner[i] < i then cost(i, partner[i]) else 0.0
  }

  function EarlierCost(cost: (int, int) -> real, partner: seq<int>): int -> real {
    i => if 0 <= i < |partner| && partner[i] > i then cost(i, partner[i]) else 0.0
  }

  /** The cost of a pair, at its later point in the rows and at its earlier one in the columns. */
  function PairTable(cost: (int, int) -> real, partner: seq<int>): (int, int) -> real {
    (i, j) => if 0 <= i < |partner| && partner[i] == j && j < i then cost(i, j) else 0.0
  }

  /** Both points of a pair pay the same. */
  lemma PairsTwice(cost: (int, int) -> real, partner: seq<int>, n: nat)
    requires IsPerfect(partner, n) && forall u, v :: 0 <= u < n && 0 <= v < n && u != v ==> cost(u, v) == cost(v, u)
    ensures TwiceCost(cost, partner) == 2.0 * Sum(LaterCost(cost, partner), n)
  {
    hide Sum;
    var h := PairTable(cost, partner);
    SumSwap(h, n, n);
    forall i | 0 <= i < n
      ensures RowSums(h, n)(i) == LaterCost(cost, partner)(i)
    {
      SumSingle(Row(h, i), partner[i], n);
    }
    forall j | 0 <= j < n
      ensures ColumnSums(h, n)(j) == EarlierCost(cost, partner)(j)
    {
      SumSingle(Column(h, j), partner[j], n);
    }
    SumEqual(RowSums(h, n), LaterCost(cost, partner), n);
    SumEqual(ColumnSums(h, n), EarlierCost(cost, partner), n);
    SumPlus(LaterCost(cost, partner), EarlierCost(cost, partner), CostAt(cost, partner), n);
  }

  lemma PairWeight(points: seq<Point>, weights: seq<real>, i: int, j: int)
    requires HoldsWeights(weights, points) && 0 <= i < |points| && 0 <= j < |points| && i != j
    ensures CostOf(weights, |points|)(i, j) ==
      Square(points[i].x + points[j].x) + Square(points[i].y + points[j].y) + Square(points[i].z + points[j].z)
  {
    hide CostOf;
  }

  /** The costs of the weights add up to the asymmetry. */
  lemma {:induction false} WeightsAddUp(points: seq<Point>, weights: seq<real>, partner: seq<int>, k: nat)
    requires IsPerfect(partner, |points|) && HoldsWeights(weights, points) && k <= |points|
    ensures Sum(LaterCost(CostOf(weights, |points|), partner), k) == Asymmetry(points, partner, k)
  {
    hide HoldsWeights, CostOf, Square;
    if k > 0 {
      WeightsAddUp(points, weights, partner, k - 1);
      var i, j := k - 1, partner[k - 1];
      if j < i {
        PairWeight(points, weights, i, j);
      }
    }
  }

  lemma CostIsAsymmetry(points: seq<Point>, weights: seq<real>, partner: seq<int>)
    requires IsPerfect(partner, |points|) && HoldsWeights(weights, points)
    ensures TwiceCost(CostOf(weights, |points|), partner) == 2.0 * Asymmetry(points, partner, |points|)
  {
    var n := |points|;
    var cost := CostOf(weights, n);
    forall u, v | 0 <= u < n && 0 <= v < n && u != v
      ensures cost(u, v) == cost(v, u)
    {
      WeightSymmetric(points[u], points[v]);
    }
    hide CostOf, TwiceCost, HoldsWeights, Weight;
    PairsTwice(cost, partner, n);
    WeightsAddUp(points, weights, partner, n);
  }

  /** The value is that of the most symmetric pairing of the points. */
  ghost predicate MostSymmetric(points: seq<Point>, value: real) {
    (exists best :: IsPerfect(best, |points|) && value == Asymmetry(points, best, |points|)) &&
    forall other :: IsPerfect(other, |points|) ==> value <= Asymmetry(points, other, |points|)
  }

  lemma OptimumIsSymmetric(points: seq<Point>, weights: seq<real>, value: real)
    requires HoldsWeights(weights, points) && IsOptimum(weights, |points|, value)
    ensures MostSymmetric(points, value)
    ensures value == 0.0 <==> exists partner :: Opposites(points, partner)
  {
    hide HoldsWeights, CostOf, TwiceCost, Asymmetry;
    var n := |points|;
    forall other | IsPerfect(other, n)
      ensures TwiceCost(CostOf(weights, n), other) == 2.0 * Asymmetry(points, other, n)
      ensures Asymmetry(points, other, n) == 0.0 <==> Opposites(points, other)
      ensures Asymmetry(points, other, n) >= 0.0
    {
      CostIsAsymmetry(points, weights, other);
      NoAsymmetry(points, other);
    }
    var best :| IsPerfect(best, n) && 2.0 * value == TwiceCost(CostOf(weights, n), best);
    assert value == Asymmetry(points, best, n);
  }
}
