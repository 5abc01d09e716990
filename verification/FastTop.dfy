/** The leading bits of the product with a table entry are those of the exact product with a power of five. */
module FastTop {
  import opened Powers
  import opened MachineWords
  import opened ProductApproximation
  import opened FastTable
  import opened FastConversion

  /** What is known of the product of w with a table entry. */
  ghost predicate Approximates(precision: nat, t: Value128, w: U64, product: Value128, corrected: bool) {
    && precision < 64
    && (corrected ==> Wide(product) == Exact(w, t))
    && TopBits(Wide(product), precision) == TopBits(Exact(w, t), precision)
    && Wide(product) <= Exact(w, t) < Wide(product) + TWO_TO_64
    && (!(corrected && product.low == U64_MAX) ==>
        TopBits(Exact(w, t) + 1, precision) == TopBits(Wide(product), precision))
    && (!corrected || t.low == 0 ==> Wide(product) == w * t.high)
  }

  lemma DivDiv(x: int, a: int, b: int)
    requires a > 0 && b > 0 && x >= 0
    ensures a * b > 0 && (x / a) / b == x / (a * b)
  {
    MulMonoStrict(a, 0, b);
    var q := (x / a) / b;
    var r, s := x % a, (x / a) % b;
    assert x / a == b * q + s;
    assert x == a * (x / a) + r;
    assert a * (b * q + s) == (a * b) * q + a * s by {
      MulSwap(a, b, q);
      assert a * (b * q + s) == a * (b * q) + a * s;
    }
    MulMono(a, s, b - 1);
    assert a * (b - 1) == a * b - a;
    MulMono(a, 0, s);
    RemainderOf(x, a * b, q, a * s + r);
  }

  lemma DivMono(x: int, y: int, d: int)
    requires d > 0 && x <= y
    ensures x / d <= y / d
  {
    if x / d > y / d {
      MulMono(d, y / d + 1, x / d);
    }
  }

  lemma DivBetween(x: int, d: int, k: int, l: int)
    requires d > 0 && k * d <= x < l * d
    ensures k <= x / d < l
  {
    if x / d < k {
      MulMono(d, x / d + 1, k);
    }
    if x / d >= l {
      MulMono(d, l, x / d);
    }
  }

  /** The place value of the bits that the precision keeps, in the product of 192 bits. */
  function Unit(precision: nat): (s: nat)
    requires precision < 64
    ensures s > 0
  {
    PowPos(2, 192 - precision);
    Pow(2, 192 - precision)
  }

  lemma UnitParts(precision: nat)
    requires precision < 64
    ensures Pow(2, 64 - precision) > 0 && Unit(precision) == TWO_TO_64 * (TWO_TO_64 * Pow(2, 64 - precision))
    ensures Unit(precision) == Pow(2, 127) * Pow(2, 65 - precision)
  {
    hide Pow;
    TwoTo64();
    PowPos(2, 64 - precision);
    PowAdd(2, 64, 64 - precision);
    PowAdd(2, 64, 128 - precision);
    PowAdd(2, 127, 65 - precision);
  }

  /** The leading bits of a product of 192 bits. */
  lemma TopOf(z: nat, precision: nat)
    requires precision < 64
    ensures TopBits(z / TWO_TO_64, precision) == z / Unit(precision)
  {
    UnitParts(precision);
    hide Pow;
    var g := Pow(2, 64 - precision);
    DivDiv(z / TWO_TO_64, TWO_TO_64, g);
    DivDiv(z, TWO_TO_64, TWO_TO_64 * g);
  }

  lemma TopMono(x: nat, y: nat, precision: nat)
    requires precision < 64 && x <= y
    ensures TopBits(x, precision) <= TopBits(y, precision)
  {
    PowPos(2, 64 - precision);
    hide Pow;
    DivMono(x, y, TWO_TO_64);
    DivMono(x / TWO_TO_64, y / TWO_TO_64, Pow(2, 64 - precision));
  }

  /** Entries that are rounded down: the exact product is less than one word above the one with the entry. */
  lemma TopFloor(q: int, w: U64, t: Value128, product: Value128, corrected: bool, precision: nat)
    requires IsEntry(q, t) && !RoundedUp(q) && Approximates(precision, t, w, product, corrected)
    requires product.low != U64_MAX
    ensures TopBits(Wide(product), precision) == (w * Num(q)) / (Den(q) * Unit(precision))
  {
    hide Pow, Num, Den, Wide, TopBits, Unit, IsEntry;
    var d := Den(q);
    EntryBracket(q, t);
    var z := (w * Num(q)) / d;
    MulMono(w, 0, Num(q));
    QuotientBracket(w, Wide(t), d, Num(q), z);
    NextWord(w * Wide(t), z, w);
    DivDiv(w * Num(q), d, Unit(precision));
    TopOf(z, precision);
    TopMono(Exact(w, t), z / TWO_TO_64, precision);
    TopMono(z / TWO_TO_64, Exact(w, t) + 1, precision);
  }

  lemma QuotientBracket(w: int, t: int, d: int, n: int, z: int)
    requires d > 0 && w >= 0 && t * d <= n < (t + 1) * d && z == (w * n) / d
    ensures w * t <= z && (w > 0 ==> z < w * t + w) && (w == 0 ==> z == w * t)
  {
    MulMono(w, t * d, n);
    MulSwap(w, t, d);
    MulSwap(w, t + 1, d);
    assert w * (t + 1) == w * t + w;
    if w > 0 {
      MulMonoStrict(w, n, (t + 1) * d);
      DivBetween(w * n, d, w * t, w * (t + 1));
    } else {
      assert w * n == 0;
    }
  }

  lemma NextWord(a: int, z: int, w: U64)
    requires 0 <= a <= z && (w > 0 ==> z < a + w) && (w == 0 ==> z == a)
    ensures a / TWO_TO_64 <= z / TWO_TO_64 <= a / TWO_TO_64 + 1
  {
  }

  /** Entries without an error. */
  lemma TopExact(q: int, w: U64, t: Value128, product: Value128, corrected: bool, precision: nat)
    requires IsEntry(q, t) && q >= 0 && Scale(q) >= 0 && Approximates(precision, t, w, product, corrected)
    ensures TopBits(Wide(product), precision) == (w * Num(q)) / (Den(q) * Unit(precision))
  {
    hide Pow, Num, Den, Wide, TopBits, Unit;
    PositiveScale(q);
    MulMono(w, 0, Num(q));
    TopOf(w * Num(q), precision);
  }

  lemma FivePower27()
    ensures forall p: nat :: p <= 27 ==> Pow(5, p) < Pow(2, 63)
  {
    assert Pow(5, 9) == 1953125 && Pow(2, 9) == 512;
    hide Pow;
    PowAdd(5, 9, 9);
    PowAdd(5, 18, 9);
    PowAdd(2, 9, 9);
    PowAdd(2, 18, 18);
    PowAdd(2, 36, 27);
    PowAdd(2, 18, 9);
    forall p: nat | p <= 27
      ensures Pow(5, p) < Pow(2, 63)
    {
      PowMono(5, p, 27);
    }
  }

  /** A difference of two multiples of a large number is large or not positive. */
  lemma Gap(a: int, b: int, p: int, bound: int)
    requires p >= bound && p > 0 && a * p - b * p < bound
    ensures a * p - b * p <= 0
  {
    if a > b {
      MulMono(p, b + 1, a);
    }
  }

  /** Entries of reciprocals that are rounded up: no multiple of the unit lies in between. */
  lemma TopCeil(q: int, w: U64, t: Value128, product: Value128, corrected: bool, precision: nat)
    requires IsEntry(q, t) && RoundedUp(q) && Approximates(precision, t, w, product, corrected)
    ensures TopBits(Wide(product), precision) == (w * Num(q)) / (Den(q) * Unit(precision))
  {
    hide Pow, Num, Den, Wide, TopBits, Unit, IsEntry;
    var d, n, s, j := Den(q), Num(q), Unit(precision), (w * Wide(t)) / Unit(precision);
    EntryBracket(q, t);
    MulMono(w, 0, n);
    MulMono(w, 0, Wide(t));
    TopOf(w * Wide(t), precision);
    MulMono(w, n, Wide(t) * d);
    MulSwap(w, Wide(t), d);
    DivDiv(w * n, d, s);
    MulSwap(w, 1, n);
    BelowQuotient(w * n, w * Wide(t), d);
    DivMono((w * n) / d, w * Wide(t), s);
    MultipleBelow(q, w, t, precision, j);
    DivAtLeast(w * n, d * s, j);
  }

  lemma BelowQuotient(x: int, y: int, d: int)
    requires d > 0 && x <= y * d
    ensures x / d <= y
  {
    if x / d > y {
      MulMono(d, y + 1, x / d);
    }
  }

  lemma DivAtLeast(x: int, d: int, j: int)
    requires d > 0 && j * d <= x
    ensures x / d >= j
  {
    if x / d < j {
      MulMono(d, x / d + 1, j);
    }
  }

  lemma MultipleBelow(q: int, w: U64, t: Value128, precision: nat, j: int)
    requires IsEntry(q, t) && RoundedUp(q) && precision < 64 && j == (w * Wide(t)) / Unit(precision)
    ensures j * (Den(q) * Unit(precision)) <= w * Num(q)
  {
    hide Pow, Num, Den, Wide, Unit, IsEntry;
    EntryBracket(q, t);
    NegativeScale(q);
    UnitParts(precision);
    FivePower27();
    TwoTo64();
    PowPos(2, 127);
    PowAdd(2, 63, 64);
    PowAdd(2, 127, Scale(q) - 127);
    MulMono(TWO_TO_64, Den(q), Pow(2, 63));
    FloorMultiple(w * Wide(t), Unit(precision), j);
    CeilGap(w, Wide(t), Den(q), Num(q));
    NoneBetween(w, Wide(t), Den(q), Num(q), Unit(precision), j, Pow(2, 127), Pow(2, 65 - precision),
      Pow(2, Scale(q) - 127));
  }

  lemma NoneBetween(w: int, t: int, d: int, n: int, s: int, j: int, p: int, a: int, b: int)
    requires d > 0 && p > 0 && s == p * a && n == p * b && j * s <= w * t
    requires d * (w * t) - w * n < p
    ensures j * (d * s) <= w * n
  {
    MulMono(d, j * s, w * t);
    MulSwap(j, d, s);
    assert d * (j * s) == j * (d * s) by { MulSwap(d, j, s); }
    Regrouped(j * d, p, a);
    Regrouped(w, p, b);
    Gap((j * d) * a, w * b, p, p);
  }

  lemma Regrouped(x: int, p: int, a: int)
    ensures x * (p * a) == (x * a) * p
  {
    MulSwap(x, p, a);
    MulSwap(p, x, a);
  }

  lemma FloorMultiple(x: int, s: int, j: int)
    requires s > 0 && j == x / s
    ensures j * s <= x
  {
  }

  lemma CeilGap(w: U64, t: int, d: int, n: int)
    requires d > 0 && (t - 1) * d <= n
    ensures d * (w * t) - w * n < TWO_TO_64 * d
  {
    MulMono(w, (t - 1) * d, n);
    MulSwap(w, t - 1, d);
    assert w * (t - 1) == w * t - w;
    assert (w * t - w) * d == (w * t) * d - w * d;
    MulMonoStrict(d, w, TWO_TO_64);
  }

  /** Up to 55 the power of five fits 128 bits. */
  lemma ExactScale(q: int)
    requires 0 <= q <= 55
    ensures Scale(q) >= 0
  {
  }

  /** The bits that are kept of a decided product are those of w * 5^q. */
  lemma TopRight(q: int, w: U64, t: Value128, product: Value128, corrected: bool, precision: nat)
    requires IsEntry(q, t) && Approximates(precision, t, w, product, corrected)
    requires product.low != U64_MAX || InsideSafe(q)
    ensures TopBits(Wide(product), precision) == (w * Num(q)) / (Den(q) * Unit(precision))
  {
    hide *;
    SafeCases(q);
    if RoundedUp(q) {
      TopCeil(q, w, t, product, corrected, precision);
    } else if 0 <= q <= 55 {
      ExactScale(q);
      TopExact(q, w, t, product, corrected, precision);
    } else {
      TopFloor(q, w, t, product, corrected, precision);
    }
  }

  lemma SafeCases(q: int)
    ensures InsideSafe(q) <==> RoundedUp(q) || 0 <= q <= 55
  {
  }
}
