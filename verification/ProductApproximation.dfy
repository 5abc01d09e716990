/** 128-bit products from 64-bit words, and the product with a 128-bit power of five. */
module ProductApproximation {
  import opened Powers
  import opened MachineWords

  datatype Value128 = Value128(low: U64, high: U64)

  function Wide(v: Value128): nat {
    v.high * TWO_TO_64 + v.low
  }

  /** A product under a name of its own, so that proofs can leave it alone. */
  function Prod(x: int, y: int): int {
    x * y
  }

  /** The product of two 32-bit words fits 64 bits. */
  function Emulu(x: U32, y: U32): (p: U64)
    ensures p == Prod(x, y)
  {
    ProductBelow(x, y, TWO_TO_32 - 1, TWO_TO_32 - 1);
    x * y
  }

  lemma ProductBelow(x: int, y: int, p: int, q: int)
    requires 0 <= x <= p && 0 <= y <= q
    ensures 0 <= x * y <= p * q
  {
    assert x * y <= p * y;
    assert p * y <= p * q;
  }

  function High32(x: U64): U32 { x / TWO_TO_32 }

  function Low32(x: U64): U32 { x % TWO_TO_32 }

  function Carry(c: bool): int {
    if c then 1 else 0
  }

  /** The schoolbook product of two pairs of 32-bit words. */
  lemma Halves(a: int, b: int, c: int, d: int)
    ensures Prod(a * TWO_TO_32 + b, c * TWO_TO_32 + d) == Prod(a, c) * TWO_TO_64 + (Prod(a, d) + Prod(b,
      c)) * TWO_TO_32 + Prod(b, d)
  {
    assert (a * TWO_TO_32 + b) * (c * TWO_TO_32 + d) == (a * TWO_TO_32) * (c * TWO_TO_32)
      + (a * TWO_TO_32) * d + b * (c * TWO_TO_32) + b * d;
    assert (a * TWO_TO_32) * (c * TWO_TO_32) == (a * c) * TWO_TO_64;
  }

  /** A carry out of 64 bits shows as a sum below one of the terms. */
  lemma CarryShows(x: U64, y: U64)
    ensures Wrap64(x + y) + Carry(Wrap64(x + y) < x) * TWO_TO_64 == x + y
  {
  }

  /** The high part has room for all carries. */
  lemma HighFits(hi: int, lo: int, product: int)
    requires hi * TWO_TO_64 + lo == product && 0 <= lo < TWO_TO_64 && 0 <= product < TWO_TO_64 * TWO_TO_64
    ensures 0 <= hi < TWO_TO_64
  {
  }

  /** The full product of two 64-bit words from four products of 32-bit words. */
  method Umul128(ab: U64, cd: U64) returns (lo: U64, hi: U64)
    ensures hi * TWO_TO_64 + lo == ab * cd
  {
    hide Prod, Wrap64, High32, Low32, Carry;
    var a, b, c, d := High32(ab), Low32(ab), High32(cd), Low32(cd);
    var ad := Emulu(a, d);
    var bd := Emulu(b, d);
    var bc := Emulu(b, c);
    var adbc := Wrap64(ad + bc);
    var adbcCarry := Carry(adbc < ad);
    CarryShows(ad, bc);
    var shifted := Wrap64(adbc * TWO_TO_32);
    lo := Wrap64(bd as int + shifted as int);
    CarryShows(bd, shifted);
    var ac := Emulu(a, c);
    var sum := ac + High32(adbc) + adbcCarry * TWO_TO_32 + Carry(lo < bd);
    Halves(a, b, c, d);
    ShiftSplits(adbc);
    ghost var product := ProductOf(ab, cd);
    Assemble(ac, ad, bc, bd, adbc, adbcCarry, shifted, lo, sum, product);
    HighFits(sum, lo, product);
    hi := sum;
  }

  lemma ProductOf(ab: U64, cd: U64) returns (product: int)
    ensures product == ab * cd && product == Prod(ab, cd) && 0 <= product < TWO_TO_64 * TWO_TO_64
    ensures product == Prod(High32(ab) * TWO_TO_32 + Low32(ab), High32(cd) * TWO_TO_32 + Low32(cd))
  {
    ProductBelow(ab, cd, TWO_TO_64 - 1, TWO_TO_64 - 1);
    product := ab * cd;
    assert High32(ab) * TWO_TO_32 + Low32(ab) == ab && High32(cd) * TWO_TO_32 + Low32(cd) == cd;
  }

  lemma ShiftSplits(x: U64)
    ensures x * TWO_TO_32 == High32(x) * TWO_TO_64 + Wrap64(x * TWO_TO_32)
  {
  }

  lemma Assemble(ac: int, ad: int, bc: int, bd: U64, adbc: U64, carry: int, shifted: U64, lo: U64, hi: int,
                 product: int)
    requires adbc + carry * TWO_TO_64 == ad + bc
    requires adbc * TWO_TO_32 == High32(adbc) * TWO_TO_64 + shifted
    requires lo + Carry(lo < bd) * TWO_TO_64 == bd + shifted
    requires hi == ac + High32(adbc) + carry * TWO_TO_32 + Carry(lo < bd)
    requires product == ac * TWO_TO_64 + (ad + bc) * TWO_TO_32 + bd
    ensures hi * TWO_TO_64 + lo == product
  {
  }

  method FullMultiplication(a: U64, b: U64) returns (v: Value128)
    ensures Wide(v) == a * b
  {
    var lo, hi := Umul128(a, b);
    v := Value128(lo, hi);
  }

  /** The ones that the bits below the precision fill. */
  function PrecisionMask(precision: nat): U64
    requires precision <= 64
  {
    if precision < 64 then MaskBelow(64 - precision); Pow(2, 64 - precision) - 1 else TWO_TO_64 - 1
  }

  lemma TwoTo64()
    ensures Pow(2, 64) == TWO_TO_64
  {
    assert Pow(2, 8) == 0x100;
    PowAdd(2, 8, 8);
    PowAdd(2, 16, 16);
    PowAdd(2, 32, 32);
  }

  lemma MaskBelow(k: nat)
    requires k <= 64
    ensures 1 <= Pow(2, k) <= TWO_TO_64
  {
    PowPos(2, k);
    PowMono(2, k, 64);
    TwoTo64();
  }

  /** A mask of ones keeps the remainder. */
  lemma {:induction false} MaskIsRemainder(x: nat, k: nat)
    ensures Pow(2, k) >= 1 && BitAnd(x, Pow(2, k) - 1) == x % Pow(2, k)
  {
    hide Pow, BitAnd;
    PowPos(2, k);
    if k > 0 {
      PowPos(2, k - 1);
      var p := Pow(2, k - 1);
      PowStep(2, k - 1);
      MaskIsRemainder(x / 2, k - 1);
      AndHalf(x, 2 * p - 1);
      MaskHalf(p);
      HalfRemainder(x, p);
    } else {
      PowZero(2);
      BitAndZero(x);
    }
  }

  lemma MaskHalf(p: int)
    requires p >= 1
    ensures (2 * p - 1) % 2 == 1 && (2 * p - 1) / 2 == p - 1
  {
  }

  lemma HalfRemainder(x: nat, p: int)
    requires p >= 1
    ensures x % (2 * p) == x % 2 + 2 * ((x / 2) % p)
  {
    var q, r := (x / 2) / p, (x / 2) % p;
    assert x == 2 * (p * q + r) + x % 2;
    assert 2 * (p * q) == (2 * p) * q;
    RemainderOf(x, 2 * p, q, x % 2 + 2 * r);
  }

  lemma RemainderOf(x: int, m: int, q: int, r: int)
    requires m >= 1 && x == m * q + r && 0 <= r < m
    ensures x % m == r && x / m == q
  {
    var d := x / m - q;
    assert m * d == r - x % m by {
      assert m * d == m * (x / m) - m * q;
    }
    assert d >= 1 ==> m * d >= m;
    assert d <= -1 ==> m * d <= -m;
  }

  /** The 192-bit product of w with a 128-bit table entry, without its lowest word. */
  function Exact(w: U64, t: Value128): nat {
    (w * Wide(t)) / TWO_TO_64
  }

  lemma ExactSplits(w: U64, t: Value128)
    ensures Exact(w, t) == w * t.high + (w * t.low) / TWO_TO_64
    ensures 0 <= (w * t.low) / TWO_TO_64 < TWO_TO_64 - 1 && Exact(w, t) < TWO_TO_64 * TWO_TO_64
    ensures t.low == 0 ==> Exact(w, t) == w * t.high
  {
    ProductBelow(w, t.low, TWO_TO_64 - 1, TWO_TO_64 - 1);
    ProductBelow(w, t.high, TWO_TO_64 - 1, TWO_TO_64 - 1);
    assert w * Wide(t) == (w * t.high) * TWO_TO_64 + w * t.low by {
      assert w * (t.high * TWO_TO_64) == (w * t.high) * TWO_TO_64;
    }
    var x := w * t.low;
    assert x / TWO_TO_64 < TWO_TO_64 - 1;
  }

  /** The first `precision` bits of the product. */
  function TopBits(v: nat, precision: nat): nat
    requires precision <= 64
  {
    MaskBelow(64 - precision);
    (v / TWO_TO_64) / Pow(2, 64 - precision)
  }

  /** The bits below the precision are all ones; with 64 bits of precision, all bits. */
  predicate AllOnes(high: nat, precision: nat)
    requires precision <= 64
  {
    PowPos(2, 64 - precision);
    if precision < 64 then high % Pow(2, 64 - precision) == Pow(2, 64 - precision) - 1 else high == TWO_TO_64 - 1
  }

  /** A mask of ones is met exactly by ones. */
  lemma MaskMet(high: U64, precision: nat)
    requires precision <= 64
    ensures BitAnd(high, PrecisionMask(precision)) == PrecisionMask(precision) <==> AllOnes(high, precision)
  {
    hide Pow, BitAnd;
    TwoTo64();
    MaskBelow(64 - precision);
    if precision < 64 {
      MaskIsRemainder(high, 64 - precision);
    } else {
      MaskIsRemainder(high, 64);
      WordRemainder(high);
    }
  }

  lemma WordRemainder(x: U64)
    ensures x % TWO_TO_64 == x
  {
  }

  /** The product of w with the first word of a table entry, corrected with the second when the bits below
      the precision are all ones. */
  method ComputeProductApproximation(precision: nat, t: Value128, w: U64) returns (product: Value128, corrected: bool)
    requires precision <= 64
    ensures corrected ==> Wide(product) == Exact(w, t)
    ensures precision < 64 ==> TopBits(Wide(product), precision) == TopBits(Exact(w, t), precision)
    ensures Wide(product) <= Exact(w, t) < Wide(product) + TWO_TO_64
    ensures precision < 64 && !(corrected && product.low == U64_MAX) ==>
      TopBits(Exact(w, t) + 1, precision) == TopBits(Wide(product), precision)
    ensures !corrected || t.low == 0 ==> Wide(product) == w * t.high
    ensures corrected <==> AllOnes(w * t.high / TWO_TO_64, precision)
  {
    hide Pow, BitAnd, AllOnes, PrecisionMask;
    ExactSplits(w, t);
    product := FullMultiplication(w, t.high);
    ghost var first := product;
    corrected := BitAnd(product.high, PrecisionMask(precision)) == PrecisionMask(precision);
    MaskMet(product.high, precision);
    WideParts(product);
    if corrected {
      var second := FullMultiplication(w, t.low);
      WideParts(second);
      CarryShows(product.low, second.high);
      var low := Wrap64(product.low + second.high);
      CarryEither(product.low, second.high);
      if second.high > low {
        SumFits(product.high, low, Exact(w, t));
        product := Value128(low, product.high + 1);
      } else {
        product := Value128(low, product.high);
      }
      MaskBelow(64 - precision);
      NextTop(product, Pow(2, 64 - precision));
    } else {
      if precision < 64 {
        MaskBelow(64 - precision);
        NotAllOnes(first.high, precision);
        SameTop(first, (w * t.low) / TWO_TO_64, Pow(2, 64 - precision));
        SameTop(first, (w * t.low) / TWO_TO_64 + 1, Pow(2, 64 - precision));
      }
    }
  }

  lemma NotAllOnes(high: U64, precision: nat)
    requires precision < 64 && !AllOnes(high, precision)
    ensures Pow(2, 64 - precision) >= 1 && high % Pow(2, 64 - precision) != Pow(2, 64 - precision) - 1
  {
    PowPos(2, 64 - precision);
  }

  lemma WideParts(v: Value128)
    ensures Wide(v) / TWO_TO_64 == v.high
  {
  }

  /** The sum is below either term or below neither. */
  lemma CarryEither(x: U64, y: U64)
    ensures Wrap64(x + y) < x <==> y > Wrap64(x + y)
  {
  }

  lemma SumFits(high: U64, low: U64, exact: nat)
    requires exact == (high + 1) * TWO_TO_64 + low && exact < TWO_TO_64 * TWO_TO_64
    ensures high + 1 < TWO_TO_64
  {
  }

  /** One more changes no bit of the high word unless the low word is all ones. */
  lemma NextTop(v: Value128, p: int)
    requires p >= 1
    ensures v.low != U64_MAX ==> ((Wide(v) + 1) / TWO_TO_64) / p == (Wide(v) / TWO_TO_64) / p
  {
  }

  /** Adding less than one unit of the high word changes no bit above a bit that is not one. */
  lemma SameTop(first: Value128, s: int, p: int)
    requires p >= 1 && 0 <= s < TWO_TO_64 && first.high % p != p - 1
    ensures ((Wide(first) + s) / TWO_TO_64) / p == (Wide(first) / TWO_TO_64) / p
  {
    WideParts(first);
    var h := first.high;
    assert (Wide(first) + s) / TWO_TO_64 == h || (Wide(first) + s) / TWO_TO_64 == h + 1;
    var q, r := h / p, h % p;
    assert h == p * q + r;
    RemainderOf(h + 1, p, q, r + 1);
  }

  /** With a precision of 64 bits the correction can be missed: the mask is then all ones, not empty. */
  lemma FullPrecisionMisses()
    ensures PrecisionMask(64) == TWO_TO_64 - 1
    ensures var w: U64 := TWO_TO_64 - 1; var t := Value128(TWO_TO_64 - 1, 1);
      && BitAnd(Wide(Value128(TWO_TO_64 - 1, 0)) / TWO_TO_64, PrecisionMask(64)) != PrecisionMask(64)
      && w * t.high == Wide(Value128(TWO_TO_64 - 1, 0))
      && TopBits(Exact(w, t), 64) == 1 && TopBits(w * t.high, 64) == 0
  {
    var w: U64 := TWO_TO_64 - 1;
    var t := Value128(TWO_TO_64 - 1, 1);
    ExactSplits(w, t);
    assert (w * t.low) / TWO_TO_64 == TWO_TO_64 - 2;
    assert BitAnd(0, TWO_TO_64 - 1) == 0;
    assert Pow(2, 0) == 1;
  }
}
