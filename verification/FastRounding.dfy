/** compute_float(q, w): whenever it decides, its result is packed into the nearest value. */
module FastRounding {
  import opened Powers
  import opened Digits
  import opened MachineWords
  import opened Ieee754
  import opened Decimals
  import opened ProductApproximation
  import opened Packing
  import opened Conversion
  import opened PowerRange
  import opened FastTable
  import opened FastConversion
  import opened FastTop
  import opened FastTies

  /** The exponents that the table covers. */
  predicate InTable(q: int) {
    -342 <= q <= 308
  }

  // The bits that are kept ---------------------------------------------------------------------------------

  lemma TwoTo190(q: int)
    ensures Pow(2, 63) * (Pow(2, 127) * Den(q)) == Den(q) * Pow(2, 190)
  {
    hide Pow, Den;
    PowAdd(2, 63, 127);
    MulSwap(Pow(2, 63), Pow(2, 127), Den(q));
  }

  /** The product has at most one leading zero. */
  lemma ProductHigh(fmt: BinaryFormat, q: int, w: U64, high: U64)
    requires IsFormat(fmt) && InTable(q) && w >= Pow(2, 63)
    requires Shr(high, 61 - fmt.explicitBits) == (w * Num(q)) / (Den(q) * Unit(fmt.explicitBits + 3))
    ensures Shr(high, 61 - fmt.explicitBits) >= Pow(2, fmt.explicitBits + 1)
  {
    hide Pow, Num, Den;
    var bits := fmt.explicitBits;
    Normalised(q);
    PowPos(2, 63);
    MulMono(Pow(2, 63), Pow(2, 127) * Den(q), Num(q));
    MulMono(Num(q), Pow(2, 63), w);
    TwoTo190(q);
    PowAdd(2, bits + 1, 189 - bits);
    MulSwap(Pow(2, bits + 1), Den(q), Pow(2, 189 - bits));
    MulSwap(Den(q), Pow(2, bits + 1), Pow(2, 189 - bits));
    MulMonoStrict(Den(q), 0, Unit(bits + 3)) by { PowPos(2, 189 - bits); }
    DivAtLeast(w * Num(q), Den(q) * Unit(bits + 3), Pow(2, bits + 1));
  }

  /** What is kept of the product is the quotient of w * 5^q by the unit of the last bit kept, and has the bits
      of the fraction, the hidden bit and one more. */
  lemma KeptBits(fmt: BinaryFormat, q: int, w: U64, t: Value128, product: Value128, corrected: bool)
    requires IsFormat(fmt) && InTable(q) && w >= Pow(2, 63) && IsEntry(q, t)
    requires Approximates(fmt.explicitBits + 3, t, w, product, corrected)
    requires product.low != U64_MAX || InsideSafe(q)
    ensures var d := Dropped(fmt, product.high); var m := Shr(product.high, d);
      && Den(q) * Pow(2, 128 + d) > 0
      && m == (w * Num(q)) / (Den(q) * Pow(2, 128 + d))
      && Pow(2, fmt.explicitBits + 1) <= m < Pow(2, fmt.explicitBits + 2)
  {
    hide Pow, Num, Den, IsEntry, Approximates, TopBits, InsideSafe;
    var bits, high := fmt.explicitBits, product.high;
    var g := 61 - bits;
    var u := Upperbit(high);
    TopRight(q, w, t, product, corrected, bits + 3);
    TopOfWide(product, bits + 3);
    ProductHigh(fmt, q, w, high);
    ShiftBound(fmt, high);
    PowPos(2, g);
    PowPos(2, u);
    PowPos(2, 189 - bits);
    PowPos(2, 128 + g + u);
    PowAdd(2, g, u);
    PowAdd(2, 189 - bits, u);
    DivDiv(high, Pow(2, g), Pow(2, u));
    MulMono(Num(q), 0, w);
    MulMonoStrict(Den(q), 0, Pow(2, 189 - bits));
    MulMonoStrict(Den(q), 0, Pow(2, 128 + g + u));
    DivDiv(w * Num(q), Den(q) * Pow(2, 189 - bits), Pow(2, u));
    MulAssoc(Den(q), Pow(2, 189 - bits), Pow(2, u));
    PowStep(2, bits);
    PowStep(2, bits + 1);
    UpperLeads(fmt, high);
  }

  lemma MulAssoc(x: int, y: int, z: int)
    ensures (x * y) * z == x * (y * z)
  {
  }

  lemma UpperLeads(fmt: BinaryFormat, high: U64)
    requires IsFormat(fmt) && Shr(high, 61 - fmt.explicitBits) >= Pow(2, fmt.explicitBits + 1)
    ensures Shr(high, Dropped(fmt, high)) >= Pow(2, fmt.explicitBits + 1)
  {
    hide Pow;
    var bits := fmt.explicitBits;
    ShiftBound(fmt, high);
    if Upperbit(high) == 1 {
      PowPos(2, 63);
      PowPos(2, 62 - bits);
      PowAdd(2, bits + 1, 62 - bits);
      QuotientZero(high, Pow(2, 63));
      DivAtLeast(high, Pow(2, 62 - bits), Pow(2, bits + 1));
    }
  }

  // Ties ---------------------------------------------------------------------------------------------------

  lemma TieBounds(fmt: BinaryFormat)
    requires IsFormat(fmt)
    ensures forall q: nat :: Pow(5, q) < Pow(2, fmt.explicitBits + 2) ==> q <= if fmt.explicitBits == 52 then 23 else 10
    ensures forall p: nat :: Pow(2, fmt.explicitBits + 1) * Pow(5, p) < TWO_TO_64 ==>
      p <= if fmt.explicitBits == 52 then 4 else 17
  {
    Fives();
    Twos();
    hide Pow;
    PowAdd(2, 27, 27);
    PowStep(2, 53);
    PowAdd(2, 11, 13);
    PowAdd(5, 12, 12);
    PowAdd(5, 17, 1);
    var last, least := if fmt.explicitBits == 52 then 23 else 10, if fmt.explicitBits == 52 then 4 else 17;
    assert Pow(5, last + 1) >= Pow(2, fmt.explicitBits + 2);
    assert Pow(2, fmt.explicitBits + 1) * Pow(5, least + 1) >= TWO_TO_64;
    forall q: nat | Pow(5, q) < Pow(2, fmt.explicitBits + 2)
      ensures q <= last
    {
      if q > last {
        PowMono(5, last + 1, q);
      }
    }
    forall p: nat | Pow(2, fmt.explicitBits + 1) * Pow(5, p) < TWO_TO_64
      ensures p <= least
    {
      if p > least {
        PowMono(5, least + 1, p);
        PowPos(2, fmt.explicitBits + 1);
        MulMono(Pow(2, fmt.explicitBits + 1), Pow(5, least + 1), Pow(5, p));
      }
    }
  }

  lemma KeptEnough(fmt: BinaryFormat, q: int, d: nat)
    requires IsFormat(fmt) && MayTie(fmt, q) && q < 0 && d >= 61 - fmt.explicitBits
    ensures -17 <= q < 0 && 64 + d >= Kept(-q)
  {
  }

  lemma ExactFound(fmt: BinaryFormat, q: int, w: U64, lz: nat, w': U64, t: Value128, product: Value128, corrected: bool,
    m: int, d: nat)
    requires IsFormat(fmt) && w > 0 && w' == w * Pow(2, lz) && w' > 0 && IsEntry(q, t)
    requires Approximates(fmt.explicitBits + 3, t, w', product, corrected)
    requires Pow(2, fmt.explicitBits + 1) <= m < Pow(2, fmt.explicitBits + 2) && m % 2 == 1
    requires d >= 61 - fmt.explicitBits && w' * Num(q) == m * (Den(q) * Pow(2, 128 + d))
    ensures MayTie(fmt, q) && product.low <= 1 && m * Pow(2, d) == product.high
  {
    hide Pow, Num, Den, IsEntry, Approximates, MayTie;
    PowPos(2, fmt.explicitBits + 1);
    TieBounds(fmt);
    if q >= 0 {
      TiePositive(q, w', m, 128 + d);
      TieExponents(fmt, q);
      TiesExact(q, w', t, product, corrected, fmt.explicitBits + 3, m, d);
    } else {
      TieNegative(q, w, lz, m, 128 + d);
      PowPos(5, -q);
      MulMono(Pow(5, -q), Pow(2, fmt.explicitBits + 1), m);
      TieExponents(fmt, q);
      TieIsSeen(q, w', t, product, corrected, fmt.explicitBits + 3, m, d);
    }
  }

  lemma TieExponents(fmt: BinaryFormat, q: int)
    requires IsFormat(fmt)
    requires if fmt.explicitBits == 52 then -4 <= q <= 23 else -17 <= q <= 10
    ensures MayTie(fmt, q) && (q < 0 ==> RoundedUp(q)) && q <= 23
  {
  }

  lemma SeenExact(fmt: BinaryFormat, q: int, w: U64, t: Value128, product: Value128, corrected: bool, m: int, d: nat)
    requires IsFormat(fmt) && w > 0 && IsEntry(q, t) && MayTie(fmt, q)
    requires Approximates(fmt.explicitBits + 3, t, w, product, corrected)
    requires d >= 61 - fmt.explicitBits && product.low <= 1 && m * Pow(2, d) == product.high
    ensures w * Num(q) == m * (Den(q) * Pow(2, 128 + d))
  {
    hide Pow, Num, Den, IsEntry, TopBits, Exact, Kept;
    if q >= 0 {
      TiesExact(q, w, t, product, corrected, fmt.explicitBits + 3, m, d);
    } else {
      KeptEnough(fmt, q, d);
      if corrected {
        CorrectedTie(q, w, t, product, m, d);
      } else {
        NoHalfProduct(q, w, t, m, d, product.low);
        assert false;
      }
    }
  }

  /** The branch for ties is taken exactly if the number lies in the middle and the lower neighbour is even. */
  lemma TiesRight(fmt: BinaryFormat, q: int, w: U64, lz: nat, w': U64, t: Value128, product: Value128, corrected: bool)
    requires IsFormat(fmt) && w > 0 && w' == w * Pow(2, lz) && w' > 0 && IsEntry(q, t)
    requires Approximates(fmt.explicitBits + 3, t, w', product, corrected)
    requires var m := Shr(product.high, Dropped(fmt, product.high));
      Pow(2, fmt.explicitBits + 1) <= m < Pow(2, fmt.explicitBits + 2)
    ensures var d := Dropped(fmt, product.high); var m := Shr(product.high, d);
      TiesDown(fmt, q, product, m) <==> m % 4 == 1 && w' * Num(q) == m * (Den(q) * Pow(2, 128 + d))
  {
    ShiftBound(fmt, product.high);
    TiesDownIs(fmt, q, product, Shr(product.high, Dropped(fmt, product.high)));
    hide *;
    var d := Dropped(fmt, product.high);
    var m := Shr(product.high, d);
    if TiesDown(fmt, q, product, m) {
      SeenExact(fmt, q, w', t, product, corrected, m, d);
    } else if m % 4 == 1 && w' * Num(q) == m * (Den(q) * Pow(2, 128 + d)) {
      OddOfFour(m) by { PowPos(2, fmt.explicitBits + 1); }
      ExactFound(fmt, q, w, lz, w', t, product, corrected, m, d);
    }
  }

  lemma TiesDownIs(fmt: BinaryFormat, q: int, product: Value128, m: int)
    requires IsFormat(fmt)
    ensures TiesDown(fmt, q, product, m) <==>
      product.low <= 1 && MayTie(fmt, q) && m % 4 == 1 && m * Pow(2, Dropped(fmt, product.high)) == product.high
    ensures Dropped(fmt, product.high) >= 61 - fmt.explicitBits
  {
    hide Pow, MayTie;
  }

  // Rounding -----------------------------------------------------------------------------------------------

  /** A quotient in halves of the last place, and how it rounds. */
  lemma NearestHalf(a: int, c: int, m: int)
    requires c > 0 && a >= 0 && m == a / c
    ensures var y := a as real / (2 * c) as real;
      && m as real <= 2.0 * y < (m + 1) as real
      && NearestInteger(y, false) == if m % 4 == 1 && a == m * c then m / 2 else HalfUp(m)
  {
    var y, z := a as real / (2 * c) as real, a as real / c as real;
    assert z == 2.0 * y;
    QuotientFloor(a, c, m, z);
    HalfRounding(y, m, a == m * c);
  }

  lemma QuotientFloor(a: int, c: int, m: int, z: real)
    requires c > 0 && m == a / c && z == a as real / c as real
    ensures m as real <= z < (m + 1) as real && (z == m as real <==> a == m * c)
  {
    assert z * (c as real) == a as real;
    assert m * c <= a < m * c + c;
    RealMul(m, c);
    RealMul(m + 1, c);
    RMulCancelLt(c as real, z, (m + 1) as real);
    if z < m as real {
      RMulMonoStrict(c as real, z, m as real);
    }
    DifferentFactors(c as real, z, m as real);
  }

  lemma DifferentFactors(c: real, x: real, y: real)
    requires c > 0.0
    ensures x * c == y * c <==> x == y
  {
    if x * c == y * c {
      RMulCancel(c, x, y);
    }
  }

  lemma HalfRounding(y: real, m: int, exact: bool)
    requires m as real <= 2.0 * y < (m + 1) as real && (2.0 * y == m as real <==> exact)
    ensures NearestInteger(y, false) == if m % 4 == 1 && exact then m / 2 else HalfUp(m)
  {
    var h := m / 2;
    Halves(m, h);
    hide NearestInteger, HalfUp;
    if m == 2 * h {
      FloorHalf(y, h);
    } else {
      FloorAboveHalf(y, h, exact);
    }
  }

  lemma Halves(m: int, h: int)
    requires h == m / 2
    ensures m == 2 * h ==> HalfUp(m) == h && m % 4 != 1
    ensures m != 2 * h ==> m == 2 * h + 1 && HalfUp(m) == h + 1 && (m % 4 == 1 <==> h % 2 == 0)
  {
  }

  lemma FloorHalf(y: real, h: int)
    requires h as real <= y < h as real + 0.5
    ensures NearestInteger(y, false) == h
  {
    assert y.Floor == h;
  }

  lemma FloorAboveHalf(y: real, h: int, exact: bool)
    requires h as real + 0.5 <= y < (h + 1) as real && (y == h as real + 0.5 <==> exact)
    ensures NearestInteger(y, false) == if exact && h % 2 == 0 then h else h + 1
  {
    assert y.Floor == h;
  }

  /** The number in units of the last place that is kept. */
  lemma ValueIs(q: int, w: int, lz: nat, d: nat)
    ensures Den(q) * Pow(2, 128 + d) > 0
    ensures Units(w, q) == Shifted(((w * Pow(2, lz)) * Num(q)) as real / (2 * (Den(q) * Pow(2, 128 + d))) as real,
      Binary(q) + 2 + d - lz)
  {
    hide Pow, Num, Den, Two, Ten, Binary;
    PowPos(2, 128 + d);
    MulMonoStrict(Den(q), 0, Pow(2, 128 + d));
    ScaledTen(q);
    PowStep(2, 128 + d);
    MulSwap(2, Den(q), Pow(2, 128 + d));
    TwoIsPow(lz);
    TwoIsPow(129 + d);
    TwoPos(129 + d);
    RealMul(w, Pow(2, lz));
    RealMul(w * Pow(2, lz), Num(q));
    RealMul(Den(q), Pow(2, 129 + d));
    var e := Binary(q);
    TwoAdd(lz, 127 - e);
    TwoAdd(lz + 127 - e, e + 2 + d - lz);
    assert 2 * (Den(q) * Pow(2, 128 + d)) == Den(q) * Pow(2, 129 + d) by { MulSwap(Den(q), 2, Pow(2, 128 + d)); }
    ValueArith(w as real, Two(lz), Ten(q), Two(127 - e), Den(q) as real, Two(129 + d), Two(e + 2 + d - lz));
  }

  lemma ValueArith(w: real, a: real, t: real, b: real, d: real, s: real, u: real)
    requires d > 0.0 && s > 0.0 && (a * b) * u == s
    ensures d * s > 0.0 && w * t == (((w * a) * ((t * b) * d)) / (d * s)) * u
  {
    RMulMonoStrict(s, 0.0, d);
    var n := (w * a) * ((t * b) * d);
    assert n == ((w * t) * (a * b)) * d by {
      RMulAssoc(w * a, t * b, d);
      FourFactors(w, a, b, t);
    }
    assert n * u == ((w * t) * s) * d by {
      RMulSwapLast((w * t) * (a * b), d, u);
      RMulAssoc(w * t, a * b, u);
    }
    RMulAssoc(w * t, s, d);
    Quotients(n, d * s, u, w * t);
  }

  lemma Quotients(n: real, s: real, u: real, x: real)
    requires s > 0.0 && n * u == x * s
    ensures (n / s) * u == x
  {
    var y := n / s;
    assert y * s == n;
    RMulSwapLast(y, s, u);
    RMulCancel(s, y * u, x);
  }

  /** The last place of a number of the normal range. */
  function LastPlace(fmt: BinaryFormat, power2: int): int {
    MinQuantum(fmt) + power2 - 1
  }

  lemma ClearHiddenIs(fmt: BinaryFormat, r: int)
    requires Pow(2, fmt.explicitBits) <= r < 2 * Pow(2, fmt.explicitBits)
    ensures ClearHidden(fmt, r) == r - Pow(2, fmt.explicitBits) == r % Pow(2, fmt.explicitBits)
  {
    hide Pow;
    var p := Pow(2, fmt.explicitBits);
    ModShift(r, p);
    RemainderOf(r, p, 1, r - p);
  }

  /** Above the last binade every number overflows. */
  lemma PastLastBinade(fmt: BinaryFormat, x: real, y: real, q: int)
    requires IsFormat(fmt) && x == Shifted(y, q) && q > MaxQuantum(fmt) && y >= Pow(2, fmt.explicitBits) as real
    ensures IsRoundTiesToEven(fmt, x, Infinity(fmt))
  {
    hide Pow, Shifted, IsRoundTiesToEven, Two;
    var h, r := Pow(2, fmt.explicitBits), MaxQuantum(fmt);
    PowPos(2, fmt.explicitBits);
    PowStep(2, fmt.explicitBits);
    ShiftedMono(h as real, y, q);
    ScaleUpTo(h as real, r + 1, q);
    DoubleShift(h as real, r);
    TwoIsPow(fmt.explicitBits);
    TwoIsPow(fmt.explicitBits + 1);
    TwoAdd(fmt.explicitBits + 1, r);
    HugeBinade(fmt, x, h);
  }

  lemma HugeBinade(fmt: BinaryFormat, x: real, h: int)
    requires IsFormat(fmt) && 2 * h == Pow(2, fmt.explicitBits + 1)
    requires x >= Shifted(2.0 * h as real, MaxQuantum(fmt))
    ensures IsRoundTiesToEven(fmt, x, Infinity(fmt))
  {
    hide Pow, Two, Shifted;
    ShiftedMono((2 * h) as real - 0.5, (2 * h) as real, MaxQuantum(fmt));
  }

  /** The normal branch: rounding, the carry, and infinity. */
  lemma NormalRounds(fmt: BinaryFormat, x: real, y: real, m: int, power2: int)
    requires IsFormat(fmt) && power2 >= 1 && x == Shifted(y, LastPlace(fmt, power2))
    requires Pow(2, fmt.explicitBits) as real <= y < Pow(2, fmt.explicitBits + 1) as real
    requires NearestInteger(y, false) == HalfUp(m)
    ensures IsRoundTiesToEven(fmt, x, Normal(fmt, m, power2))
  {
    hide Pow, Two, Shifted, NearestInteger, IsRoundTiesToEven, HalfUp, ClearHidden, IsFormat;
    var q, p, r := LastPlace(fmt, power2), Pow(2, fmt.explicitBits), HalfUp(m);
    Places(fmt, power2);
    PowPos(2, fmt.explicitBits);
    PowStep(2, fmt.explicitBits);
    NearestAtLeast(y, r, p);
    if power2 >= fmt.infinitePower {
      PastLastBinade(fmt, x, y, q);
    } else if r < 2 * p {
      ClearHiddenIs(fmt, r);
      PackCorrect(fmt, x, y, q, r, Normal(fmt, m, power2));
    } else {
      CarryRounds(fmt, y);
      ClearHiddenIs(fmt, p);
      if power2 + 1 >= fmt.infinitePower {
        OverflowRounds(fmt, x, y, q);
      } else {
        PackCarry(fmt, x, y, q, Normal(fmt, m, power2));
      }
    }
  }

  lemma Places(fmt: BinaryFormat, power2: int)
    requires IsFormat(fmt) && power2 >= 1
    ensures MinQuantum(fmt) <= LastPlace(fmt, power2)
    ensures power2 < fmt.infinitePower <==> LastPlace(fmt, power2) <= MaxQuantum(fmt)
    ensures power2 + 1 < fmt.infinitePower <==> LastPlace(fmt, power2) < MaxQuantum(fmt)
    ensures power2 == LastPlace(fmt, power2) - MinQuantum(fmt) + 1
  {
  }

  // Below the normal range ---------------------------------------------------------------------------------

  /** Subnormal numbers have exponents for which no tie is possible. */
  lemma NoSubnormalTie(q: int, w: U64, lz: nat, m: int, i: nat)
    requires q <= -28 && w > 0 && m % 4 == 1 && m >= 0
    ensures (w * Pow(2, lz)) * Num(q) != m * (Den(q) * Pow(2, i))
  {
    hide *;
    if (w * Pow(2, lz)) * Num(q) == m * (Den(q) * Pow(2, i)) {
      OddOfFour(m);
      TieNegative(q, w, lz, m, i);
      LargeFive(-q);
      MulMono(Pow(5, -q), 1, m);
      TooLarge(Pow(5, -q), m, w);
    }
  }

  lemma OddOfFour(m: int)
    requires m % 4 == 1 && m >= 0
    ensures m % 2 == 1 && m >= 1
  {
  }

  lemma LargeFive(p: nat)
    requires p >= 28
    ensures Pow(5, p) >= 37252902984619140625
  {
    Fives();
    hide Pow;
    PowAdd(5, 17, 11);
    PowMono(5, 28, p);
  }

  lemma TooLarge(f: int, m: int, w: U64)
    requires f >= 37252902984619140625 && 1 * f <= m * f
    ensures m * f > w
  {
  }

  lemma FarDown(fmt: BinaryFormat, q: int, lz: nat, u: int)
    requires IsFormat(fmt) && lz < 64 && 0 <= u && Power(q) + u - lz - fmt.minimumExponent <= 0
    ensures q <= -28
  {
  }

  /** What the subnormal branch keeps, as a quotient in units of the smallest number. */
  lemma SubnormalQuotient(fmt: BinaryFormat, q: int, w: int, lz: nat, d: nat, m: int, shift: nat)
    requires Den(q) * Pow(2, 128 + d) > 0 && w >= 0
    requires m == ((w * Pow(2, lz)) * Num(q)) / (Den(q) * Pow(2, 128 + d))
    ensures Den(q) * Pow(2, 128 + (d + shift)) > 0
    ensures Shr(m, shift) == ((w * Pow(2, lz)) * Num(q)) / (Den(q) * Pow(2, 128 + (d + shift)))
  {
    hide Pow, Num, Den;
    PowPos(2, lz);
    PowPos(2, shift);
    PowPos(2, 128 + d + shift);
    PowAdd(2, 128 + d, shift);
    MulMono(w, 0, Pow(2, lz));
    MulMono(w * Pow(2, lz), 0, Num(q));
    MulMonoStrict(Den(q), 0, Pow(2, 128 + d + shift));
    MulAssoc(Den(q), Pow(2, 128 + d), Pow(2, shift));
    DivDiv((w * Pow(2, lz)) * Num(q), Den(q) * Pow(2, 128 + d), Pow(2, shift));
  }

  lemma SubnormalPlace(fmt: BinaryFormat, q: int, lz: nat, d: nat, u: int, shift: nat)
    requires d == u + 61 - fmt.explicitBits && shift == 1 - (Power(q) + u - lz - fmt.minimumExponent)
    ensures Binary(q) + 2 + (d + shift) - lz == MinQuantum(fmt)
  {
  }

  /** The subnormal branch, with the one result that is outside the fields. */
  lemma SubnormalRounds(fmt: BinaryFormat, x: real, y: real, m: int, shift: nat)
    requires IsFormat(fmt) && x == Shifted(y, MinQuantum(fmt)) && 0 <= m < 4 * Pow(2, fmt.explicitBits) && shift >= 1
    requires Shr(m, shift) as real <= 2.0 * y < (Shr(m, shift) + 1) as real
    requires NearestInteger(y, false) == HalfUp(Shr(m, shift))
    ensures Subnormal(fmt, m, shift).mantissa >= 0 && Subnormal(fmt, m, shift).power2 >= 0
    ensures Encodes(fmt, x, Packed(fmt, Subnormal(fmt, m, shift)))
  {
    SubnormalPacks(fmt, m, shift);
    SubnormalRange(fmt, m, shift);
    SubnormalTop(fmt, m, shift);
    PowPos(2, fmt.explicitBits);
    PowStep(2, fmt.explicitBits);
    hide Pow, Two, Shifted, NearestInteger, IsRoundTiesToEven, HalfUp, IsFormat, Packed, Fields, Shr;
    var n := HalfUp(Shr(m, shift));
    PackCorrect(fmt, x, y, MinQuantum(fmt), n,
      AdjustedMantissa(Fraction(fmt, n), if n < Pow(2, fmt.explicitBits) then 0 else 1));
  }

  lemma SubnormalTop(fmt: BinaryFormat, m: int, shift: nat)
    requires IsFormat(fmt) && 0 <= m < 4 * Pow(2, fmt.explicitBits) && shift >= 1
    ensures 0 <= Shr(m, shift) < 2 * Pow(2, fmt.explicitBits)
    ensures MinQuantum(fmt) <= MaxQuantum(fmt)
  {
    PowMono(2, 1, shift);
    assert Pow(2, 1) == 2;
    hide Pow;
    QuarterArith(m, Pow(2, fmt.explicitBits), Pow(2, shift));
  }

  /** Numbers that far below are zero. */
  lemma FarBelow(fmt: BinaryFormat, x: real, y: real, m: int, shift: nat)
    requires IsFormat(fmt) && x == Shifted(y, MinQuantum(fmt)) && 0 <= m < 4 * Pow(2, fmt.explicitBits) && shift >= 64
    requires Shr(m, shift) as real <= 2.0 * y < (Shr(m, shift) + 1) as real
    ensures IsRoundTiesToEven(fmt, x, ZERO)
  {
    PowStep(2, fmt.explicitBits);
    PowStep(2, fmt.explicitBits + 1);
    PowMono(2, fmt.explicitBits + 2, shift);
    hide Pow, Two, IsRoundTiesToEven;
    QuotientZero(m, Pow(2, shift)) by { PowPos(2, shift); }
    ShiftedMono(0.0, y, MinQuantum(fmt));
    ShiftedMono(y, 0.5, MinQuantum(fmt));
    ShiftedNil(MinQuantum(fmt));
    SmallIsZero(fmt, x);
  }

  // The whole ----------------------------------------------------------------------------------------------

  /** A decided result is packed into the word of the nearest value. */
  ghost predicate IsRight(fmt: BinaryFormat, q: int, w: int, am: AdjustedMantissa) {
    am.mantissa >= 0 && (am.power2 >= 0 ==> Encodes(fmt, Units(w, q), Packed(fmt, am)))
  }

  /** The word, normalised, its product with the entry, and that the product is decided. */
  ghost predicate Decided(fmt: BinaryFormat, q: int, w: U64, lz: nat, w': U64, t: Value128, product: Value128,
    corrected: bool)
    requires IsFormat(fmt)
  {
    && InTable(q) && w > 0 && lz < 64 && w' == w * Pow(2, lz) && w' >= Pow(2, 63) && IsEntry(q, t)
    && Approximates(fmt.explicitBits + 3, t, w', product, corrected)
    && (product.low != U64_MAX || InsideSafe(q))
  }

  /** The place of the last bit kept, against the exponent that is computed. */
  function Exponent2(fmt: BinaryFormat, q: int, lz: nat, high: U64): int {
    Power(q) + Upperbit(high) - lz - fmt.minimumExponent
  }

  lemma PlaceIs(fmt: BinaryFormat, q: int, lz: nat, high: U64)
    requires IsFormat(fmt)
    ensures Binary(q) + 2 + Dropped(fmt, high) - lz == LastPlace(fmt, Exponent2(fmt, q, lz, high))
  {
    ShiftBound(fmt, high);
    hide Pow, Upperbit, Dropped;
  }

  lemma TiedDown(m: int)
    requires m % 4 == 1
    ensures HalfUp(m - 1) == m / 2
  {
  }

  lemma HalfRange(y: real, m: int, p: int)
    requires m as real <= 2.0 * y < (m + 1) as real && 2 * p <= m < 4 * p
    ensures p as real <= y < (2 * p) as real
  {
  }

  lemma DecidedNormal(fmt: BinaryFormat, q: int, w: U64, lz: nat, w': U64, t: Value128, product: Value128,
    corrected: bool)
    requires IsFormat(fmt) && Decided(fmt, q, w, lz, w', t, product, corrected)
    requires Exponent2(fmt, q, lz, product.high) > 0
    ensures var m := Shr(product.high, Dropped(fmt, product.high));
      IsRoundTiesToEven(fmt, Units(w, q), Normal(fmt, if TiesDown(fmt, q, product, m) then m - 1 else m,
        Exponent2(fmt, q, lz, product.high)))
  {
    hide Pow, Num, Den, Two, Ten, IsEntry, Approximates, TiesDown, Dropped, Upperbit, Shr, Normal, IsRoundTiesToEven,
      NearestInteger, HalfUp, InsideSafe, IsFormat, Units, Shifted, Exponent2, LastPlace, Binary;
    var d := Dropped(fmt, product.high);
    var m := Shr(product.high, d);
    PowPos(2, 63);
    KeptBits(fmt, q, w', t, product, corrected);
    TiesRight(fmt, q, w, lz, w', t, product, corrected);
    ValueIs(q, w, lz, d);
    PlaceIs(fmt, q, lz, product.high);
    MulMono(Num(q), 0, w');
    var a, c := w' * Num(q), Den(q) * Pow(2, 128 + d);
    var y := a as real / (2 * c) as real;
    NearestHalf(a, c, m);
    PowStep(2, fmt.explicitBits);
    PowStep(2, fmt.explicitBits + 1);
    HalfRange(y, m, Pow(2, fmt.explicitBits));
    if TiesDown(fmt, q, product, m) {
      TiedDown(m);
      NormalRounds(fmt, Units(w, q), y, m - 1, Exponent2(fmt, q, lz, product.high));
    } else {
      NormalRounds(fmt, Units(w, q), y, m, Exponent2(fmt, q, lz, product.high));
    }
  }

  lemma DecidedSubnormal(fmt: BinaryFormat, q: int, w: U64, lz: nat, w': U64, t: Value128, product: Value128,
    corrected: bool)
    requires IsFormat(fmt) && Decided(fmt, q, w, lz, w', t, product, corrected)
    requires Exponent2(fmt, q, lz, product.high) <= 0
    ensures var m := Shr(product.high, Dropped(fmt, product.high));
      var shift := 1 - Exponent2(fmt, q, lz, product.high);
      if shift >= 64 then IsRoundTiesToEven(fmt, Units(w, q), ZERO)
      else IsRight(fmt, q, w, Subnormal(fmt, m, shift))
  {
    hide Pow, Num, Den, Two, Ten, IsEntry, Approximates, Dropped, Upperbit, Shr, IsRoundTiesToEven, Power,
      NearestInteger, HalfUp, InsideSafe, IsFormat, Units, Shifted, Binary, Subnormal, Encodes, Packed;
    var d := Dropped(fmt, product.high);
    var m, shift := Shr(product.high, d), 1 - Exponent2(fmt, q, lz, product.high);
    KeptBits(fmt, q, w', t, product, corrected);
    ShiftBound(fmt, product.high);
    FarDown(fmt, q, lz, Upperbit(product.high));
    SubnormalQuotient(fmt, q, w, lz, d, m, shift);
    ValueIs(q, w, lz, d + shift);
    SubnormalPlace(fmt, q, lz, d, Upperbit(product.high), shift);
    MulMono(Num(q), 0, w');
    var a, c := w' * Num(q), Den(q) * Pow(2, 128 + (d + shift));
    var y := a as real / (2 * c) as real;
    NearestHalf(a, c, Shr(m, shift));
    if shift >= 64 {
      FarBelow(fmt, Units(w, q), y, m, shift);
    } else {
      ShiftedSign(m, shift);
      if Shr(m, shift) % 4 == 1 {
        NoSubnormalTie(q, w, lz, Shr(m, shift), 128 + (d + shift));
      }
      SubnormalRounds(fmt, Units(w, q), y, m, shift);
    }
  }

  lemma ShiftedSign(m: int, shift: nat)
    requires m >= 0
    ensures Shr(m, shift) >= 0
  {
    PowPos(2, shift);
    hide Pow;
    DivAtLeast(m, Pow(2, shift), 0);
  }

  /** Whatever is decided is right. */
  lemma FinishRounds(fmt: BinaryFormat, q: int, w: U64, lz: nat, w': U64, t: Value128, product: Value128,
    corrected: bool)
    requires IsFormat(fmt) && InTable(q) && w > 0 && lz < 64 && w' == w * Pow(2, lz) && w' >= Pow(2, 63)
    requires IsEntry(q, t) && Approximates(fmt.explicitBits + 3, t, w', product, corrected)
    ensures IsRight(fmt, q, w, Finish(fmt, q, lz, product))
  {
    hide *;
    if product.low == U64_MAX && !InsideSafe(q) {
      Undecided(fmt, q, w, lz, product);
    } else {
      MakeDecided(fmt, q, w, lz, w', t, product, corrected);
      FinishIs(fmt, q, lz, product);
      var x := Units(w, q);
      if Exponent2(fmt, q, lz, product.high) > 0 {
        DecidedNormal(fmt, q, w, lz, w', t, product, corrected);
        RoundedIsRight(fmt, q, w, Finish(fmt, q, lz, product));
      } else {
        DecidedSubnormal(fmt, q, w, lz, w', t, product, corrected);
        if 1 - Exponent2(fmt, q, lz, product.high) >= 64 {
          RoundedIsRight(fmt, q, w, ZERO);
        }
      }
    }
  }

  lemma Undecided(fmt: BinaryFormat, q: int, w: int, lz: nat, product: Value128)
    requires IsFormat(fmt) && product.low == U64_MAX && !InsideSafe(q)
    ensures IsRight(fmt, q, w, Finish(fmt, q, lz, product))
  {
  }

  lemma MakeDecided(fmt: BinaryFormat, q: int, w: U64, lz: nat, w': U64, t: Value128, product: Value128,
    corrected: bool)
    requires IsFormat(fmt) && InTable(q) && w > 0 && lz < 64 && w' == w * Pow(2, lz) && w' >= Pow(2, 63)
    requires IsEntry(q, t) && Approximates(fmt.explicitBits + 3, t, w', product, corrected)
    requires product.low != U64_MAX || InsideSafe(q)
    ensures Decided(fmt, q, w, lz, w', t, product, corrected)
  {
    hide Pow, IsEntry, Approximates, InTable, InsideSafe;
  }

  lemma FinishIs(fmt: BinaryFormat, q: int, lz: nat, product: Value128)
    requires IsFormat(fmt) && (product.low != U64_MAX || InsideSafe(q))
    ensures var m, power2 := Shr(product.high, Dropped(fmt, product.high)), Exponent2(fmt, q, lz, product.high);
      Finish(fmt, q, lz, product) ==
        if power2 > 0 then Normal(fmt, if TiesDown(fmt, q, product, m) then m - 1 else m, power2)
        else if 1 - power2 >= 64 then ZERO else Subnormal(fmt, m, 1 - power2)
  {
    hide Pow, Normal, Subnormal, TiesDown, Shr, Dropped, InsideSafe, Upperbit, Power;
  }

  lemma RoundedIsRight(fmt: BinaryFormat, q: int, w: int, am: AdjustedMantissa)
    requires IsFormat(fmt) && IsRoundTiesToEven(fmt, Units(w, q), am)
    ensures IsRight(fmt, q, w, am)
  {
    hide IsRoundTiesToEven, Units, Packed, Encodes;
    EncodesFields(fmt, Units(w, q), am);
  }

  lemma WordBelow(w: U64, q: int, e: int)
    requires Ten(q) < Two(e)
    ensures 0.0 <= Units(w, q) <= Two(64 + e)
  {
    TwoTo64();
    hide Ten, Two, Pow;
    TenPos(q);
    TwoIsPow(64);
    TwoAdd(64, e);
    ProductBelowReal(w as real, Ten(q), Two(64), Two(e));
  }

  lemma ProductBelowReal(x: real, y: real, a: real, b: real)
    requires 0.0 <= x <= a && 0.0 < y < b
    ensures 0.0 <= x * y <= a * b
  {
    RMulMono(y, 0.0, x);
    RMulMono(y, x, a);
    RMulMono(a, y, b);
  }

  /** Below the powers of the table every word gives zero. */
  lemma BelowTable(fmt: BinaryFormat, q: int, w: U64)
    requires IsFormat(fmt) && q < SmallestPowerOfTen(fmt)
    ensures IsRoundTiesToEven(fmt, Units(w, q), ZERO)
  {
    hide Ten, Two, IsRoundTiesToEven, Units;
    var s := SmallestPowerOfTen(fmt) - 1;
    BinaryMeaning(s);
    TenMono(q, s);
    WordBelow(w, q, Binary(s) + 1);
    assert 64 + Binary(s) + 1 <= MinQuantum(fmt) - 1;
    TwoMono(64 + Binary(s) + 1, MinQuantum(fmt) - 1);
    HalfIsTwo(fmt);
    SmallIsZero(fmt, Units(w, q));
  }

  lemma HalfIsTwo(fmt: BinaryFormat)
    ensures HalfSmallest(fmt) == Two(MinQuantum(fmt) - 1)
  {
    TwoStep(MinQuantum(fmt) - 1);
    hide Two;
  }

  /** Above them every word but zero gives infinity. */
  lemma AboveTable(fmt: BinaryFormat, q: int, w: U64)
    requires IsFormat(fmt) && q > LargestPowerOfTen(fmt) && w > 0
    ensures IsRoundTiesToEven(fmt, Units(w, q), Infinity(fmt))
  {
    hide Ten, Two, IsRoundTiesToEven;
    var l := LargestPowerOfTen(fmt) + 1;
    BinaryMeaning(l);
    TenMono(l, q);
    TenPos(q);
    RMulMono(Ten(q), 1.0, w as real);
    assert Binary(l) >= fmt.minimumExponent + fmt.infinitePower;
    TwoMono(fmt.minimumExponent + fmt.infinitePower, Binary(l));
    HugeIsInfinite(fmt, Units(w, q));
  }

  lemma ZeroWord(fmt: BinaryFormat, q: int)
    requires IsFormat(fmt)
    ensures IsRoundTiesToEven(fmt, Units(0, q), ZERO)
  {
    hide Ten, IsRoundTiesToEven;
    assert Units(0, q) == 0.0;
    TinyIsZero(fmt, 0.0);
  }

  lemma TablePowers(fmt: BinaryFormat, q: int, w: U64, lz: nat)
    requires IsFormat(fmt) && SmallestPowerOfTen(fmt) <= q <= LargestPowerOfTen(fmt)
    requires TWO_TO_64 <= 2 * (w * Pow(2, lz))
    ensures InTable(q) && w * Pow(2, lz) >= Pow(2, 63)
  {
    TwoTo64();
    PowStep(2, 63);
    hide Pow;
  }

  /** The product that is used: the first one, or where its bits below the precision are all ones the exact one. */
  function Approximated(precision: nat, t: Value128, w: U64): int
    requires precision <= 64
  {
    if AllOnes(w * t.high / TWO_TO_64, precision) then Exact(w, t) else w * t.high
  }

  /** Outside the safe exponents nothing is decided if the low word of the product is all ones. */
  predicate IsUndecided(fmt: BinaryFormat, q: int, w: U64, t: Value128)
    requires IsFormat(fmt) && w > 0
  {
    !InsideSafe(q) && Approximated(fmt.explicitBits + 3, t, w * Pow(2, LeadingZeroes(w))) % TWO_TO_64 == U64_MAX
  }

  lemma LowWord(v: Value128)
    ensures Wide(v) % TWO_TO_64 == v.low
  {
  }

  /** The conversion with one or two products. With the right entry, whatever it decides is packed into the
      nearest value, ties to even; it is undecided only for a product whose low word is all ones. */
  method ComputeFloatFast(fmt: BinaryFormat, q: int, w: U64, t: Value128) returns (answer: AdjustedMantissa)
    requires IsFormat(fmt)
    ensures w == 0 || q < SmallestPowerOfTen(fmt) ==> answer == ZERO
    ensures w > 0 && q > LargestPowerOfTen(fmt) ==> answer == Infinity(fmt)
    ensures answer == UNDECIDED || Packs(fmt, answer)
    ensures answer == UNDECIDED <==>
      w > 0 && SmallestPowerOfTen(fmt) <= q <= LargestPowerOfTen(fmt) && IsUndecided(fmt, q, w, t)
    ensures IsEntry(q, t) || !(SmallestPowerOfTen(fmt) <= q <= LargestPowerOfTen(fmt)) ==> IsRight(fmt, q, w, answer)
  {
    hide Pow, Num, Den, IsEntry, IsRight, Packs, IsRoundTiesToEven, Units, Finish, TopBits, AllOnes, Wide, InsideSafe;
    ZeroPacks(fmt);
    if w == 0 || q < SmallestPowerOfTen(fmt) {
      if w == 0 {
        ZeroWord(fmt, q);
      } else {
        BelowTable(fmt, q, w);
      }
      RoundedIsRight(fmt, q, w, ZERO);
      return ZERO;
    }
    if q > LargestPowerOfTen(fmt) {
      AboveTable(fmt, q, w);
      RoundedIsRight(fmt, q, w, Infinity(fmt));
      return Infinity(fmt);
    }
    var lz := LeadingZeroes(w);
    var shifted: U64 := w * Pow(2, lz);
    var product, corrected := ComputeProductApproximation(fmt.explicitBits + 3, t, shifted);
    answer := Finish(fmt, q, lz, product);
    FinishPacks(fmt, q, lz, product);
    FinishDecides(fmt, q, lz, product);
    LowWord(product);
    TablePowers(fmt, q, w, lz);
    if IsEntry(q, t) {
      FinishRounds(fmt, q, w, lz, shifted, t, product, corrected);
    }
  }

  lemma FinishDecides(fmt: BinaryFormat, q: int, lz: nat, product: Value128)
    requires IsFormat(fmt)
    ensures Finish(fmt, q, lz, product) == UNDECIDED <==> product.low == U64_MAX && !InsideSafe(q)
  {
    FinishPower(fmt, q, lz, product);
  }

  lemma FinishPower(fmt: BinaryFormat, q: int, lz: nat, product: Value128)
    requires IsFormat(fmt)
    ensures product.low != U64_MAX || InsideSafe(q) ==> Finish(fmt, q, lz, product).power2 >= 0
  {
    hide Pow, TiesDown, Shr, Dropped, InsideSafe, Upperbit, Power, HalfUp, ClearHidden;
  }
}
