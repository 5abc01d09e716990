/** Rounding to a binary interchange format, as section 4.3.1 of IEEE 754-2019 states it. */
module Ieee754 {
  import opened Powers

  /** The parameters of a binary format as the conversion uses them. */
  datatype BinaryFormat = BinaryFormat(explicitBits: nat, minimumExponent: int, infinitePower: nat)

  const BINARY64 := BinaryFormat(52, -1023, 0x7FF)
  const BINARY32 := BinaryFormat(23, -127, 0xFF)

  ghost predicate IsFormat(fmt: BinaryFormat) {
    fmt == BINARY64 || fmt == BINARY32
  }

  /** The fraction field and the biased exponent field of a non-negative number. */
  datatype AdjustedMantissa = AdjustedMantissa(mantissa: int, power2: int)

  const ZERO := AdjustedMantissa(0, 0)

  function Infinity(fmt: BinaryFormat): AdjustedMantissa {
    AdjustedMantissa(0, fmt.infinitePower)
  }

  ghost predicate IsFinite(fmt: BinaryFormat, am: AdjustedMantissa) {
    0 <= am.mantissa < Pow(2, fmt.explicitBits) && 0 <= am.power2 < fmt.infinitePower
  }

  /** The fields of some finite number or of infinity. */
  ghost predicate IsEncoding(fmt: BinaryFormat, am: AdjustedMantissa) {
    IsFinite(fmt, am) || am == Infinity(fmt)
  }

  /** The exponents of the last place of the smallest and of the largest finite numbers. */
  function MinQuantum(fmt: BinaryFormat): int {
    fmt.minimumExponent + 1 - fmt.explicitBits
  }

  function MaxQuantum(fmt: BinaryFormat): int {
    fmt.minimumExponent + fmt.infinitePower - 1 - fmt.explicitBits
  }

  /** The number a finite encoding stands for: subnormal without, normal with the implicit bit. */
  ghost function Decode(fmt: BinaryFormat, am: AdjustedMantissa): real {
    if am.power2 == 0 then Shifted(am.mantissa as real, MinQuantum(fmt))
    else Shifted((Pow(2, fmt.explicitBits) + am.mantissa) as real, MinQuantum(fmt) + am.power2 - 1)
  }

  /** m * 2^q is a finite number of the format. */
  ghost predicate Representable(fmt: BinaryFormat, m: int, q: int) {
    0 <= m < Pow(2, fmt.explicitBits + 1) && MinQuantum(fmt) <= q <= MaxQuantum(fmt)
  }

  ghost function Abs(x: real): real {
    if x < 0.0 then -x else x
  }

  /** Where rounding reaches infinity: half a last place above the largest finite number. */
  ghost function OverflowBound(fmt: BinaryFormat): real {
    Shifted(Pow(2, fmt.explicitBits + 1) as real - 0.5, MaxQuantum(fmt))
  }

  /** v is at least as near to x as m * 2^q, and wins a tie only with an even last digit. */
  ghost predicate Beats(x: real, v: real, even: bool, m: int, q: int) {
    var w := Shifted(m as real, q);
    Abs(x - v) <= Abs(x - w) && (Abs(x - v) == Abs(x - w) && v != w ==> even)
  }

  /** roundTiesToEven: the nearest finite number, the even one of two equally near ones, and
      infinity from the overflow bound on. */
  ghost predicate IsRoundTiesToEven(fmt: BinaryFormat, x: real, am: AdjustedMantissa) {
    if x >= OverflowBound(fmt) then am == Infinity(fmt)
    else
      && IsFinite(fmt, am)
      && forall m, q :: Representable(fmt, m, q) ==> Beats(x, Decode(fmt, am), am.mantissa % 2 == 0, m, q)
  }

  /** The integer nearest to x, ties to even; with `more`, x stands for a slightly larger number. */
  ghost function NearestInteger(x: real, more: bool): int {
    var low := x.Floor;
    var rest := x - low as real;
    if rest > 0.5 || (rest == 0.5 && (more || low % 2 == 1)) then low + 1 else low
  }

  lemma NearestIntegerMeaning(y: real)
    ensures var n := NearestInteger(y, false);
      Abs(y - n as real) <= 0.5 && (Abs(y - n as real) == 0.5 ==> n % 2 == 0)
  {
  }

  /** No integer is nearer than the nearest one, and a tie goes to the even one. */
  lemma NearestAmongIntegers(y: real, n: int, j: int)
    requires n == NearestInteger(y, false)
    ensures Abs(y - n as real) <= Abs(y - j as real)
    ensures Abs(y - n as real) == Abs(y - j as real) && n != j ==> n % 2 == 0
  {
    NearestIntegerMeaning(y);
  }

  /** Rounding y to an integer n rounds x = y * 2^q to n * 2^q among all representable numbers,
      if q is the smallest quantum or y has the full number of digits. */
  lemma RoundAtQuantum(fmt: BinaryFormat, x: real, y: real, q: int, m: int, r: int)
    requires x == Shifted(y, q) && q >= MinQuantum(fmt)
    requires q == MinQuantum(fmt) || y >= Pow(2, fmt.explicitBits) as real
    requires Representable(fmt, m, r)
    ensures var n := NearestInteger(y, false); Beats(x, Shifted(n as real, q), n % 2 == 0, m, r)
  {
    hide Pow, Two, Shifted, NearestInteger;
    var n := NearestInteger(y, false);
    if r >= q {
      SplitQuantum(m, r - q, q);
      NearestAmongIntegers(y, n, m * Pow(2, r - q));
      ScaleBeats(y, n, m * Pow(2, r - q), q);
    } else {
      SmallerQuantum(fmt.explicitBits, m, r, q);
      NearestAmongIntegers(y, n, Pow(2, fmt.explicitBits));
      ScaleBelow(y, n, Pow(2, fmt.explicitBits), q, Shifted(m as real, r));
    }
  }

  lemma SplitQuantum(m: int, k: nat, q: int)
    ensures Shifted(m as real, k + q) == Shifted((m * Pow(2, k)) as real, q)
  {
    hide Pow, Two;
    TwoIsPow(k);
    TwoAdd(k, q);
    RealMul(m, Pow(2, k));
    RMulAssoc(m as real, Two(k), Two(q));
  }

  lemma SmallerQuantum(bits: nat, m: int, r: int, q: int)
    requires m < Pow(2, bits + 1) && r < q
    ensures Shifted(m as real, r) < Shifted(Pow(2, bits) as real, q)
  {
    PowStep(2, bits);
    hide Pow, Two;
    TwoPos(r);
    PowPos(2, bits);
    RMulMonoStrict(Two(r), m as real, Pow(2, bits + 1) as real);
    TwoStep(r);
    TwoMono(r + 1, q);
    RMulMono(Pow(2, bits) as real, Two(r + 1), Two(q));
    RMulPull(Pow(2, bits) as real, 2.0, Two(r));
  }

  lemma ScaleBeats(y: real, n: int, j: int, q: int)
    requires Abs(y - n as real) <= Abs(y - j as real)
    requires Abs(y - n as real) == Abs(y - j as real) && n != j ==> n % 2 == 0
    ensures var x, v, w := Shifted(y, q), Shifted(n as real, q), Shifted(j as real, q);
      Abs(x - v) <= Abs(x - w) && (Abs(x - v) == Abs(x - w) && v != w ==> n % 2 == 0)
  {
    hide Shifted;
    AbsScale(y, n as real, q);
    AbsScale(y, j as real, q);
    ShiftedMono(Abs(y - n as real), Abs(y - j as real), q);
  }

  lemma AbsScale(a: real, b: real, q: int)
    ensures Abs(Shifted(a, q) - Shifted(b, q)) == Shifted(Abs(a - b), q)
  {
    hide Two;
    TwoPos(q);
    assert a * Two(q) - b * Two(q) == (a - b) * Two(q);
    if a - b >= 0.0 {
      RMulMono(Two(q), 0.0, a - b);
    } else {
      RMulMonoStrict(Two(q), a - b, 0.0);
    }
  }

  lemma ScaleBelow(y: real, n: int, h: int, q: int, w: real)
    requires w < Shifted(h as real, q) && y >= h as real
    requires Abs(y - n as real) <= Abs(y - h as real)
    ensures Abs(Shifted(y, q) - Shifted(n as real, q)) < Abs(Shifted(y, q) - w)
  {
    hide Shifted;
    AbsScale(y, n as real, q);
    AbsScale(y, h as real, q);
    ShiftedMono(Abs(y - n as real), Abs(y - h as real), q);
    ShiftedMono(h as real, y, q);
  }

  /** The final packing: a significand n of at most 2^(bits+1) at quantum q is the rounded x. */
  lemma PackCorrect(fmt: BinaryFormat, x: real, y: real, q: int, n: int, am: AdjustedMantissa)
    requires IsFormat(fmt) && x == Shifted(y, q) && MinQuantum(fmt) <= q <= MaxQuantum(fmt)
    requires 0.0 <= y < Pow(2, fmt.explicitBits + 1) as real
    requires q == MinQuantum(fmt) || y >= Pow(2, fmt.explicitBits) as real
    requires n == NearestInteger(y, false) && n < Pow(2, fmt.explicitBits + 1)
    requires am.mantissa == n % Pow(2, fmt.explicitBits)
    requires am.power2 == q - MinQuantum(fmt) + if n < Pow(2, fmt.explicitBits) then 0 else 1
    ensures IsRoundTiesToEven(fmt, x, am)
  {
    hide Pow, Two, NearestInteger, IsRoundTiesToEven, Beats, OverflowBound, Decode, IsFinite, Shifted;
    PowStep(2, fmt.explicitBits);
    PowPos(2, fmt.explicitBits);
    BelowOverflow(fmt, x, y, q, n);
    PackDecodes(fmt, y, q, n, am);
    forall m, r | Representable(fmt, m, r)
      ensures Beats(x, Decode(fmt, am), am.mantissa % 2 == 0, m, r)
    {
      RoundAtQuantum(fmt, x, y, q, m, r);
      assert Decode(fmt, am) == Shifted(n as real, q);
    }
    RoundIntro(fmt, x, am);
  }

  lemma RoundIntro(fmt: BinaryFormat, x: real, am: AdjustedMantissa)
    requires x < OverflowBound(fmt) && IsFinite(fmt, am)
    requires forall m, q :: Representable(fmt, m, q) ==> Beats(x, Decode(fmt, am), am.mantissa % 2 == 0, m, q)
    ensures IsRoundTiesToEven(fmt, x, am)
  {
  }

  lemma BelowOverflow(fmt: BinaryFormat, x: real, y: real, q: int, n: int)
    requires IsFormat(fmt) && x == Shifted(y, q) && q <= MaxQuantum(fmt)
    requires n == NearestInteger(y, false) && n < Pow(2, fmt.explicitBits + 1)
    ensures x < OverflowBound(fmt)
  {
    hide Pow, Two, NearestInteger, Shifted;
    PowPos(2, fmt.explicitBits + 1);
    PowStep(2, fmt.explicitBits);
    NearestBelowTop(y, n, Pow(2, fmt.explicitBits + 1));
    ScaleOverflow(y, Pow(2, fmt.explicitBits + 1), q, MaxQuantum(fmt));
  }

  /** A number that rounds below an even top is more than half a unit below it. */
  lemma NearestBelowTop(y: real, n: int, top: int)
    requires n == NearestInteger(y, false) && n < top && top % 2 == 0
    ensures y < top as real - 0.5
  {
    NearestIntegerMeaning(y);
  }

  lemma ScaleOverflow(y: real, top: int, q: int, r: int)
    requires q <= r && y < top as real - 0.5 && top > 0
    ensures Shifted(y, q) < Shifted(top as real - 0.5, r)
  {
    hide Two;
    TwoPos(q);
    TwoMono(q, r);
    RMulMonoStrict(Two(q), y, top as real - 0.5);
    RMulMono(top as real - 0.5, Two(q), Two(r));
  }

  lemma PackDecodes(fmt: BinaryFormat, y: real, q: int, n: int, am: AdjustedMantissa)
    requires IsFormat(fmt) && MinQuantum(fmt) <= q <= MaxQuantum(fmt)
    requires Pow(2, fmt.explicitBits + 1) == 2 * Pow(2, fmt.explicitBits) && Pow(2, fmt.explicitBits) > 0
    requires q == MinQuantum(fmt) || y >= Pow(2, fmt.explicitBits) as real
    requires 0.0 <= y && n == NearestInteger(y, false) && n < Pow(2, fmt.explicitBits + 1)
    requires am.mantissa == n % Pow(2, fmt.explicitBits)
    requires am.power2 == q - MinQuantum(fmt) + if n < Pow(2, fmt.explicitBits) then 0 else 1
    ensures IsFinite(fmt, am) && Decode(fmt, am) == Shifted(n as real, q)
    ensures am.mantissa % 2 == n % 2
  {
    hide Pow, Two, NearestInteger, Shifted;
    PowStep(2, fmt.explicitBits - 1);
    NearestAtLeast(y, n, Pow(2, fmt.explicitBits));
    if n < Pow(2, fmt.explicitBits) {
      SmallMod(n, Pow(2, fmt.explicitBits));
    } else {
      ModShift(n, Pow(2, fmt.explicitBits));
    }
  }

  lemma NearestAtLeast(y: real, n: int, h: int)
    requires n == NearestInteger(y, false)
    ensures y >= h as real ==> n >= h
    ensures y >= 0.0 ==> n >= 0
  {
  }

  /** A significand that rounds up to 2^(bits+1) becomes the next power of two. */
  lemma PackCarry(fmt: BinaryFormat, x: real, y: real, q: int, am: AdjustedMantissa)
    requires IsFormat(fmt) && x == Shifted(y, q) && MinQuantum(fmt) <= q < MaxQuantum(fmt)
    requires Pow(2, fmt.explicitBits) as real <= y < Pow(2, fmt.explicitBits + 1) as real
    requires NearestInteger(y, false) == Pow(2, fmt.explicitBits + 1)
    requires am == AdjustedMantissa(0, q - MinQuantum(fmt) + 2)
    ensures IsRoundTiesToEven(fmt, x, am)
  {
    hide Pow, Two, NearestInteger, IsRoundTiesToEven, Beats, OverflowBound, Decode, IsFinite, Shifted;
    CarryDecodes(fmt, q, am);
    CarryBelow(fmt, y, q);
    PowStep(2, fmt.explicitBits);
    forall m, r | Representable(fmt, m, r)
      ensures Beats(x, Decode(fmt, am), am.mantissa % 2 == 0, m, r)
    {
      RoundAtQuantum(fmt, x, y, q, m, r);
    }
    RoundIntro(fmt, x, am);
  }

  lemma CarryDecodes(fmt: BinaryFormat, q: int, am: AdjustedMantissa)
    requires IsFormat(fmt) && MinQuantum(fmt) <= q < MaxQuantum(fmt)
    requires am == AdjustedMantissa(0, q - MinQuantum(fmt) + 2)
    ensures IsFinite(fmt, am) && Decode(fmt, am) == Shifted(Pow(2, fmt.explicitBits + 1) as real, q)
  {
    hide Pow, Shifted;
    PowPos(2, fmt.explicitBits);
    PowStep(2, fmt.explicitBits);
    DoubleShift(Pow(2, fmt.explicitBits) as real, q);
  }

  lemma DoubleShift(x: real, q: int)
    ensures Shifted(x, q + 1) == Shifted(2.0 * x, q)
  {
    TwoStep(q);
    hide Two;
    RMulPull(x, 2.0, Two(q));
  }

  lemma CarryBelow(fmt: BinaryFormat, y: real, q: int)
    requires IsFormat(fmt) && q < MaxQuantum(fmt) && 0.0 <= y < Pow(2, fmt.explicitBits + 1) as real
    ensures Shifted(y, q) < OverflowBound(fmt)
  {
    hide Pow, Shifted;
    PowPos(2, fmt.explicitBits);
    PowStep(2, fmt.explicitBits);
    var h := Pow(2, fmt.explicitBits);
    ShiftedMono(y, 2.0 * h as real, q);
    DoubleShift(h as real, q);
    ScaleUpTo(h as real, q + 1, MaxQuantum(fmt));
    ShiftedMono(h as real, (2 * h) as real - 0.5, MaxQuantum(fmt));
  }

  lemma ScaleUpTo(x: real, q: int, r: int)
    requires x >= 0.0 && q <= r
    ensures Shifted(x, q) <= Shifted(x, r)
  {
    hide Two;
    TwoMono(q, r);
    RMulMono(x, Two(q), Two(r));
  }

  lemma SmallMod(n: int, h: int)
    requires 0 <= n < h
    ensures n % h == n
  {
  }

  lemma ModShift(n: int, h: int)
    requires h <= n < 2 * h
    ensures n % h == n - h
  {
    assert n / h == 1 by {
      var q := n / h;
      assert n == q * h + n % h;
      if q >= 2 {
        MulMono(h, 2, q);
      } else if q <= 0 {
        MulMono(h, q, 0);
      }
    }
  }

  // The specification determines the encoding ------------------------------------------------------

  function Significand(fmt: BinaryFormat, am: AdjustedMantissa): int {
    if am.power2 == 0 then am.mantissa else Pow(2, fmt.explicitBits) + am.mantissa
  }

  function Quantum(fmt: BinaryFormat, am: AdjustedMantissa): int {
    MinQuantum(fmt) + if am.power2 == 0 then 0 else am.power2 - 1
  }

  lemma FiniteIsRepresentable(fmt: BinaryFormat, am: AdjustedMantissa)
    requires IsFormat(fmt) && IsFinite(fmt, am)
    ensures Representable(fmt, Significand(fmt, am), Quantum(fmt, am))
    ensures Decode(fmt, am) == Shifted(Significand(fmt, am) as real, Quantum(fmt, am))
  {
    hide Pow, Shifted;
    PowStep(2, fmt.explicitBits);
  }

  ghost predicate Before(a: AdjustedMantissa, b: AdjustedMantissa) {
    a.power2 < b.power2 || (a.power2 == b.power2 && a.mantissa < b.mantissa)
  }

  /** Encodings are ordered like the numbers they stand for. */
  lemma DecodeOrder(fmt: BinaryFormat, a: AdjustedMantissa, b: AdjustedMantissa)
    requires IsFormat(fmt) && IsFinite(fmt, a) && IsFinite(fmt, b) && Before(a, b)
    ensures Decode(fmt, a) < Decode(fmt, b)
  {
    hide Pow, Shifted, Decode;
    FiniteIsRepresentable(fmt, a);
    FiniteIsRepresentable(fmt, b);
    PowStep(2, fmt.explicitBits);
    var h, m, q := Pow(2, fmt.explicitBits), Significand(fmt, a), Quantum(fmt, a);
    if Quantum(fmt, b) == q {
      ShiftedMono(m as real, Significand(fmt, b) as real, q);
    } else {
      SmallerQuantum(fmt.explicitBits, m, q, Quantum(fmt, b));
      ShiftedMono(h as real, Significand(fmt, b) as real, Quantum(fmt, b));
    }
  }

  /** Between two even neighbours there is room for another number. */
  lemma BetweenEven(fmt: BinaryFormat, a: AdjustedMantissa, b: AdjustedMantissa) returns (c: AdjustedMantissa)
    requires IsFormat(fmt) && IsFinite(fmt, a) && IsFinite(fmt, b) && Before(a, b)
    requires a.mantissa % 2 == 0 && b.mantissa % 2 == 0
    ensures IsFinite(fmt, c) && Decode(fmt, a) < Decode(fmt, c) < Decode(fmt, b)
  {
    hide Pow, Decode;
    c := AdjustedMantissa(a.mantissa + 1, a.power2);
    PowStep(2, fmt.explicitBits - 1);
    DecodeOrder(fmt, a, c);
    DecodeOrder(fmt, c, b);
  }

  /** Two different encodings cannot both be the roundTiesToEven of a number. */
  lemma TwoNearestDiffer(fmt: BinaryFormat, x: real, a: AdjustedMantissa, b: AdjustedMantissa)
    requires IsFormat(fmt) && IsFinite(fmt, a) && IsFinite(fmt, b) && Before(a, b)
    requires x < OverflowBound(fmt) && IsRoundTiesToEven(fmt, x, a)
    ensures !IsRoundTiesToEven(fmt, x, b)
  {
    hide OverflowBound, Decode, Pow, Shifted;
    FiniteIsRepresentable(fmt, a);
    FiniteIsRepresentable(fmt, b);
    DecodeOrder(fmt, a, b);
    if Beats(x, Decode(fmt, b), b.mantissa % 2 == 0, Significand(fmt, a), Quantum(fmt, a)) {
      assert Beats(x, Decode(fmt, a), a.mantissa % 2 == 0, Significand(fmt, b), Quantum(fmt, b));
      var c := BetweenEven(fmt, a, b);
      FiniteIsRepresentable(fmt, c);
      assert false;
    }
  }

  /** At most one encoding is the roundTiesToEven of a number. */
  lemma RoundTiesToEvenUnique(fmt: BinaryFormat, x: real, a: AdjustedMantissa, b: AdjustedMantissa)
    requires IsFormat(fmt) && IsRoundTiesToEven(fmt, x, a) && IsRoundTiesToEven(fmt, x, b)
    ensures a == b
  {
    hide OverflowBound, Decode, Pow, Beats;
    if x < OverflowBound(fmt) && Before(a, b) {
      TwoNearestDiffer(fmt, x, a, b);
    } else if x < OverflowBound(fmt) && Before(b, a) {
      TwoNearestDiffer(fmt, x, b, a);
    }
  }

  // Rounding is monotone --------------------------------------------------------------------------

  /** What rounds a lower and an upper bound rounds everything between them. */
  lemma RoundBetween(fmt: BinaryFormat, low: real, x: real, high: real, a: AdjustedMantissa)
    requires IsFormat(fmt) && low <= x <= high
    requires IsRoundTiesToEven(fmt, low, a) && IsRoundTiesToEven(fmt, high, a)
    ensures IsRoundTiesToEven(fmt, x, a)
  {
    hide OverflowBound, Decode, Pow, Shifted, Beats;
    if high < OverflowBound(fmt) {
      forall m, q | Representable(fmt, m, q)
        ensures Beats(x, Decode(fmt, a), a.mantissa % 2 == 0, m, q)
      {
        BeatsBetween(low, x, high, Decode(fmt, a), a.mantissa % 2 == 0, m, q);
      }
    }
  }

  lemma BeatsBetween(low: real, x: real, high: real, v: real, even: bool, m: int, q: int)
    requires low <= x <= high && Beats(low, v, even, m, q) && Beats(high, v, even, m, q)
    ensures Beats(x, v, even, m, q)
  {
    hide Shifted;
  }
}
