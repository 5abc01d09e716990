/** What the bits of the words of the two interchange formats say, in numbers. */
module FloatWords {
  import opened Powers
  import opened Ieee754
  import opened Packing

  /** No k * 2^q with k below `digits` and q from `least` to `most` is nearer to x than v, and one that is as near
      only if v is even. */
  ghost predicate IsNearest(x: real, v: real, even: bool, digits: int, least: int, most: int) {
    forall k, q :: 0 <= k < digits && least <= q <= most ==> AsNear(x, v, even, k, q)
  }

  ghost predicate AsNear(x: real, v: real, even: bool, k: int, q: int) {
    var w := Shifted(k as real, q);
    Abs(x - v) <= Abs(x - w) && (Abs(x - v) == Abs(x - w) && v != w ==> even)
  }

  lemma DoublePowers()
    ensures Pow(2, 52) == 0x10_0000_0000_0000 && Pow(2, 53) == 0x20_0000_0000_0000
    ensures Pow(2, 63) == 0x8000_0000_0000_0000
  {
    assert Pow(2, 9) == 512 && Pow(2, 8) == 256 && Pow(2, 11) == 2048 && Pow(2, 1) == 2;
    hide Pow;
    PowAdd(2, 9, 9);
    PowAdd(2, 18, 8);
    PowAdd(2, 26, 26);
    PowAdd(2, 52, 1);
    PowAdd(2, 52, 11);
  }

  lemma SinglePowers()
    ensures Pow(2, 23) == 0x80_0000 && Pow(2, 24) == 0x100_0000 && Pow(2, 31) == 0x8000_0000
  {
    assert Pow(2, 11) == 2048 && Pow(2, 12) == 4096 && Pow(2, 8) == 256 && Pow(2, 1) == 2;
    hide Pow;
    PowAdd(2, 11, 12);
    PowAdd(2, 23, 1);
    PowAdd(2, 23, 8);
  }

  /** A bound with a half is twice that bound, one place lower. */
  lemma HalfPlace(k: int, q: int)
    ensures Shifted(k as real - 0.5, q) == Shifted((2 * k - 1) as real, q - 1)
  {
    TwoStep(q - 1);
    hide Two;
    RMulPull((2 * k - 1) as real, 0.5, 2.0 * Two(q - 1));
    assert k as real - 0.5 == 0.5 * (2 * k - 1) as real;
    HalfTwice((2 * k - 1) as real, Two(q - 1));
  }

  lemma HalfTwice(x: real, t: real)
    ensures (0.5 * x) * (2.0 * t) == x * t
  {
    RMulPull(0.5 * x, 2.0, t);
  }

  /** The rounding of x, by its fields. */
  lemma RoundingFields(fmt: BinaryFormat, x: real, am: AdjustedMantissa, digits: int)
    requires IsFormat(fmt) && IsRoundTiesToEven(fmt, x, am) && digits == Pow(2, fmt.explicitBits + 1)
    ensures x < OverflowBound(fmt) <==> am.power2 < fmt.infinitePower
    ensures x < OverflowBound(fmt) ==>
      IsFinite(fmt, am) &&
      IsNearest(x, Decode(fmt, am), am.mantissa % 2 == 0, digits, MinQuantum(fmt), MaxQuantum(fmt))
    ensures x >= OverflowBound(fmt) ==> am == Infinity(fmt)
  {
    hide Pow, Two, Shifted, Decode, OverflowBound, MinQuantum, MaxQuantum;
    if x < OverflowBound(fmt) {
      var v, even := Decode(fmt, am), am.mantissa % 2 == 0;
      forall k, q | 0 <= k < digits && MinQuantum(fmt) <= q <= MaxQuantum(fmt)
        ensures AsNear(x, v, even, k, q)
      {
        assert Representable(fmt, k, q);
      }
    }
  }

  /** A word of 64 bits: the sign, eleven bits of exponent and 52 of fraction. */
  lemma DoubleWord(x: real, negative: bool, word: nat)
    requires IsFloat(BINARY64, x, negative, word)
    ensures word < 0x1_0000_0000_0000_0000 && (negative <==> word >= 0x8000_0000_0000_0000)
    ensures var e, m := (word / 0x10_0000_0000_0000) % 0x800, word % 0x10_0000_0000_0000;
      if x >= Shifted(0x3F_FFFF_FFFF_FFFF as real, 970) then e == 0x7FF && m == 0
      else e < 0x7FF && IsNearest(x,
        if e == 0 then Shifted(m as real, -1074) else Shifted((0x10_0000_0000_0000 + m) as real, e - 1075), m % 2 == 0,
        0x20_0000_0000_0000, -1074, 971)
  {
    DoublePowers();
    HalfPlace(0x20_0000_0000_0000, 971);
    hide Pow, IsRoundTiesToEven, Shifted, IsNearest;
    var magnitude := if negative then word - 0x8000_0000_0000_0000 else word;
    var am := Fields(BINARY64, magnitude);
    RoundingFields(BINARY64, x, am, 0x20_0000_0000_0000);
    DoubleFields(magnitude, word, negative);
  }

  lemma DoubleFields(magnitude: nat, word: nat, negative: bool)
    requires magnitude < 0x8000_0000_0000_0000
    requires word == magnitude + if negative then 0x8000_0000_0000_0000 else 0
    ensures (word / 0x10_0000_0000_0000) % 0x800 == magnitude / 0x10_0000_0000_0000
    ensures word % 0x10_0000_0000_0000 == magnitude % 0x10_0000_0000_0000
  {
  }

  /** A word of 32 bits: the sign, eight bits of exponent and 23 of fraction. */
  lemma SingleWord(x: real, negative: bool, word: nat)
    requires IsFloat(BINARY32, x, negative, word)
    ensures word < 0x1_0000_0000 && (negative <==> word >= 0x8000_0000)
    ensures var e, m := (word / 0x80_0000) % 0x100, word % 0x80_0000;
      if x >= Shifted(0x1FF_FFFF as real, 103) then e == 0xFF && m == 0
      else e < 0xFF && IsNearest(x,
        if e == 0 then Shifted(m as real, -149) else Shifted((0x80_0000 + m) as real, e - 150), m % 2 == 0,
        0x100_0000, -149, 104)
  {
    SinglePowers();
    HalfPlace(0x100_0000, 104);
    hide Pow, IsRoundTiesToEven, Shifted, IsNearest;
    var magnitude := if negative then word - 0x8000_0000 else word;
    var am := Fields(BINARY32, magnitude);
    RoundingFields(BINARY32, x, am, 0x100_0000);
    SingleFields(magnitude, word, negative);
  }

  lemma SingleFields(magnitude: nat, word: nat, negative: bool)
    requires magnitude < 0x8000_0000 && word == magnitude + if negative then 0x8000_0000 else 0
    ensures (word / 0x80_0000) % 0x100 == magnitude / 0x80_0000 && word % 0x80_0000 == magnitude % 0x80_0000
  {
  }
}
