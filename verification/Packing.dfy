/** How to_float packs an encoding into the word of a binary interchange format. */
module Packing {
  import opened Powers
  import opened MachineWords
  import opened Ieee754

  /** The fraction and exponent fields of a word without sign. */
  function Fields(fmt: BinaryFormat, word: nat): AdjustedMantissa {
    PowPos(2, fmt.explicitBits);
    AdjustedMantissa(word % Pow(2, fmt.explicitBits), word / Pow(2, fmt.explicitBits))
  }

  /** The two parts joined by a bitwise or. */
  function Packed(fmt: BinaryFormat, am: AdjustedMantissa): nat
    requires am.mantissa >= 0 && am.power2 >= 0
  {
    BitOr(am.mantissa, Pow(2, fmt.explicitBits) * am.power2)
  }

  /** The place of the sign bit: behind the exponent field. */
  function SignIndex(fmt: BinaryFormat): nat {
    if fmt.explicitBits == 52 then 63 else 31
  }

  function ToFloat(fmt: BinaryFormat, negative: bool, am: AdjustedMantissa): nat
    requires am.mantissa >= 0 && am.power2 >= 0
  {
    if negative then BitOr(Packed(fmt, am), Pow(2, SignIndex(fmt))) else Packed(fmt, am)
  }

  /** The word without sign is the roundTiesToEven of x. */
  ghost predicate Encodes(fmt: BinaryFormat, x: real, word: nat) {
    IsRoundTiesToEven(fmt, x, Fields(fmt, word))
  }

  /** The word is that of x with the sign. */
  ghost predicate IsFloat(fmt: BinaryFormat, x: real, negative: bool, word: nat) {
    var sign := Pow(2, SignIndex(fmt));
    if negative then word >= sign && word - sign < sign && Encodes(fmt, x, word - sign)
      else word < sign && Encodes(fmt, x, word)
  }

  lemma {:induction false} OrZero(x: nat)
    ensures BitOr(x, 0) == x && BitOr(0, x) == x
    decreases x
  {
    OrHalf(x, 0);
    OrHalf(0, x);
    if x > 0 {
      OrZero(x / 2);
    }
  }

  /** A fraction that fits its field is packed beside the exponent. */
  lemma PackedIs(fmt: BinaryFormat, am: AdjustedMantissa)
    requires 0 <= am.mantissa < Pow(2, fmt.explicitBits) && am.power2 >= 0
    ensures Packed(fmt, am) == am.mantissa + Pow(2, fmt.explicitBits) * am.power2
    ensures Fields(fmt, Packed(fmt, am)) == am
  {
    var k := fmt.explicitBits;
    OrLanes(k, am.mantissa, 0, 0, am.power2);
    OrZero(am.mantissa);
    OrZero(am.power2);
    hide Pow, BitOr;
    FieldsOf(am.mantissa, Pow(2, k), am.power2);
  }

  lemma FieldsOf(m: int, p: int, e: int)
    requires 0 <= m < p && e >= 0
    ensures (m + p * e) / p == e && (m + p * e) % p == m
  {
    var x := m + p * e;
    var q, r := x / p, x % p;
    assert p * q + r == x;
    if q < e {
      MulMono(p, q + 1, e);
    } else if q > e {
      MulMono(p, e + 1, q);
    }
  }

  /** A fraction that is one too large for its field only sets a bit of an odd exponent that is set already. */
  lemma PackedCarry(fmt: BinaryFormat, am: AdjustedMantissa)
    requires am.mantissa == Pow(2, fmt.explicitBits) && am.power2 > 0 && am.power2 % 2 == 1
    ensures Fields(fmt, Packed(fmt, am)) == AdjustedMantissa(0, am.power2)
  {
    var k := fmt.explicitBits;
    PowPos(2, k);
    OrLanes(k, 0, 1, 0, am.power2);
    OrHalf(1, am.power2);
    OrZero(am.power2 / 2);
    OrZero(0);
    assert BitOr(1, am.power2) == am.power2;
    hide Pow, BitOr;
    FieldsOf(0, Pow(2, k), am.power2);
  }

  /** Every encoding of the format leaves the sign bit free. */
  lemma MagnitudeBelow(fmt: BinaryFormat, x: real, word: nat)
    requires IsFormat(fmt) && Encodes(fmt, x, word)
    ensures word < Pow(2, SignIndex(fmt))
  {
    hide OverflowBound, Beats, Decode;
    var k := fmt.explicitBits;
    PowPos(2, k);
    PowAdd(2, k, SignIndex(fmt) - k);
    assert Pow(2, 11) == 2048 && Pow(2, 8) == 256;
    var f := Fields(fmt, word);
    assert f.power2 <= fmt.infinitePower < Pow(2, SignIndex(fmt) - k);
    hide Pow, Fields;
    QuotientBelow(word, Pow(2, k), Pow(2, SignIndex(fmt) - k)) by { FieldsAre(fmt, word); }
  }

  lemma FieldsAre(fmt: BinaryFormat, word: nat)
    ensures Pow(2, fmt.explicitBits) > 0 && Fields(fmt, word).power2 == word / Pow(2, fmt.explicitBits)
  {
    PowPos(2, fmt.explicitBits);
  }

  lemma QuotientBelow(x: int, p: int, q: int)
    requires p > 0 && x / p < q
    ensures x < p * q
  {
    MulMono(p, x / p + 1, q);
  }

  /** Packing with the sign gives the word of the number. */
  lemma ToFloatCorrect(fmt: BinaryFormat, x: real, negative: bool, am: AdjustedMantissa)
    requires IsFormat(fmt) && am.mantissa >= 0 && am.power2 >= 0 && Encodes(fmt, x, Packed(fmt, am))
    ensures IsFloat(fmt, x, negative, ToFloat(fmt, negative, am))
  {
    hide Encodes, Packed, Pow, BitOr;
    var word, k := Packed(fmt, am), SignIndex(fmt);
    MagnitudeBelow(fmt, x, word);
    OrLanes(k, word, 0, 0, 1);
    OrZero(word);
    OrZero(1);
  }

  /** An encoding within its fields is packed as it is. */
  lemma EncodesFields(fmt: BinaryFormat, x: real, am: AdjustedMantissa)
    requires IsFormat(fmt) && IsRoundTiesToEven(fmt, x, am)
    ensures am.mantissa >= 0 && am.power2 >= 0 && Encodes(fmt, x, Packed(fmt, am))
  {
    PowPos(2, fmt.explicitBits);
    hide OverflowBound, Beats, Decode, Pow;
    PackedIs(fmt, am);
  }
}
