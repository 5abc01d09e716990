/** from_chars_advanced: how the fast path, its recheck and the long path join. */
module FromChars {
  import opened Powers
  import opened Digits
  import opened MachineWords
  import opened EightDigits
  import opened NumberText
  import opened NumberGrammar
  import opened Ieee754
  import opened Decimals
  import opened Conversion
  import opened AsciiNumber
  import opened DecimalText
  import opened Packing
  import opened ProductApproximation
  import opened FastTable
  import opened FastConversion
  import opened FastRounding

  /** The table of powers of five, as a function of the exponent. */
  ghost predicate IsTable(table: int -> Value128) {
    forall q :: InTable(q) ==> IsEntry(q, table(q))
  }

  /** Texts whose digits and exponent leave the long path room for every digit. */
  predicate TextWithinBudget(text: seq<Byte>, point: Byte) {
    var n := |Significant(DigitsIn(text, LayoutOf(text, point)))|;
    n <= MAX_DIGITS && WithinBudget(n, PointOf(text, point))
  }

  /** The conversion through the decimal buffer. `stored` is the number in the buffer before the scaling, and
      `exact` tells whether no digit was lost at all. What the other reader made of the text describes it. */
  method ParseLongMantissa(fmt: BinaryFormat, text: seq<Byte>, options: ParseOptions, ghost pns: ParsedNumberString)
    returns (am: AdjustedMantissa, ghost exact: bool, ghost stored: real)
    requires IsFormat(fmt) && text != [] && |text| < INT32_LIMIT && !IsInteger(options.decimalPoint)
    requires Accepts(text, options) && Describes(pns, ReadValue(text, options))
    requires pns.tooManyDigits == (|Significant(DigitsIn(text, LayoutOf(text, options.decimalPoint)))| > 19)
    ensures exact ==> IsRoundTiesToEven(fmt, LooseValue(text, options.decimalPoint), am)
    ensures am.mantissa >= 0 && am.power2 >= 0
    ensures TextWithinBudget(text, options.decimalPoint) ==> exact
    ensures exact ==> stored == LooseValue(text, options.decimalPoint)
    ensures ReadersMatch(text, options) ==> StoresBracket(pns, stored)
  {
    hide DigitsIn, Significant, LayoutOf, PointOf, LooseValue, IsRoundTiesToEven, Val, Ten, Accepts, ReadValue,
      ReadersMatch, Describes, TextWithinBudget, StoresBracket;
    var d := ParseDecimal(text, options);
    stored := d.Value();
    if ReadersMatch(text, options) {
      ReadersAgree(text, options, pns, d);
    }
    if TextWithinBudget(text, options.decimalPoint) {
      BudgetDigits(text, options.decimalPoint);
      ShortTextWhole(text, options.decimalPoint, d);
      BudgetPlaces(text, options.decimalPoint, d);
    }
    am := ComputeFloat(fmt, d);
    exact := !d.truncated;
  }

  lemma BudgetDigits(text: seq<Byte>, point: Byte)
    requires TextWithinBudget(text, point)
    ensures |Significant(DigitsIn(text, LayoutOf(text, point)))| <= MAX_DIGITS
  {
  }

  lemma BudgetPlaces(text: seq<Byte>, point: Byte, d: Decimal)
    requires TextWithinBudget(text, point) && d.numDigits <= |Significant(DigitsIn(text, LayoutOf(text, point)))|
    requires d.decimalPoint == PointOf(text, point)
    ensures WithinBudget(d.numDigits, d.decimalPoint)
  {
  }

  /** The number lies in the bracket that is described, and at its lower end if no digit was dropped. */
  predicate StoresBracket(pns: ParsedNumberString, stored: real) {
    if pns.tooManyDigits then Units(pns.mantissa, pns.exponent) <= stored < Units(pns.mantissa + 1, pns.exponent)
    else stored == Units(pns.mantissa, pns.exponent)
  }

  /** A text of at most 768 significant digits is stored whole. */
  lemma ShortTextWhole(text: seq<Byte>, point: Byte, d: Decimal)
    requires d.Holds(LooseValue(text, point)) && (d.truncated <==> d.Value() != LooseValue(text, point))
    requires d.decimalPoint == PointOf(text, point)
    requires |Significant(DigitsIn(text, LayoutOf(text, point)))| <= MAX_DIGITS
    ensures !d.truncated
  {
    hide DigitsIn, Significant, LayoutOf, LooseValue, Val, Ten, Numeral, LooseExponent, Multiple;
    FractionOf(text, point);
    var s := Significant(DigitsIn(text, LayoutOf(text, point)));
    ValMultiple(s, PointOf(text, point));
    MultipleWeaken(LooseValue(text, point), d.decimalPoint - |s|, d.decimalPoint - MAX_DIGITS);
    HeldMultiple(d.Digits(), d.decimalPoint, LooseValue(text, point));
  }

  /** A multiple of the place behind the buffer that is not above a number is not above what the buffer holds of it. */
  lemma HeldAbove(s: seq<int>, point: int, x: real, y: real)
    requires |s| <= MAX_DIGITS && Multiple(y, point - MAX_DIGITS) && y <= x < Val(s, point) + Ten(point - MAX_DIGITS)
    ensures y <= Val(s, point)
  {
    hide Ten, Val, Multiple;
    if y > Val(s, point) {
      HeldMultiple(s, point, y);
    }
  }

  /** A number of the bracket is below ten to the power of its nineteen digits and the exponent. */
  lemma BracketScale(pns: ParsedNumberString, x: real)
    requires Describes(pns, x) && pns.tooManyDigits
    ensures 0.0 < x < Ten(pns.exponent + 19)
  {
    TenToNineteen();
    hide Ten, Pow;
    TenSplit(19, pns.exponent);
    TenPos(pns.exponent);
    ScaleArith(pns.mantissa, 10 * NINETEEN_DIGITS, Ten(pns.exponent), x);
  }

  lemma ScaleArith(m: int, p: int, t: real, x: real)
    requires 1 <= m < p && t > 0.0 && m as real * t <= x < (m + 1) as real * t
    ensures 0.0 < x < p as real * t
  {
    RMulMono(t, (m + 1) as real, p as real);
    RMulMonoStrict(t, 0.0, m as real);
    assert (m + 1) as real * t <= p as real * t;
    assert 0.0 * t == 0.0;
  }

  /** What one reader stores describes what the other one stores: the same number, or a bracket around the
      decimal, also when the decimal was cut. */
  lemma ReadersAgree(text: seq<Byte>, options: ParseOptions, pns: ParsedNumberString, d: Decimal)
    requires Accepts(text, options) && ReadersMatch(text, options) && Describes(pns, ReadValue(text, options))
    requires pns.tooManyDigits == (|Significant(DigitsIn(text, LayoutOf(text, options.decimalPoint)))| > 19)
    requires d.Valid() && d.Holds(LooseValue(text, options.decimalPoint))
    requires d.decimalPoint == PointOf(text, options.decimalPoint)
    requires d.truncated <==> d.Value() != LooseValue(text, options.decimalPoint)
    requires d.numDigits == 0 <==> Numeral(DigitsIn(text, LayoutOf(text, options.decimalPoint))) == 0
    ensures StoresBracket(pns, d.Value()) && (d.truncated ==> pns.tooManyDigits)
  {
    hide DigitsIn, Significant, LayoutOf, LooseValue, ReadValue, PointOf, Val, Ten, Pow, Numeral, Multiple,
      LooseExponent, ReadersMatch;
    SameNumber(text, options);
    var x := ReadValue(text, options);
    if pns.tooManyDigits {
      FractionOf(text, options.decimalPoint);
      BracketScale(pns, x);
      HeldRange(d.Digits(), d.decimalPoint, x);
      TenLtInverse(d.decimalPoint - 1, pns.exponent + 19);
      assert Multiple(Units(pns.mantissa, pns.exponent), pns.exponent) by { UnitsMultiple(pns.mantissa, pns.exponent); }
      MultipleWeaken(Units(pns.mantissa, pns.exponent), pns.exponent, d.decimalPoint - MAX_DIGITS);
      HeldAbove(d.Digits(), d.decimalPoint, x, Units(pns.mantissa, pns.exponent));
    } else {
      ShortTextWhole(text, options.decimalPoint, d);
    }
  }

  lemma UnitsMultiple(m: int, e: int)
    ensures Multiple(Units(m, e), e)
  {
  }

  /** A positive number is at least as large as the place of its first digit. */
  lemma HeldRange(s: seq<int>, point: int, x: real)
    requires IsDigits(s) && |s| <= MAX_DIGITS && (s != [] ==> s[0] != 0)
    requires Val(s, point) <= x < Val(s, point) + Ten(point - MAX_DIGITS) && x > 0.0
    ensures s != [] ==> Ten(point - 1) <= x
    ensures s == [] ==> x < Ten(point - MAX_DIGITS)
  {
    hide Ten, Val;
    if s != [] {
      ValRange(s, point);
    } else {
      NothingHeld(point);
    }
  }

  // The cap on the exponent ------------------------------------------------------------------------------------

  /** Texts so short that a capped exponent means infinity or zero in any case. */
  const SHORT_TEXT := 65000

  predicate CapSafe(text: seq<Byte>, options: ParseOptions) {
    CapHarmless(text, options) || |text| <= SHORT_TEXT
  }

  /** The cap changes nothing, or both the number written and the number read overflow, or both round to zero. */
  ghost predicate CapAgrees(fmt: BinaryFormat, text: seq<Byte>, options: ParseOptions)
    requires Accepts(text, options)
  {
    var x, y := ReadValue(text, options), TextValue(text, options);
    CapHarmless(text, options) || (x >= OverflowBound(fmt) && y >= OverflowBound(fmt)) ||
    (x <= HalfSmallest(fmt) && y <= HalfSmallest(fmt))
  }

  /** Numbers that are farther apart than the whole range of the format do not round alike, but for infinity
      and zero. */
  lemma FarApart(fmt: BinaryFormat, x: real, y: real, am: AdjustedMantissa)
    requires IsFormat(fmt) && IsRoundTiesToEven(fmt, x, am) && IsRoundTiesToEven(fmt, y, am)
    requires 0.0 <= x && (x >= Ten(-325) ==> y >= Ten(309)) && x <= y
    ensures (x >= OverflowBound(fmt) && y >= OverflowBound(fmt)) || (x <= HalfSmallest(fmt) && y <= HalfSmallest(fmt))
  {
    hide Ten, Two, IsRoundTiesToEven, OverflowBound, HalfSmallest;
    NotInfinite(fmt, x, am);
    NotInfinite(fmt, y, am);
    ZeroRounds(fmt, x);
    ZeroRounds(fmt, y);
    if x < Ten(-325) {
      TinyIsZero(fmt, x);
      RoundTiesToEvenUnique(fmt, x, am, ZERO);
    } else {
      HugeTen();
      HugeIsInfinite(fmt, y);
      RoundTiesToEvenUnique(fmt, y, am, Infinity(fmt));
    }
  }

  lemma FarScale(m: int, a: int, b: int)
    requires m >= 1 && b >= a + 634
    ensures 0.0 <= Units(m, a) <= Units(m, b) && (Units(m, a) >= Ten(-325) ==> Units(m, b) >= Ten(309))
  {
    hide Ten;
    TenPos(a);
    RMulMono(m as real, 0.0, Ten(a));
    TenMono(a, b);
    RMulMono(m as real, Ten(a), Ten(b));
    if Units(m, a) >= Ten(-325) {
      TenMono(a + 634, b);
      RMulMono(m as real, Ten(a + 634), Ten(b));
      TenAdd(634, a);
      TenAdd(634, -325);
      TenPos(634);
      RMulPull(m as real, Ten(634), Ten(a));
      RMulMono(Ten(634), Ten(-325), Units(m, a));
    }
  }

  /** A positive integer of so many digits, scaled far up or far down. */
  lemma ScaledFar(m: int, n: nat, e: int)
    requires 1 <= m < Pow(10, n)
    ensures e >= 309 ==> Units(m, e) >= Ten(309)
    ensures e + n <= -326 ==> 0.0 <= Units(m, e) < Ten(-325)
  {
    hide Ten, Pow;
    TenPos(e);
    RMulMono(Ten(e), 1.0, m as real);
    if e >= 309 {
      TenMono(309, e);
    }
    BelowTenTo(m, n, e);
    if e + n <= -326 {
      TenMonoStrict(n + e, -325);
    }
  }

  lemma BelowTenTo(m: int, n: nat, e: int)
    requires 1 <= m < Pow(10, n)
    ensures 0.0 <= Units(m, e) < Ten(n + e)
  {
    hide Ten, Pow;
    TenPos(e);
    TenSplit(n, e);
    RMulMono(Ten(e), 0.0, m as real);
    RMulMonoStrict(Ten(e), m as real, Pow(10, n) as real);
  }

  /** Where the cap does harm both exponents are large, on the same side, and far from each other. */
  lemma CapExponents(text: seq<Byte>, p: nat)
    requires p <= |text| && Capped(ExponentDigits(text, p)) != Numeral(ExponentDigits(text, p))
    ensures var a, b := Signed(text, p, Capped(ExponentDigits(text, p))),
        Signed(text, p, Numeral(ExponentDigits(text, p)));
      (a >= EXPONENT_LIMIT && b >= a + 9 * EXPONENT_LIMIT) || (a <= -EXPONENT_LIMIT && b <= a - 9 * EXPONENT_LIMIT)
  {
    hide Capped, Numeral, ExponentDigits;
    ExponentIsDigits(text, p);
    CappedApart(ExponentDigits(text, p));
  }

  /** Every digit that the cap drops multiplies the exponent by ten. */
  lemma {:induction false} CappedApart(s: seq<int>)
    requires IsDigits(s) && Capped(s) != Numeral(s)
    ensures Capped(s) >= EXPONENT_LIMIT && Numeral(s) >= 10 * Capped(s)
  {
    CappedExact(s);
    var t := s[..|s| - 1];
    CappedExact(t);
    if Capped(t) != Numeral(t) {
      CappedApart(t);
    }
  }

  lemma TextDigits(text: seq<Byte>, point: Byte)
    ensures var l := LayoutOf(text, point); var d := DigitsIn(text, l);
      IsDigits(d) && |d| <= |text| && 0 <= FractionDigits(l) <= |text| && 0 <= Numeral(d) < Pow(10, |d|)
  {
    hide Numeral, Pow;
    FractionOf(text, point);
    NumeralBound(DigitsIn(text, LayoutOf(text, point)));
  }

  /** What the two readings of the exponent give where they differ. */
  lemma CapUnits(text: seq<Byte>, options: ParseOptions) returns (m: int, a: int, b: int)
    requires Accepts(text, options) && !CapHarmless(text, options)
    ensures ReadValue(text, options) == Units(m, a) && TextValue(text, options) == Units(m, b)
    ensures 1 <= m < Pow(10, |text|)
    ensures (a >= EXPONENT_LIMIT - |text| && b >= a + 9 * EXPONENT_LIMIT)
      || (a <= -EXPONENT_LIMIT && b <= a - 9 * EXPONENT_LIMIT)
  {
    hide Ten, Pow, Numeral, Capped, DigitsOf, LayoutOf, HasE, DigitsIn, ExponentDigits, Units, IsDigits, Signed,
      ReadExponent, FractionDigits;
    var l := LayoutOf(text, options.decimalPoint);
    ReadExponentIs(text, l.fracEnd, options);
    TextDigits(text, options.decimalPoint);
    CapExponents(text, l.fracEnd);
    PowMono(10, |DigitsIn(text, l)|, |text|);
    m := Numeral(DigitsIn(text, l));
    a := ReadExponent(text, l.fracEnd, options).value - FractionDigits(l);
    b := WrittenExponent(text, l.fracEnd, options) - FractionDigits(l);
  }

  lemma AlikeAtEnds(fmt: BinaryFormat, x: real, y: real, am: AdjustedMantissa)
    requires IsFormat(fmt) && IsRoundTiesToEven(fmt, x, am) && x >= 0.0 && y >= 0.0
    requires (x >= OverflowBound(fmt) && y >= OverflowBound(fmt)) || (x <= HalfSmallest(fmt) && y <= HalfSmallest(fmt))
    ensures IsRoundTiesToEven(fmt, y, am)
  {
    hide OverflowBound, HalfSmallest, Beats, Decode, Representable, IsFinite;
    if x <= HalfSmallest(fmt) && y <= HalfSmallest(fmt) {
      ZeroRounds(fmt, x);
      ZeroRounds(fmt, y);
      RoundTiesToEvenUnique(fmt, x, am, ZERO);
    }
  }

  lemma UnitsPositive(m: int, e: int)
    requires m >= 1
    ensures Units(m, e) >= 0.0
  {
    hide Ten;
    TenPos(e);
    RMulMono(Ten(e), 0.0, m as real);
  }

  /** When exactly rounding the number read is rounding the number written. */
  lemma CapRounds(fmt: BinaryFormat, text: seq<Byte>, options: ParseOptions, am: AdjustedMantissa)
    requires IsFormat(fmt) && Accepts(text, options) && IsRoundTiesToEven(fmt, ReadValue(text, options), am)
    ensures IsRoundTiesToEven(fmt, TextValue(text, options), am) <==> CapAgrees(fmt, text, options)
  {
    hide IsFormat, IsRoundTiesToEven, Accepts, ReadValue, TextValue, CapHarmless, OverflowBound, HalfSmallest, Units,
      Ten, Pow;
    CapMeaning(text, options);
    if !CapHarmless(text, options) {
      var m, a, b := CapUnits(text, options);
      UnitsPositive(m, a);
      UnitsPositive(m, b);
      if CapAgrees(fmt, text, options) {
        AlikeAtEnds(fmt, Units(m, a), Units(m, b), am);
      } else if IsRoundTiesToEven(fmt, Units(m, b), am) {
        if a < b {
          FarScale(m, a, b);
          FarApart(fmt, Units(m, a), Units(m, b), am);
        } else {
          FarScale(m, b, a);
          FarApart(fmt, Units(m, b), Units(m, a), am);
        }
      }
    }
  }

  /** In a text that is not too long the cap does not change the rounding. */
  lemma ShortTextRounds(fmt: BinaryFormat, text: seq<Byte>, options: ParseOptions)
    requires IsFormat(fmt) && Accepts(text, options) && CapSafe(text, options)
    ensures CapAgrees(fmt, text, options)
  {
    hide Ten, Two, Pow, Accepts, ReadValue, TextValue, CapHarmless, OverflowBound, HalfSmallest, Units;
    if !CapHarmless(text, options) {
      var m, a, b := CapUnits(text, options);
      ScaledFar(m, |text|, a);
      ScaledFar(m, |text|, b);
      if a >= 309 {
        HugeOverflows(fmt, Units(m, a));
        HugeOverflows(fmt, Units(m, b));
      } else {
        TinyIsZero(fmt, Units(m, a));
        TinyIsZero(fmt, Units(m, b));
        ZeroRounds(fmt, Units(m, a));
        ZeroRounds(fmt, Units(m, b));
      }
    }
  }

  lemma HugeOverflows(fmt: BinaryFormat, x: real)
    requires IsFormat(fmt) && x >= Ten(309)
    ensures x >= OverflowBound(fmt)
  {
    hide Ten, Two, OverflowBound, IsRoundTiesToEven;
    HugeTen();
    HugeIsInfinite(fmt, x);
    NotInfinite(fmt, x, Infinity(fmt));
  }

  /** The text of `LongText`, which writes one, is given the word of zero. */
  lemma LongTextRounds()
    ensures var options := ParseOptions(true, true, 0x2E);
      && Accepts(LongText(), options)
      && Encodes(BINARY64, ReadValue(LongText(), options), 0)
      && Encodes(BINARY64, TextValue(LongText(), options), 0x3FF0_0000_0000_0000)
      && !CapAgrees(BINARY64, LongText(), options)
  {
    hide LongText, Accepts, ReadValue, TextValue, CapAgrees, IsRoundTiesToEven, Ten, Encodes;
    var options := ParseOptions(true, true, 0x2E);
    LongTextMisread();
    TenPos(-900001);
    TenMonoStrict(-900001, -325);
    TinyIsZero(BINARY64, Ten(-900001));
    OneRounds();
    EncodesWord(Ten(-900001), ZERO, 0);
    EncodesWord(1.0, AdjustedMantissa(0, 1023), 0x3FF0_0000_0000_0000);
    CapRounds(BINARY64, LongText(), options, ZERO);
    if IsRoundTiesToEven(BINARY64, 1.0, ZERO) {
      RoundTiesToEvenUnique(BINARY64, 1.0, ZERO, AdjustedMantissa(0, 1023));
    }
  }

  lemma EncodesWord(x: real, am: AdjustedMantissa, word: nat)
    requires IsRoundTiesToEven(BINARY64, x, am) && word == am.power2 * 0x10_0000_0000_0000 && am.mantissa == 0
    ensures Encodes(BINARY64, x, word)
  {
    EdgePowers();
    hide Pow, IsRoundTiesToEven;
  }

  lemma OneRounds()
    ensures IsRoundTiesToEven(BINARY64, 1.0, AdjustedMantissa(0, 1023))
  {
    EdgePowers();
    PowStep(2, 52);
    hide Pow, Two, IsRoundTiesToEven, Shifted, NearestInteger;
    var y := Pow(2, 52) as real;
    TwoIsPow(52);
    ShiftedOne(52);
    ShiftedAdd(1.0, 52, -52);
    ShiftedZero(1.0);
    WholeIsNearest(Pow(2, 52));
    PackCorrect(BINARY64, 1.0, y, -52, Pow(2, 52), AdjustedMantissa(0, 1023));
  }

  lemma ShiftedOne(e: int)
    ensures Shifted(1.0, e) == Two(e)
  {
    hide Two;
  }

  lemma WholeIsNearest(n: int)
    ensures NearestInteger(n as real, false) == n
  {
  }

  lemma ExponentIsDigits(text: seq<Byte>, p: nat)
    requires p <= |text|
    ensures IsDigits(ExponentDigits(text, p))
  {
  }

  datatype FromCharsResult = InvalidArgument | NotDecimal | Parsed(ptr: nat, negative: bool, word: nat)

  /** The word of a number text. The recheck keeps a fast result for a text with more than nineteen
      digits only if both ends of the bracket around its value round to it. */
  method FromCharsAdvanced(fmt: BinaryFormat, text: seq<Byte>, options: ParseOptions, table: int -> Value128)
    returns (r: FromCharsResult, ghost exact: bool)
    requires IsFormat(fmt) && |text| < INT32_LIMIT && !IsInteger(options.decimalPoint)
    ensures r.InvalidArgument? <==> text == []
    ensures r.NotDecimal? <==> text != [] && !Accepts(text, options)
    ensures r.Parsed? && ReadersMatch(text, options) && IsTable(table) && exact ==>
      (IsFloat(fmt, TextValue(text, options), r.negative, r.word) <==> CapAgrees(fmt, text, options))
    ensures r.Parsed? ==>
      && r.negative == (text[0] == MINUS)
      && r.ptr == ReadExponent(text, LayoutOf(text, options.decimalPoint).fracEnd, options).end
    ensures r.Parsed? && TextWithinBudget(text, options.decimalPoint) ==> exact
    ensures forall p :: IsNumber(p, options) && Spell(p) == text ==>
      r.Parsed? && r.negative == (p.minus != []) && r.ptr == |text| - |p.rest|
    ensures forall p :: IsNumber(p, options) && Spell(p) == text ==>
      (ReadersMatch(text, options) && IsTable(table) && exact ==>
        (IsFloat(fmt, Meaning(p), r.negative, r.word) <==> CapAgrees(fmt, text, options)))
  {
    hide DigitsIn, Significant, LayoutOf, ReadValue, LooseValue, TextValue, IsRoundTiesToEven, Ten, Accepts,
      ReadExponent, CapHarmless, ReadersMatch, CapAgrees, StoresBracket;
    hide IsNumber, Spell, Meaning, TextWithinBudget, IsTable, IsEntry, IsRight, IsFloat, ToFloat, Packed, Packs;
    hide Encodes, Describes, IsFinite;
    exact := true;
    forall p | IsNumber(p, options) && Spell(p) == text
      ensures ReadAs(p, text, options)
    {
      PartsRead(p, options);
    }
    if text == [] {
      return InvalidArgument, exact;
    }
    var pns := ParseNumberString(text, options);
    if !pns.valid {
      return NotDecimal, exact;
    }
    ghost var x := ReadValue(text, options);
    var am := ComputeFloatFast(fmt, pns.exponent, pns.mantissa, table(pns.exponent));
    ghost var first, second := am, am;
    MantissaRoom(pns, x);
    if pns.tooManyDigits {
      var next := ComputeFloatFast(fmt, pns.exponent, pns.mantissa + 1, table(pns.exponent));
      second := next;
      if am != next {
        am := am.(power2 := -1);
      }
    }
    if am.power2 < 0 {
      ghost var stored;
      am, exact, stored := ParseLongMantissa(fmt, text, options, pns);
      if ReadersMatch(text, options) && exact {
        SameNumber(text, options);
        EncodesFields(fmt, x, am);
      }
    } else {
      FastParts(fmt, am);
      if IsTable(table) {
        EntryAt(fmt, table, pns.exponent);
        RecheckSound(fmt, first, second, pns, x);
      }
    }
    r := Parsed(pns.lastMatch, pns.negative, ToFloat(fmt, pns.negative, am));
    if ReadersMatch(text, options) && IsTable(table) && exact {
      FloatWritten(fmt, text, options, pns.negative, am);
    }
  }

  /** The text is read as its parts. */
  ghost predicate ReadAs(p: Parts, text: seq<Byte>, options: ParseOptions) {
    && text != [] && (text[0] == MINUS <==> p.minus != [])
    && Accepts(text, options) && TextValue(text, options) == Meaning(p)
    && ReadExponent(text, LayoutOf(text, options.decimalPoint).fracEnd, options) != BadExponent
    && ReadExponent(text, LayoutOf(text, options.decimalPoint).fracEnd, options).end == |text| - |p.rest|
  }

  lemma PartsRead(p: Parts, options: ParseOptions)
    requires IsNumber(p, options) && !IsInteger(options.decimalPoint)
    ensures ReadAs(p, Spell(p), options)
  {
    hide Spell, TextValue, Meaning, LayoutOf, ReadExponent, DigitsIn, ExponentParts, Tail;
    Spelled(p, options);
  }

  lemma FastParts(fmt: BinaryFormat, am: AdjustedMantissa)
    requires am == UNDECIDED || Packs(fmt, am)
    ensures am.mantissa >= 0
  {
  }

  /** The entry is there for every exponent for which it is asked. */
  lemma EntryAt(fmt: BinaryFormat, table: int -> Value128, q: int)
    requires IsFormat(fmt) && IsTable(table)
    ensures IsEntry(q, table(q)) || !(SmallestPowerOfTen(fmt) <= q <= LargestPowerOfTen(fmt))
  {
    hide IsEntry;
  }

  lemma MantissaRoom(pns: ParsedNumberString, x: real)
    requires Describes(pns, x)
    ensures pns.tooManyDigits ==> pns.mantissa + 1 < TWO_TO_64
  {
  }

  /** The word is that of the number written exactly if the cap agrees. */
  lemma FloatWritten(fmt: BinaryFormat, text: seq<Byte>, options: ParseOptions, negative: bool, am: AdjustedMantissa)
    requires IsFormat(fmt) && Accepts(text, options) && am.mantissa >= 0 && am.power2 >= 0
    requires Encodes(fmt, ReadValue(text, options), Packed(fmt, am))
    ensures IsFloat(fmt, TextValue(text, options), negative, ToFloat(fmt, negative, am)) <==>
      CapAgrees(fmt, text, options)
  {
    hide IsRoundTiesToEven, Accepts, ReadValue, TextValue, CapAgrees, Fields, ToFloat, Packed, Pow;
    var x, y, word := ReadValue(text, options), TextValue(text, options), ToFloat(fmt, negative, am);
    CapRounds(fmt, text, options, Fields(fmt, Packed(fmt, am)));
    ToFloatCorrect(fmt, x, negative, am);
    if CapAgrees(fmt, text, options) {
      ToFloatCorrect(fmt, y, negative, am);
    }
    if IsFloat(fmt, y, negative, word) {
      var magnitude := if negative then word - Pow(2, SignIndex(fmt)) else word;
      CapRounds(fmt, text, options, Fields(fmt, magnitude));
    }
  }

  /** A decided fast result that survives the recheck is packed into the rounding of the text. */
  lemma RecheckSound(fmt: BinaryFormat, first: AdjustedMantissa, second: AdjustedMantissa, pns: ParsedNumberString,
    x: real)
    requires IsFormat(fmt) && Describes(pns, x) && first.power2 >= 0
    requires IsRight(fmt, pns.exponent, pns.mantissa, first)
    requires pns.tooManyDigits ==> second == first && IsRight(fmt, pns.exponent, pns.mantissa + 1, second)
    ensures Encodes(fmt, x, Packed(fmt, first))
  {
    hide IsRoundTiesToEven, Units, Packed, Fields;
    var q, w := pns.exponent, pns.mantissa;
    if pns.tooManyDigits {
      RoundBetween(fmt, Units(w, q), x, Units(w + 1, q), Fields(fmt, Packed(fmt, first)));
    }
  }

  /** A table with the right entries: each fits two words. */
  lemma TableExists()
    ensures IsTable(EntryOf)
  {
    hide IsEntry;
    forall q | InTable(q)
      ensures IsEntry(q, EntryOf(q))
    {
      EntryFits(q);
    }
  }
}
