/** parse_number_string and parse_decimal, read against the meaning of a number text. */
module AsciiNumber {
  import opened Powers
  import opened Digits
  import opened MachineWords
  import opened EightDigits
  import opened NumberText
  import opened Decimals

  const NINETEEN_DIGITS: int := 1000000000000000000

  datatype ParsedNumberString = ParsedNumberString(
    exponent: int, mantissa: U64, lastMatch: nat, negative: bool, valid: bool, tooManyDigits: bool)

  function Invalid(negative: bool): ParsedNumberString {
    ParsedNumberString(0, 0, 0, negative, false, false)
  }

  // Digit accumulation --------------------------------------------------------------------------------

  lemma WrapStep(x: int, m: int, d: int)
    ensures Wrap64(Wrap64(x) * m + d) == Wrap64(x * m + d)
  {
    var k := x / TWO_TO_64;
    assert x == TWO_TO_64 * k + Wrap64(x);
    WrapShift(Wrap64(x) * m + d, k * m);
    assert x * m + d == (Wrap64(x) * m + d) + TWO_TO_64 * (k * m) by {
      assert x * m == Wrap64(x) * m + (TWO_TO_64 * k) * m;
      assert (TWO_TO_64 * k) * m == TWO_TO_64 * (k * m);
    }
  }

  lemma WrapShift(x: int, k: int)
    ensures Wrap64(x + TWO_TO_64 * k) == Wrap64(x)
  {
  }

  /** One more digit of a run. */
  lemma RunStep(text: seq<Byte>, from: nat, p: nat)
    requires from <= p < |text| && IsInteger(text[p])
    ensures DigitsOf(text[from..p + 1]) == DigitsOf(text[from..p]) + [text[p] as int - 0x30]
  {
  }

  /** The accumulator after one more digit. */
  lemma AccumulateOne(head: seq<int>, text: seq<Byte>, from: nat, p: nat)
    requires from <= p < |text| && IsInteger(text[p])
    ensures Wrap64(Wrap64(Numeral(head + DigitsOf(text[from..p]))) * 10 + (text[p] as int - 0x30))
      == Wrap64(Numeral(head + DigitsOf(text[from..p + 1])))
  {
    hide Numeral, Wrap64;
    var s, d := head + DigitsOf(text[from..p]), text[p] as int - 0x30;
    RunStep(text, from, p);
    assert head + DigitsOf(text[from..p + 1]) == s + [d];
    NumeralSnoc(s, d);
    WrapStep(Numeral(s), 10, d);
  }

  /** The accumulator after an eight-digit block equals eight single steps. */
  lemma AccumulateEight(head: seq<int>, text: seq<Byte>, from: nat, p: nat)
    requires from <= p && p + 8 <= |text| && AllIntegers(text[p..p + 8])
    ensures 0 <= Read(text[p..p + 8]) < TWO_TO_64
    ensures Wrap64(Wrap64(Numeral(head + DigitsOf(text[from..p]))) * 100000000
        + ParseEightDigitsUnrolled(Read(text[p..p + 8])))
      == Wrap64(Numeral(head + DigitsOf(text[from..p + 8])))
  {
    hide Numeral, Wrap64, Read, ParseEightDigitsUnrolled;
    var s, t := head + DigitsOf(text[from..p]), DigitsOf(text[p..p + 8]);
    EightDigitsValue(text[p..p + 8]);
    assert head + DigitsOf(text[from..p + 8]) == s + t;
    NumeralAppend(s, t);
    TenToEight();
    WrapStep(Numeral(s), 100000000, Numeral(t));
  }

  lemma TenToEight()
    ensures Pow(10, 8) == 100000000
  {
  }

  // parse_number_string -------------------------------------------------------------------------------

  /** Takes up a run of digits one by one; `head` and text[from..p] are the digits behind i. */
  method ReadRun(text: seq<Byte>, ghost head: seq<int>, ghost from: nat, i0: U64, p0: nat)
    returns (i: U64, p: nat)
    requires from <= p0 <= |text| && (forall k :: from <= k < p0 ==> IsInteger(text[k]))
    requires i0 == Wrap64(Numeral(head + DigitsOf(text[from..p0])))
    ensures p == RunEnd(text, from) && i == Wrap64(Numeral(head + DigitsOf(text[from..p])))
  {
    hide Wrap64, Numeral, DigitsOf;
    i, p := i0, p0;
    while p < |text| && IsInteger(text[p])
      invariant from <= p <= |text| && forall k :: from <= k < p ==> IsInteger(text[k])
      invariant i == Wrap64(Numeral(head + DigitsOf(text[from..p])))
    {
      AccumulateOne(head, text, from, p);
      i := Wrap64(i * 10 + (text[p] as int - 0x30));
      p := p + 1;
    }
    RunEndUnique(text, from, p);
  }

  /** One eight-digit block, if the next eight bytes are digits. */
  method ReadBlock(text: seq<Byte>, ghost head: seq<int>, ghost from: nat, i0: U64, p0: nat)
    returns (i: U64, p: nat, taken: bool)
    requires from <= p0 <= |text| && (forall k :: from <= k < p0 ==> IsInteger(text[k]))
    requires i0 == Wrap64(Numeral(head + DigitsOf(text[from..p0])))
    ensures from <= p <= |text| && (forall k :: from <= k < p ==> IsInteger(text[k]))
    ensures i == Wrap64(Numeral(head + DigitsOf(text[from..p])))
    ensures taken <==> p0 + 8 <= |text| && AllIntegers(text[p0..p0 + 8])
    ensures p == if taken then p0 + 8 else p0
  {
    hide Wrap64, Numeral, DigitsOf, Read, ParseEightDigitsUnrolled, IsMadeOfEightDigitsFast;
    i, p, taken := i0, p0, false;
    if p + 8 <= |text| {
      EightDigitsTest(text[p..p + 8]);
      if IsMadeOfEightDigitsFast(Read(text[p..p + 8])) {
        AccumulateEight(head, text, from, p);
        assert forall k :: p <= k < p + 8 ==> text[k] == text[p..p + 8][k - p];
        i := Wrap64(i * 100000000 + ParseEightDigitsUnrolled(Read(text[p..p + 8])));
        p := p + 8;
        taken := true;
      }
    }
  }

  /** The digits before the exponent: the wrapped accumulator and where everything lies. */
  method ScanDigits(text: seq<Byte>, options: ParseOptions, start: nat)
    returns (i: U64, intEnd: nat, p: nat, digitCount: int, exponent: int)
    requires start <= |text| && LayoutOf(text, options.decimalPoint).start == start
    ensures var l := LayoutOf(text, options.decimalPoint);
      && intEnd == l.intEnd && p == l.fracEnd
      && i == Wrap64(Numeral(DigitsIn(text, l)))
      && digitCount == |DigitsIn(text, l)| && exponent == -FractionDigits(l)
  {
    hide Wrap64, Numeral, LayoutOf, DigitsIn, DigitsOf, FractionDigits, RunEnd;
    EmptyRun(text, start);
    i, p := ReadRun(text, [], start, 0, start);
    intEnd := p;
    digitCount := p - start;
    exponent := 0;
    ghost var head := DigitsOf(text[start..intEnd]);
    assert [] + head == head;
    LayoutParts(text, options.decimalPoint);
    if p < |text| && text[p] == options.decimalPoint {
      p := p + 1;
      ghost var from := p;
      NoDigits(head, text, from);
      var taken;
      i, p, taken := ReadBlock(text, head, from, i, p);
      if taken {
        i, p, taken := ReadBlock(text, head, from, i, p);
      }
      i, p := ReadRun(text, head, from, i, p);
      exponent := intEnd + 1 - p;
      digitCount := digitCount - exponent;
    }
  }

  lemma NoDigits(head: seq<int>, text: seq<Byte>, p: nat)
    requires p <= |text|
    ensures head + DigitsOf(text[p..p]) == head
  {
  }

  /** The digits of a text with and without a fraction. */
  lemma LayoutParts(text: seq<Byte>, point: Byte)
    ensures var l := LayoutOf(text, point);
      && l.intEnd == RunEnd(text, l.start)
      && |DigitsOf(text[l.start..l.intEnd])| == l.intEnd - l.start
      && FractionDigits(l) == l.fracEnd - l.fracStart
      && |DigitsIn(text, l)| == l.intEnd - l.start + FractionDigits(l)
      && if l.intEnd < |text| && text[l.intEnd] == point then
        && l.fracStart == l.intEnd + 1 && l.fracEnd == RunEnd(text, l.intEnd + 1)
        && DigitsIn(text, l) == DigitsOf(text[l.start..l.intEnd]) + DigitsOf(text[l.fracStart..l.fracEnd])
      else
        && l.fracStart == l.intEnd == l.fracEnd
        && DigitsIn(text, l) == DigitsOf(text[l.start..l.intEnd])
  {
  }

  lemma EmptyRun(text: seq<Byte>, p: nat)
    requires p <= |text|
    ensures Wrap64(Numeral([] + DigitsOf(text[p..p]))) == 0
  {
  }

  /** The explicit exponent behind the digits. */
  method ScanExponent(text: seq<Byte>, options: ParseOptions, p0: nat) returns (ok: bool, expNumber: int, p: nat)
    requires p0 <= |text|
    ensures ReadExponent(text, p0, options) == if ok then ExponentPart(expNumber, p) else BadExponent
    ensures ok ==> p0 <= p <= |text|
  {
    hide Capped;
    ok, expNumber, p := true, 0, p0;
    if options.scientific && p < |text| && (text[p] == 0x65 || text[p] == 0x45) {
      var locationOfE := p;
      p := p + 1;
      var negExp := false;
      if p < |text| && text[p] == MINUS {
        negExp := true;
        p := p + 1;
      } else if p < |text| && text[p] == PLUS {
        p := p + 1;
      }
      if p == |text| || !IsInteger(text[p]) {
        if !options.fixed {
          ok := false;
          return;
        }
        p := locationOfE;
      } else {
        expNumber, p := ReadCapped(text, p);
        if negExp {
          expNumber := -expNumber;
        }
      }
    } else if options.scientific && !options.fixed {
      ok := false;
    }
  }

  method ReadCapped(text: seq<Byte>, from: nat) returns (expNumber: int, p: nat)
    requires from <= |text|
    ensures p == RunEnd(text, from) && expNumber == Capped(DigitsOf(text[from..p]))
    ensures 0 <= expNumber < 10 * EXPONENT_LIMIT
  {
    hide Capped, DigitsOf;
    expNumber, p := 0, from;
    CappedEmpty(text, from);
    while p < |text| && IsInteger(text[p])
      invariant from <= p <= |text| && forall k :: from <= k < p ==> IsInteger(text[k])
      invariant expNumber == Capped(DigitsOf(text[from..p])) && 0 <= expNumber < 10 * EXPONENT_LIMIT
    {
      RunStep(text, from, p);
      CappedStep(DigitsOf(text[from..p]), text[p] as int - 0x30);
      if expNumber < EXPONENT_LIMIT {
        expNumber := 10 * expNumber + (text[p] as int - 0x30);
      }
      p := p + 1;
    }
    RunEndUnique(text, from, p);
  }

  lemma CappedEmpty(text: seq<Byte>, from: nat)
    requires from <= |text|
    ensures Capped(DigitsOf(text[from..from])) == 0
  {
  }

  /** The digits of the number that stand before the place q of the text. */
  function DigitsBefore(l: Layout, q: int): int {
    if q <= l.intEnd then q - l.start else if q < l.fracStart then l.intEnd - l.start
    else l.intEnd - l.start + (q - l.fracStart)
  }

  /** The digit at a place of the text, by its index among all digits. */
  lemma DigitAt(text: seq<Byte>, l: Layout, q: nat)
    requires l.start <= l.intEnd <= l.fracStart <= l.fracEnd <= |text|
    requires l.fracStart == l.intEnd || l.fracStart == l.intEnd + 1
    requires l.start <= q < l.intEnd || l.fracStart <= q < l.fracEnd
    ensures 0 <= DigitsBefore(l, q) < |DigitsIn(text, l)|
    ensures DigitsIn(text, l)[DigitsBefore(l, q)] == text[q] as int - 0x30
  {
  }

  /** All places from l.start up to q hold zeros or the point. */
  ghost predicate ZerosBefore(text: seq<Byte>, l: Layout, q: nat, d: seq<int>) {
    0 <= DigitsBefore(l, q) <= |d| && forall k :: 0 <= k < DigitsBefore(l, q) ==> d[k] == 0
  }

  /** One place further along the leading zeros. */
  lemma ZerosStep(text: seq<Byte>, point: Byte, q: nat)
    requires !IsInteger(point) && q < |text|
    requires var l := LayoutOf(text, point); l.start <= q <= l.fracEnd && ZerosBefore(text, l, q, DigitsIn(text, l))
    ensures var l := LayoutOf(text, point);
      && (q < l.fracEnd && (text[q] == ZERO_CHAR || text[q] == point) ==>
        ZerosBefore(text, l, q + 1, DigitsIn(text, l))
        && DigitsBefore(l, q + 1) == DigitsBefore(l, q) + if text[q] == ZERO_CHAR then 1 else 0)
      && (q < l.fracEnd && text[q] != ZERO_CHAR && text[q] != point ==>
        LeadingZeros(DigitsIn(text, l)) == DigitsBefore(l, q))
  {
    hide DigitsIn;
    var l := LayoutOf(text, point);
    if l.start <= q < l.intEnd || l.fracStart <= q < l.fracEnd {
      DigitAt(text, l, q);
      if text[q] != ZERO_CHAR {
        LeadingZerosUnique(DigitsIn(text, l), DigitsBefore(l, q));
      }
    }
  }

  lemma ZerosWhole(text: seq<Byte>, point: Byte, q: nat)
    requires var l := LayoutOf(text, point); q == l.fracEnd && ZerosBefore(text, l, q, DigitsIn(text, l))
    ensures var l := LayoutOf(text, point); DigitsBefore(l, q) == |DigitsIn(text, l)| == LeadingZeros(DigitsIn(text, l))
  {
    var l := LayoutOf(text, point);
    LeadingZerosUnique(DigitsIn(text, l), |DigitsIn(text, l)|);
  }

  /** Discounts leading zeros from the digit count. A text of zeros only may run past its digits
      into further zeros, which can only lower a count that is already zero. */
  method DiscountZeros(text: seq<Byte>, point: Byte, startDigits: nat, digitCount0: int) returns (digitCount: int)
    requires !IsInteger(point) && startDigits == LayoutOf(text, point).start <= |text|
    requires digitCount0 == |DigitsIn(text, LayoutOf(text, point))|
    ensures var n := |Significant(DigitsIn(text, LayoutOf(text, point)))|;
      digitCount == n || (n == 0 && digitCount <= 0)
  {
    hide DigitsIn, LayoutOf, LeadingZeros, ZerosBefore;
    ghost var l := LayoutOf(text, point);
    ghost var d := DigitsIn(text, l);
    digitCount := digitCount0;
    var start := startDigits;
    ZerosStart(l, d, text);
    while start < |text| && (text[start] == ZERO_CHAR || text[start] == point)
      invariant l.start <= start <= |text|
      invariant start <= l.fracEnd ==>
        digitCount == |d| - DigitsBefore(l, start) && ZerosBefore(text, l, start, d)
      invariant start > l.fracEnd ==> digitCount <= 0 && LeadingZeros(d) == |d|
    {
      if start < l.fracEnd {
        ZerosStep(text, point, start);
      } else if start == l.fracEnd {
        ZerosWhole(text, point, start);
      }
      if text[start] == ZERO_CHAR {
        digitCount := digitCount - 1;
      }
      start := start + 1;
    }
    if start < l.fracEnd {
      ZerosStep(text, point, start);
    } else if start == l.fracEnd {
      ZerosWhole(text, point, start);
    }
  }

  lemma ZerosStart(l: Layout, d: seq<int>, text: seq<Byte>)
    requires l.start <= l.intEnd <= l.fracStart
    ensures DigitsBefore(l, l.start) == 0 && ZerosBefore(text, l, l.start, d)
  {
  }

  /** Reads the digits again, only until nineteen significant ones are in. `c` digits are taken. */
  method Rescan(text: seq<Byte>, point: Byte, startDigits: nat, intEnd: nat, expNumber: int)
    returns (i: U64, exponent: int, ghost c: nat)
    requires var l := LayoutOf(text, point);
      startDigits == l.start && intEnd == l.intEnd && |Significant(DigitsIn(text, l))| > 19
    ensures NINETEEN_DIGITS <= i < 10 * NINETEEN_DIGITS
    ensures var l := LayoutOf(text, point);
      && c <= |DigitsIn(text, l)| && i == Numeral(DigitsIn(text, l)[..c])
      && exponent == expNumber + |DigitsIn(text, l)| - c - FractionDigits(l)
  {
    hide DigitsIn, LayoutOf, Numeral, Significant;
    ghost var l := LayoutOf(text, point);
    ghost var d := DigitsIn(text, l);
    LayoutShape(text, point);
    ManyDigits(text, l, d);
    i := 0;
    var p := startDigits;
    c := 0;
    TakeNone(d);
    while i < NINETEEN_DIGITS && p < |text| && IsInteger(text[p])
      invariant startDigits <= p <= intEnd && c == p - startDigits <= |d|
      invariant 0 <= i < 10 * NINETEEN_DIGITS && i == Numeral(d[..c])
    {
      assert p < intEnd;
      TakeOne(text, l, d, p);
      i := i * 10 + (text[p] as int - 0x30);
      p := p + 1;
      c := c + 1;
    }
    if i >= NINETEEN_DIGITS {
      exponent := intEnd - p + expNumber;
    } else {
      assert p == intEnd;
      NotYet(l, d, c);
      p := p + 1;
      var firstAfterPeriod := p;
      while i < NINETEEN_DIGITS && p < |text| && IsInteger(text[p])
        invariant l.fracStart <= p <= l.fracEnd && c == intEnd - startDigits + (p - firstAfterPeriod) <= |d|
        invariant 0 <= i < 10 * NINETEEN_DIGITS && i == Numeral(d[..c])
      {
        assert p < l.fracEnd;
        TakeOne(text, l, d, p);
        i := i * 10 + (text[p] as int - 0x30);
        p := p + 1;
        c := c + 1;
      }
      if i < NINETEEN_DIGITS {
        assert false;
      }
      exponent := firstAfterPeriod - p + expNumber;
    }
  }

  /** Where the runs of a layout stop. */
  lemma LayoutShape(text: seq<Byte>, point: Byte)
    ensures var l := LayoutOf(text, point);
      && l.start <= l.intEnd <= l.fracStart <= l.fracEnd <= |text|
      && (l.intEnd == |text| || !IsInteger(text[l.intEnd]))
      && (l.fracStart == l.intEnd || l.fracStart == l.intEnd + 1)
      && (l.fracStart == l.intEnd ==> l.fracEnd == l.intEnd)
      && (l.fracEnd == |text| || !IsInteger(text[l.fracEnd]))
      && |DigitsIn(text, l)| == l.intEnd - l.start + FractionDigits(l)
  {
  }

  lemma ManyDigits(text: seq<Byte>, l: Layout, d: seq<int>)
    requires l.start <= l.intEnd <= l.fracStart <= l.fracEnd <= |text| && d == DigitsIn(text, l)
    requires forall k :: l.start <= k < l.intEnd ==> IsInteger(text[k])
    requires forall k :: l.fracStart <= k < l.fracEnd ==> IsInteger(text[k])
    requires |Significant(d)| > 19
    ensures IsDigits(d) && Numeral(d) >= 10 * NINETEEN_DIGITS && d[..|d|] == d
  {
    hide Numeral, Pow;
    LayoutDigits(text, l);
    SignificantNumeral(d);
    LeadingNonZero(Significant(d));
    PowMono(10, 19, |Significant(d)| - 1);
    TenToNineteen();
  }

  lemma TenToNineteen()
    ensures Pow(10, 19) == 10 * NINETEEN_DIGITS
  {
    PowAdd(10, 10, 9);
  }

  lemma LayoutDigits(text: seq<Byte>, l: Layout)
    requires l.start <= l.intEnd <= l.fracStart <= l.fracEnd <= |text|
    requires forall k :: l.start <= k < l.intEnd ==> IsInteger(text[k])
    requires forall k :: l.fracStart <= k < l.fracEnd ==> IsInteger(text[k])
    ensures IsDigits(DigitsIn(text, l))
  {
  }

  lemma TakeNone(d: seq<int>)
    ensures Numeral(d[..0]) == 0
  {
  }

  lemma TakeOne(text: seq<Byte>, l: Layout, d: seq<int>, p: nat)
    requires l.start <= l.intEnd <= l.fracStart <= l.fracEnd <= |text|
    requires l.fracStart == l.intEnd || l.fracStart == l.intEnd + 1
    requires d == DigitsIn(text, l)
    requires l.start <= p < l.intEnd || l.fracStart <= p < l.fracEnd
    ensures var c := DigitsBefore(l, p);
      0 <= c < |d| && Numeral(d[..c + 1]) == 10 * Numeral(d[..c]) + (text[p] as int - 0x30)
  {
    hide Numeral;
    DigitAt(text, l, p);
    var c := DigitsBefore(l, p);
    assert d[..c + 1] == d[..c] + [d[c]];
    NumeralSnoc(d[..c], d[c]);
  }

  /** With too few digits before the point there must be some behind it. */
  lemma NotYet(l: Layout, d: seq<int>, c: nat)
    requires |d| == l.intEnd - l.start + FractionDigits(l) && c == l.intEnd - l.start <= |d|
    requires l.fracStart == l.intEnd || l.fracStart == l.intEnd + 1
    requires l.fracStart == l.intEnd ==> l.fracEnd == l.intEnd
    requires Numeral(d[..c]) < NINETEEN_DIGITS && Numeral(d) >= 10 * NINETEEN_DIGITS && d[..|d|] == d
    ensures l.fracStart == l.intEnd + 1
  {
  }

  /** A prefix of the digits brackets the number. */
  lemma PrefixBracket(d: seq<int>, c: nat, e: int)
    requires IsDigits(d) && c <= |d|
    ensures Units(Numeral(d[..c]), e + |d| - c) <= Units(Numeral(d), e) < Units(Numeral(d[..c]) + 1, e + |d| - c)
  {
    hide Numeral, Ten;
    ValPrefix(d, c, e + |d|);
    RMulSplit(Numeral(d[..c]) as real, Ten(e + |d| - c));
  }

  /** What a parse result says about the value of the text. */
  ghost predicate Describes(answer: ParsedNumberString, x: real) {
    if answer.tooManyDigits then
      && NINETEEN_DIGITS <= answer.mantissa < 10 * NINETEEN_DIGITS
      && Units(answer.mantissa, answer.exponent) <= x < Units(answer.mantissa + 1, answer.exponent)
    else
      Units(answer.mantissa, answer.exponent) == x
  }

  lemma TenTimes(m: int, a: int, b: int)
    requires m >= 0 && a < b
    ensures Units(m, b) >= 10.0 * Units(m, a)
  {
    hide Ten;
    TenStep(a);
    TenMono(a + 1, b);
    RMulMono(m as real, Ten(a + 1), Ten(b));
    RMulPull(m as real, 10.0, Ten(a));
  }

  /** A bracket of nineteen digits does not reach ten times as far. */
  lemma BracketNarrow(w: int, e: int, x: real, y: real)
    requires w >= 1 && Units(w, e) <= x && y >= 10.0 * x
    ensures y >= Units(w + 1, e)
  {
    hide Ten;
    TenPos(e);
    RMulMono(Ten(e), (w + 1) as real, 10.0 * (w as real));
    RMulPull(Ten(e), 10.0, w as real);
  }

  /** One result does not describe two numbers with the same digits. */
  lemma DescribesOne(answer: ParsedNumberString, m: int, a: int, b: int)
    requires Describes(answer, Units(m, a)) && Describes(answer, Units(m, b)) && m >= 0
    ensures Units(m, a) == Units(m, b)
  {
    hide Units;
    if answer.tooManyDigits && a < b {
      TenTimes(m, a, b);
      BracketNarrow(answer.mantissa, answer.exponent, Units(m, a), Units(m, b));
    } else if answer.tooManyDigits && b < a {
      TenTimes(m, b, a);
      BracketNarrow(answer.mantissa, answer.exponent, Units(m, b), Units(m, a));
    }
  }

  /** What is read describes the number written if and only if the cap on the exponent is harmless. */
  lemma DescribesWritten(answer: ParsedNumberString, text: seq<Byte>, options: ParseOptions)
    requires Accepts(text, options) && Describes(answer, ReadValue(text, options))
    ensures Describes(answer, TextValue(text, options)) <==> CapHarmless(text, options)
  {
    hide Numeral, DigitsIn, Describes, Units, CapHarmless, ReadExponent, LayoutOf;
    CapMeaning(text, options);
    var l := LayoutOf(text, options.decimalPoint);
    var m, a := Numeral(DigitsIn(text, l)), ReadExponent(text, l.fracEnd, options).value - FractionDigits(l);
    var b := WrittenExponent(text, l.fracEnd, options) - FractionDigits(l);
    LayoutDigits(text, l);
    NumeralBound(DigitsIn(text, l));
    if Describes(answer, TextValue(text, options)) {
      DescribesOne(answer, m, a, b);
    }
  }

  method ParseNumberString(text: seq<Byte>, options: ParseOptions) returns (answer: ParsedNumberString)
    requires text != [] && !IsInteger(options.decimalPoint)
    ensures answer.valid <==> Accepts(text, options)
    ensures answer.valid ==>
      && Describes(answer, ReadValue(text, options))
      && (Describes(answer, TextValue(text, options)) <==> CapHarmless(text, options))
      && answer.lastMatch == ReadExponent(text, LayoutOf(text, options.decimalPoint).fracEnd, options).end
      && answer.tooManyDigits == (|Significant(DigitsIn(text, LayoutOf(text, options.decimalPoint)))| > 19)
    ensures answer.negative == (text[0] == MINUS)
  {
    hide DigitsIn, Numeral, Ten, ReadExponent, Significant, Wrap64, CapHarmless, TextValue, RunEnd, LeadingZeros, Pow;
    var negative := text[0] == MINUS;
    answer := Invalid(negative);
    var p := 0;
    if negative {
      p := p + 1;
      if p == |text| {
        return;
      }
      if !IsInteger(text[p]) && text[p] != options.decimalPoint {
        return;
      }
    }
    var startDigits := p;
    ghost var l := LayoutOf(text, options.decimalPoint);
    ghost var d := DigitsIn(text, l);
    LayoutShape(text, options.decimalPoint);
    var i, intEnd, digitCount, exponent;
    i, intEnd, p, digitCount, exponent := ScanDigits(text, options, startDigits);
    if digitCount == 0 {
      return;
    }
    var ok, expNumber, last := ScanExponent(text, options, p);
    if !ok {
      return;
    }
    exponent := exponent + expNumber;
    LayoutDigits(text, l);
    SignificantShorter(d);
    var tooManyDigits := false;
    if digitCount > 19 {
      digitCount := DiscountZeros(text, options.decimalPoint, startDigits, digitCount);
      if digitCount > 19 {
        tooManyDigits := true;
        ghost var c;
        i, exponent, c := Rescan(text, options.decimalPoint, startDigits, intEnd, expNumber);
        PrefixBracket(d, c, expNumber - FractionDigits(l));
      }
    }
    if !tooManyDigits {
      FewDigits(d);
    }
    answer := ParsedNumberString(exponent, i, last, negative, true, tooManyDigits);
    assert Describes(answer, ReadValue(text, options));
    hide *;
    DescribesWritten(answer, text, options);
  }

  lemma SignificantShorter(d: seq<int>)
    ensures |Significant(d)| <= |d|
  {
  }

  /** At most nineteen significant digits fit a 64-bit word. */
  lemma FewDigits(d: seq<int>)
    requires IsDigits(d) && |Significant(d)| <= 19
    ensures Wrap64(Numeral(d)) == Numeral(d)
  {
    hide Numeral, Pow;
    SignificantNumeral(d);
    NumeralBound(Significant(d));
    PowMono(10, |Significant(d)|, 19);
    TenToNineteen();
  }
}
