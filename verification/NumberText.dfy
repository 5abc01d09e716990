/** What a number text denotes, independently of how it is read: a sign, digits with an optional
    point, and an optional exponent. */
module NumberText {
  import opened Powers
  import opened Digits
  import opened MachineWords
  import opened EightDigits

  const MINUS: Byte := 0x2D
  const PLUS: Byte := 0x2B
  const ZERO_CHAR: Byte := 0x30
  const EXPONENT_LIMIT: int := 0x10000

  datatype ParseOptions = ParseOptions(scientific: bool, fixed: bool, decimalPoint: Byte)

  /** The place behind the run of digits that starts at p. */
  function RunEnd(text: seq<Byte>, p: nat): (r: nat)
    requires p <= |text|
    ensures p <= r <= |text|
    ensures forall i :: p <= i < r ==> IsInteger(text[i])
    ensures r == |text| || !IsInteger(text[r])
    decreases |text| - p
  {
    if p < |text| && IsInteger(text[p]) then RunEnd(text, p + 1) else p
  }

  lemma RunEndUnique(text: seq<Byte>, p: nat, r: nat)
    requires p <= r <= |text|
    requires forall i :: p <= i < r ==> IsInteger(text[i])
    requires r == |text| || !IsInteger(text[r])
    ensures RunEnd(text, p) == r
  {
    assert RunEnd(text, p) <= |text|;
  }

  /** Where the parts of a number text lie: digits from start to intEnd, then, behind an optional
      point, from fracStart to fracEnd. */
  datatype Layout = Layout(negative: bool, start: nat, intEnd: nat, fracStart: nat, fracEnd: nat)

  function LayoutOf(text: seq<Byte>, point: Byte): (l: Layout)
    ensures l.start <= l.intEnd <= l.fracStart <= l.fracEnd <= |text|
    ensures l.fracStart == l.intEnd || (l.fracStart == l.intEnd + 1 && text[l.intEnd] == point)
    ensures l.fracStart == l.intEnd ==> l.fracEnd == l.intEnd
    ensures forall i :: l.start <= i < l.intEnd ==> IsInteger(text[i])
    ensures forall i :: l.fracStart <= i < l.fracEnd ==> IsInteger(text[i])
  {
    var negative := text != [] && text[0] == MINUS;
    var start := if negative then 1 else 0;
    var intEnd := RunEnd(text, start);
    if intEnd < |text| && text[intEnd] == point
    then Layout(negative, start, intEnd, intEnd + 1, RunEnd(text, intEnd + 1))
    else Layout(negative, start, intEnd, intEnd, intEnd)
  }

  /** All digits before the exponent, without the point. */
  function DigitsIn(text: seq<Byte>, l: Layout): seq<int>
    requires l.start <= l.intEnd <= l.fracStart <= l.fracEnd <= |text|
  {
    DigitsOf(text[l.start..l.intEnd]) + DigitsOf(text[l.fracStart..l.fracEnd])
  }

  function FractionDigits(l: Layout): int { l.fracEnd - l.fracStart }

  /** The exponent digits as the readers accumulate them: no further digit is taken once the value
      has reached the limit. */
  function Capped(s: seq<int>): int {
    if s == [] then 0
    else
      var e := Capped(s[..|s| - 1]);
      if e < EXPONENT_LIMIT then 10 * e + s[|s| - 1] else e
  }

  /** The cap changes nothing exactly if all but the last digit stay below the limit. */
  lemma {:induction false} CappedExact(s: seq<int>)
    requires IsDigits(s)
    ensures Capped(s) == Numeral(s) <==> s == [] || Numeral(s[..|s| - 1]) < EXPONENT_LIMIT
    ensures Capped(s) <= Numeral(s)
    ensures Numeral(s) < EXPONENT_LIMIT ==> Capped(s) == Numeral(s)
    ensures Numeral(s) >= EXPONENT_LIMIT ==> Capped(s) >= EXPONENT_LIMIT
  {
    if s != [] {
      var t := s[..|s| - 1];
      CappedExact(t);
      NumeralBound(t);
    }
  }

  /** The reading of an exponent that follows the digits at p. */
  datatype ExponentPart = BadExponent | ExponentPart(value: int, end: nat)

  predicate HasE(text: seq<Byte>, p: nat) {
    p < |text| && (text[p] == 0x65 || text[p] == 0x45)
  }

  /** The place of the first exponent digit behind the letter at p. */
  function SignEnd(text: seq<Byte>, p: nat): (q: nat)
    requires p < |text|
    ensures p < q <= |text|
  {
    if p + 1 < |text| && (text[p + 1] == MINUS || text[p + 1] == PLUS) then p + 2 else p + 1
  }

  function Signed(text: seq<Byte>, p: nat, e: int): int {
    if p + 1 < |text| && text[p + 1] == MINUS then -e else e
  }

  function ReadExponent(text: seq<Byte>, p: nat, options: ParseOptions): ExponentPart
    requires p <= |text|
  {
    if options.scientific && HasE(text, p) then
      var q := SignEnd(text, p);
      if q == |text| || !IsInteger(text[q]) then
        if options.fixed then ExponentPart(0, p) else BadExponent
      else
        ExponentPart(Signed(text, p, Capped(DigitsOf(text[q..RunEnd(text, q)]))), RunEnd(text, q))
    else if options.scientific && !options.fixed then BadExponent
    else ExponentPart(0, p)
  }

  /** The texts the parser takes: a sign only before a digit or the point, at least one digit, and an
      exponent that fits the format. */
  predicate Accepts(text: seq<Byte>, options: ParseOptions) {
    var l := LayoutOf(text, options.decimalPoint);
    && (l.negative ==> 1 < |text| && (IsInteger(text[1]) || text[1] == options.decimalPoint))
    && DigitsIn(text, l) != []
    && ReadExponent(text, l.fracEnd, options) != BadExponent
  }

  /** The digits of the exponent whose letter stands at p. */
  function ExponentDigits(text: seq<Byte>, p: nat): seq<int>
    requires p <= |text|
  {
    if HasE(text, p) then DigitsOf(text[SignEnd(text, p)..RunEnd(text, SignEnd(text, p))]) else []
  }

  /** The exponent as it is written, with all its digits. */
  function WrittenExponent(text: seq<Byte>, p: nat, options: ParseOptions): int
    requires p <= |text|
  {
    if options.scientific then Signed(text, p, Numeral(ExponentDigits(text, p))) else 0
  }

  /** The absolute value of the number that the text writes. */
  ghost function TextValue(text: seq<Byte>, options: ParseOptions): real {
    var l := LayoutOf(text, options.decimalPoint);
    Units(Numeral(DigitsIn(text, l)), WrittenExponent(text, l.fracEnd, options) - FractionDigits(l))
  }

  /** The absolute value of an accepted text as it is read, with the capped exponent. */
  ghost function ReadValue(text: seq<Byte>, options: ParseOptions): real
    requires Accepts(text, options)
  {
    var l := LayoutOf(text, options.decimalPoint);
    Units(Numeral(DigitsIn(text, l)), ReadExponent(text, l.fracEnd, options).value - FractionDigits(l))
  }

  /** The cap on the exponent changes nothing, or there is nothing but zeros to be scaled. */
  predicate CapHarmless(text: seq<Byte>, options: ParseOptions) {
    var l := LayoutOf(text, options.decimalPoint);
    var e := ExponentDigits(text, l.fracEnd);
    !options.scientific || Capped(e) == Numeral(e) || Numeral(DigitsIn(text, l)) == 0
  }

  lemma ReadExponentIs(text: seq<Byte>, p: nat, options: ParseOptions)
    requires p <= |text| && ReadExponent(text, p, options) != BadExponent
    ensures ReadExponent(text, p, options).value ==
      if options.scientific then Signed(text, p, Capped(ExponentDigits(text, p))) else 0
  {
    if HasE(text, p) && !(SignEnd(text, p) < |text| && IsInteger(text[SignEnd(text, p)])) {
      assert text[SignEnd(text, p)..RunEnd(text, SignEnd(text, p))] == [];
    }
  }

  lemma UnitsInjective(m: int, a: int, b: int)
    requires m != 0
    ensures Units(m, a) == Units(m, b) <==> a == b
  {
    hide Ten;
    if a < b {
      TenMonoStrict(a, b);
    } else if b < a {
      TenMonoStrict(b, a);
    }
    DifferentTens(m as real, Ten(a), Ten(b));
  }

  lemma DifferentTens(m: real, x: real, y: real)
    requires m != 0.0
    ensures m * x == m * y <==> x == y
  {
    if m * x == m * y {
      RMulCancel(m, x, y);
    }
  }

  /** The text is read as the number it writes if and only if the cap is harmless. */
  lemma CapMeaning(text: seq<Byte>, options: ParseOptions)
    requires Accepts(text, options)
    ensures ReadValue(text, options) == TextValue(text, options) <==> CapHarmless(text, options)
  {
    hide Numeral, DigitsIn, Capped, Ten;
    var l := LayoutOf(text, options.decimalPoint);
    ReadExponentIs(text, l.fracEnd, options);
    var m := Numeral(DigitsIn(text, l));
    if m != 0 {
      UnitsInjective(m, ReadExponent(text, l.fracEnd, options).value - FractionDigits(l),
        WrittenExponent(text, l.fracEnd, options) - FractionDigits(l));
    } else {
      assert Units(0, ReadExponent(text, l.fracEnd, options).value - FractionDigits(l)) == 0.0;
      assert Units(0, WrittenExponent(text, l.fracEnd, options) - FractionDigits(l)) == 0.0;
    }
  }

  /** A one behind a million zeros of a fraction, scaled back to one. */
  function LongText(): seq<Byte> {
    [0x30, 0x2E] + seq(1000000, _ => 0x30) + [0x31, 0x65, 0x31, 0x30, 0x30, 0x30, 0x30, 0x30, 0x31]
  }

  lemma LongBytes()
    ensures var t := LongText();
      && |t| == 1000011 && t[0] == 0x30 && t[1] == 0x2E && (forall i :: 2 <= i < 1000002 ==> t[i] == 0x30)
      && t[1000002] == 0x31 && t[1000003] == 0x65 && t[1000004..] == [0x31, 0x30, 0x30, 0x30, 0x30, 0x30, 0x31]
  {
  }

  lemma LongLayout()
    ensures LayoutOf(LongText(), 0x2E) == Layout(false, 0, 1, 2, 1000003)
    ensures HasE(LongText(), 1000003) && SignEnd(LongText(), 1000003) == 1000004
    ensures RunEnd(LongText(), 1000004) == 1000011
  {
    LongBytes();
    hide LongText, RunEnd;
    var text := LongText();
    assert forall i :: 1000004 <= i < 1000011 ==> text[i] == text[1000004..][i - 1000004];
    RunEndUnique(text, 0, 1);
    RunEndUnique(text, 2, 1000003);
    RunEndUnique(text, 1000004, 1000011);
  }

  lemma LongDigits()
    ensures ExponentDigits(LongText(), 1000003) == [1, 0, 0, 0, 0, 0, 1]
    ensures DigitsIn(LongText(), LayoutOf(LongText(), 0x2E)) == [0] + seq(1000000, _ => 0) + [1]
  {
    LongBytes();
    LongLayout();
    hide LongText, RunEnd, LayoutOf, HasE, SignEnd;
    var text := LongText();
    assert text[1000004..1000011] == text[1000004..];
    assert DigitsOf(text[2..1000003]) == seq(1000000, _ => 0) + [1];
    assert DigitsOf(text[0..1]) == [0];
  }

  lemma SnocBoth(s: seq<int>, d: int, t: seq<int>)
    requires t == s + [d]
    ensures Numeral(t) == 10 * Numeral(s) + d
    ensures Capped(t) == if Capped(s) < EXPONENT_LIMIT then 10 * Capped(s) + d else Capped(s)
  {
    NumeralSnoc(s, d);
    CappedStep(s, d);
  }

  lemma CappedStep(s: seq<int>, d: int)
    ensures Capped(s + [d]) == if Capped(s) < EXPONENT_LIMIT then 10 * Capped(s) + d else Capped(s)
  {
    assert (s + [d])[..|s + [d]| - 1] == s;
  }

  lemma SevenDigits()
    ensures Capped([1, 0, 0, 0, 0, 0, 1]) == 100000 && Numeral([1, 0, 0, 0, 0, 0, 1]) == 1000001
  {
    assert Numeral([]) == 0 && Capped([]) == 0;
    hide Numeral, Capped;
    SnocBoth([], 1, [1]);
    SnocBoth([1], 0, [1, 0]);
    SnocBoth([1, 0], 0, [1, 0, 0]);
    SnocBoth([1, 0, 0], 0, [1, 0, 0, 0]);
    SnocBoth([1, 0, 0, 0], 0, [1, 0, 0, 0, 0]);
    SnocBoth([1, 0, 0, 0, 0], 0, [1, 0, 0, 0, 0, 0]);
    SnocBoth([1, 0, 0, 0, 0, 0], 1, [1, 0, 0, 0, 0, 0, 1]);
  }

  /** A text that is misread: it writes one, and is read as 10^-900001. */
  lemma LongTextMisread()
    ensures var options := ParseOptions(true, true, 0x2E);
      Accepts(LongText(), options) && TextValue(LongText(), options) == 1.0 && ReadValue(LongText(),
        options) == Ten(-900001)
  {
    hide Ten, Numeral, Capped, DigitsOf, LongText, LayoutOf, ExponentDigits, DigitsIn, RunEnd;
    LongBytes();
    LongLayout();
    LongDigits();
    SevenDigits();
    TenZero();
    var options := ParseOptions(true, true, 0x2E);
    var zeros := [0] + seq(1000000, _ => 0);
    NumeralAppend(zeros, [1]);
    NumeralZeros(zeros);
    NumeralOne(1);
    ReadExponentIs(LongText(), 1000003, options);
  }

  // Leading zeros -------------------------------------------------------------------------------------

  function LeadingZeros(s: seq<int>): (c: nat)
    ensures c <= |s|
    ensures forall i :: 0 <= i < c ==> s[i] == 0
    ensures c == |s| || s[c] != 0
  {
    if s == [] || s[0] != 0 then 0 else 1 + LeadingZeros(s[1..])
  }

  lemma LeadingZerosUnique(s: seq<int>, c: nat)
    requires c <= |s| && (forall i :: 0 <= i < c ==> s[i] == 0) && (c == |s| || s[c] != 0)
    ensures LeadingZeros(s) == c
  {
    assert LeadingZeros(s) <= |s|;
  }

  /** The digits without leading zeros. */
  function Significant(s: seq<int>): seq<int> {
    s[LeadingZeros(s)..]
  }

  lemma SignificantNumeral(s: seq<int>)
    requires IsDigits(s)
    ensures Numeral(Significant(s)) == Numeral(s) && IsDigits(Significant(s))
    ensures Significant(s) != [] ==> Significant(s)[0] != 0
  {
    hide Numeral, Pow;
    var c := LeadingZeros(s);
    var zeros := s[..c];
    assert s == zeros + Significant(s);
    NumeralAppend(zeros, Significant(s));
    assert IsDigits(zeros);
    NumeralZeros(zeros);
  }
}
