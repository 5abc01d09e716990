/** parse_decimal: reading every significant digit of a number text into the decimal buffer. */
module DecimalText {
  import opened Powers
  import opened Digits
  import opened MachineWords
  import opened EightDigits
  import opened NumberText
  import opened Decimals
  import opened AsciiNumber

  const INT32_LIMIT: int := 0x8000_0000

  /** The digits read so far are s, the first 768 of them in the buffer. */
  ghost predicate Collected(d: Decimal, s: seq<int>)
    reads d, d.digits
  {
    d.digits.Length == MAX_DIGITS && d.numDigits == |s| && !d.truncated &&
    forall k :: 0 <= k < |s| && k < MAX_DIGITS ==> d.digits[k] == s[k]
  }

  method SkipZeros(text: seq<Byte>, from: nat) returns (p: nat)
    requires from <= |text|
    ensures from <= p <= |text|
    ensures forall i :: from <= i < p ==> text[i] == ZERO_CHAR
    ensures p == |text| || text[p] != ZERO_CHAR
  {
    p := from;
    while p < |text| && text[p] == ZERO_CHAR
      invariant from <= p <= |text| && forall i :: from <= i < p ==> text[i] == ZERO_CHAR
    {
      p := p + 1;
    }
  }

  /** Appends a run of digits one by one. */
  method StoreRun(d: Decimal, text: seq<Byte>, ghost from: nat, p0: nat, ghost head: seq<int>) returns (p: nat)
    requires from <= p0 <= |text| < INT32_LIMIT && (forall k :: from <= k < p0 ==> IsInteger(text[k]))
    requires |head| <= from && IsDigits(head)
    requires Collected(d, head + DigitsOf(text[from..p0]))
    modifies d`numDigits, d.digits
    ensures p == RunEnd(text, from)
    ensures Collected(d, head + DigitsOf(text[from..p]))
  {
    hide DigitsOf;
    p := p0;
    while p < |text| && IsInteger(text[p])
      invariant from <= p <= |text| && forall k :: from <= k < p ==> IsInteger(text[k])
      invariant Collected(d, head + DigitsOf(text[from..p]))
    {
      RunStep(text, from, p);
      assert head + DigitsOf(text[from..p + 1]) == (head + DigitsOf(text[from..p])) + [text[p] as int - 0x30];
      if d.numDigits < MAX_DIGITS {
        d.digits[d.numDigits] := text[p] as int - 0x30;
      }
      d.numDigits := d.numDigits + 1;
      p := p + 1;
    }
    RunEndUnique(text, from, p);
  }

  /** Byte k of a word. */
  function ByteOf(x: nat, k: nat): Byte {
    if k == 0 then x % 0x100 else ByteOf(x / 0x100, k - 1)
  }

  lemma {:induction false} ByteOfRead(bytes: seq<Byte>, k: nat)
    requires k < |bytes|
    ensures ByteOf(Read(bytes), k) == bytes[k]
  {
    if k > 0 {
      ByteOfRead(bytes[1..], k - 1);
    }
  }

  /** Subtracting the zero characters from a word of digits leaves the digit values in its bytes. */
  lemma {:induction false} ReadDigits(bytes: seq<Byte>, values: seq<Byte>)
    requires |values| == |bytes|
    requires forall i :: 0 <= i < |bytes| ==> values[i] as int + 0x30 == bytes[i]
    ensures Read(bytes) - Repeat(0x30, |bytes|) == Read(values)
  {
    if bytes != [] {
      ReadDigits(bytes[1..], values[1..]);
    }
  }

  lemma EightValues(bytes: seq<Byte>)
    requires |bytes| == 8 && AllIntegers(bytes)
    ensures Read(bytes) >= 0x3030303030303030
    ensures forall k :: 0 <= k < 8 ==> ByteOf(Read(bytes) - 0x3030303030303030, k) == DigitsOf(bytes)[k]
  {
    hide Read;
    var values: seq<Byte> := seq(8, i requires 0 <= i < 8 => bytes[i] as int - 0x30);
    ReadDigits(bytes, values);
    assert Repeat(0x30, 8) == 0x3030303030303030;
    forall k | 0 <= k < 8
      ensures ByteOf(Read(bytes) - 0x3030303030303030, k) == DigitsOf(bytes)[k]
    {
      ByteOfRead(values, k);
    }
  }

  /** Appends blocks of eight digits while they last and fit. */
  method StoreBlocks(d: Decimal, text: seq<Byte>, from: nat, ghost head: seq<int>) returns (p: nat)
    requires from <= |text| < INT32_LIMIT && |head| <= from && IsDigits(head) && Collected(d, head)
    modifies d`numDigits, d.digits
    ensures from <= p <= |text| && (forall k :: from <= k < p ==> IsInteger(text[k]))
    ensures Collected(d, head + DigitsOf(text[from..p]))
  {
    hide DigitsOf, Read, ByteOf, IsMadeOfEightDigitsFast;
    p := from;
    assert head + DigitsOf(text[from..p]) == head;
    while p + 8 <= |text| && d.numDigits + 8 < MAX_DIGITS
      invariant from <= p <= |text| && forall k :: from <= k < p ==> IsInteger(text[k])
      invariant Collected(d, head + DigitsOf(text[from..p]))
    {
      var bytes := text[p..p + 8];
      EightDigitsTest(bytes);
      var val := Read(bytes);
      if !IsMadeOfEightDigitsFast(val) {
        break;
      }
      EightValues(bytes);
      val := val - 0x3030303030303030;
      AppendBlock(head, text, from, p);
      WriteU64(d, val, head + DigitsOf(text[from..p]), DigitsOf(bytes));
      p := p + 8;
    }
  }

  lemma AppendBlock(head: seq<int>, text: seq<Byte>, from: nat, p: nat)
    requires from <= p && p + 8 <= |text| && AllIntegers(text[p..p + 8])
    requires forall k :: from <= k < p ==> IsInteger(text[k])
    ensures head + DigitsOf(text[from..p + 8]) == head + DigitsOf(text[from..p]) + DigitsOf(text[p..p + 8])
    ensures forall k :: from <= k < p + 8 ==> IsInteger(text[k])
  {
    assert forall k :: p <= k < p + 8 ==> text[k] == text[p..p + 8][k - p];
  }

  /** Writes the eight bytes of a word behind the digits stored so far. */
  method WriteU64(d: Decimal, val: U64, ghost s: seq<int>, ghost t: seq<int>)
    requires Collected(d, s) && |s| + 8 < MAX_DIGITS && |t| == 8
    requires forall k :: 0 <= k < 8 ==> ByteOf(val, k) == t[k]
    modifies d`numDigits, d.digits
    ensures Collected(d, s + t)
  {
    hide ByteOf;
    var n := d.numDigits;
    for k := 0 to 8
      invariant d.numDigits == n == |s|
      invariant forall j :: 0 <= j < |s| ==> d.digits[j] == s[j]
      invariant forall j :: 0 <= j < k ==> d.digits[n + j] == t[j]
    {
      d.digits[n + k] := ByteOf(val, k);
    }
    d.numDigits := d.numDigits + 8;
    forall j | 0 <= j < |s + t|
      ensures d.digits[j] == (s + t)[j]
    {
      if j >= n {
        assert d.digits[n + (j - n)] == t[j - n];
      }
    }
  }

  // The whole of parse_decimal --------------------------------------------------------------------

  /** The exponent as parse_decimal reads it, whatever the format. */
  function LooseExponent(text: seq<Byte>, p: nat): int
    requires p <= |text|
  {
    if HasE(text, p) then
      var q := SignEnd(text, p);
      Signed(text, p, Capped(DigitsOf(text[q..RunEnd(text, q)])))
    else 0
  }

  ghost function LooseValue(text: seq<Byte>, point: Byte): real {
    var l := LayoutOf(text, point);
    Units(Numeral(DigitsIn(text, l)), LooseExponent(text, l.fracEnd) - FractionDigits(l))
  }

  /** Either the format takes exponents, or there is none that matters. */
  predicate ReadersMatch(text: seq<Byte>, options: ParseOptions) {
    var l := LayoutOf(text, options.decimalPoint);
    options.scientific || LooseExponent(text, l.fracEnd) == 0 || Numeral(DigitsIn(text, l)) == 0
  }

  lemma LooseExponentIs(text: seq<Byte>, p: nat)
    requires p <= |text|
    ensures LooseExponent(text, p) == if HasE(text, p) then Signed(text, p, Capped(ExponentDigits(text, p))) else 0
  {
  }

  /** When exactly both readers see the same number. */
  lemma SameNumber(text: seq<Byte>, options: ParseOptions)
    requires Accepts(text, options)
    ensures LooseValue(text, options.decimalPoint) == ReadValue(text, options) <==> ReadersMatch(text, options)
  {
    hide DigitsIn, Numeral, Capped, Ten, LooseExponent, ExponentDigits, LayoutOf, HasE;
    var l := LayoutOf(text, options.decimalPoint);
    ReadExponentIs(text, l.fracEnd, options);
    LooseExponentIs(text, l.fracEnd);
    if !HasE(text, l.fracEnd) {
      NoExponent(text, l.fracEnd);
    }
    var m := Numeral(DigitsIn(text, l));
    var a, b := LooseExponent(text, l.fracEnd), ReadExponent(text, l.fracEnd, options).value;
    if m != 0 {
      UnitsInjective(m, a - FractionDigits(l), b - FractionDigits(l));
    } else {
      assert Units(0, a - FractionDigits(l)) == 0.0 == Units(0, b - FractionDigits(l));
    }
  }

  lemma NoExponent(text: seq<Byte>, p: nat)
    requires p <= |text| && !HasE(text, p)
    ensures Signed(text, p, Capped(ExponentDigits(text, p))) == 0
  {
    assert ExponentDigits(text, p) == [];
  }

  /** A format without exponents ends the number 1e5 before the letter; parse_decimal reads on. */
  lemma FixedOnlyDiffers()
    ensures var text, options := [0x31, 0x65, 0x35], ParseOptions(false, true, 0x2E);
      Accepts(text, options) && ReadValue(text, options) == 1.0 && LooseValue(text, 0x2E) == Ten(5)
  {
    hide Ten;
    var text: seq<Byte>, options := [0x31, 0x65, 0x35], ParseOptions(false, true, 0x2E);
    RunEndUnique(text, 0, 1);
    RunEndUnique(text, 2, 3);
    assert DigitsOf(text[0..1]) == [1] && DigitsOf(text[1..1]) == [] && DigitsOf(text[2..3]) == [5];
    assert DigitsIn(text, LayoutOf(text, 0x2E)) == [1];
    assert Numeral([1]) == 1 && Capped([5]) == 5;
    TenZero();
  }

  method ReadLooseExponent(text: seq<Byte>, p0: nat) returns (e: int)
    requires p0 <= |text|
    ensures e == LooseExponent(text, p0)
  {
    hide Capped;
    var p := p0;
    e := 0;
    if p < |text| && (text[p] == 0x65 || text[p] == 0x45) {
      p := p + 1;
      var negExp := false;
      if p < |text| && text[p] == MINUS {
        negExp := true;
        p := p + 1;
      } else if p < |text| && text[p] == PLUS {
        p := p + 1;
      }
      e, p := ReadCapped(text, p);
      e := if negExp then -e else e;
    }
  }

  /** Everything from place q of the text on is zeros. */
  ghost predicate ZerosFrom(l: Layout, q: int, d: seq<int>) {
    0 <= DigitsBefore(l, q) <= |d| && forall k :: DigitsBefore(l, q) <= k < |d| ==> d[k] == 0
  }

  lemma AllZeros(d: seq<int>)
    requires forall k :: 0 <= k < |d| ==> d[k] == 0
    ensures Significant(d) == []
  {
    LeadingZerosUnique(d, |d|);
  }

  /** One place back over a zero or the point. */
  lemma ZerosBack(text: seq<Byte>, point: Byte, q: nat)
    requires !IsInteger(point) && Significant(DigitsIn(text, LayoutOf(text, point))) != []
    requires var l := LayoutOf(text, point); l.start <= q <= l.fracEnd && ZerosFrom(l, q, DigitsIn(text, l))
    ensures var l := LayoutOf(text, point);
      && l.start < q
      && (text[q - 1] == ZERO_CHAR || text[q - 1] == point ==>
        ZerosFrom(l, q - 1, DigitsIn(text, l))
        && DigitsBefore(l, q - 1) == DigitsBefore(l, q) - if text[q - 1] == ZERO_CHAR then 1 else 0)
      && (text[q - 1] != ZERO_CHAR && text[q - 1] != point ==>
        DigitsBefore(l, q) > 0 && DigitsIn(text, l)[DigitsBefore(l, q) - 1] != 0)
  {
    hide DigitsIn;
    var l := LayoutOf(text, point);
    var d := DigitsIn(text, l);
    if q == l.start {
      AllZeros(d);
      assert false;
    }
    if l.start <= q - 1 < l.intEnd || l.fracStart <= q - 1 < l.fracEnd {
      DigitAt(text, l, q - 1);
    }
  }

  /** Counts the zeros that end the digits, looking back across the point. */
  method TrailingZeros(text: seq<Byte>, point: Byte, p: nat) returns (zeros: nat)
    requires !IsInteger(point) && p == LayoutOf(text, point).fracEnd
    requires Significant(DigitsIn(text, LayoutOf(text, point))) != []
    ensures var d := DigitsIn(text, LayoutOf(text, point));
      zeros < |d| && d[|d| - 1 - zeros] != 0 && forall k :: |d| - zeros <= k < |d| ==> d[k] == 0
  {
    hide DigitsIn, Significant, LayoutOf;
    ghost var l := LayoutOf(text, point);
    ghost var d := DigitsIn(text, l);
    LayoutShape(text, point);
    var preverse := p - 1;
    zeros := 0;
    ZerosBack(text, point, p);
    while text[preverse] == ZERO_CHAR || text[preverse] == point
      invariant l.start <= preverse < p && ZerosFrom(l, preverse + 1, d)
      invariant DigitsBefore(l, preverse + 1) == |d| - zeros
      decreases preverse
    {
      ZerosBack(text, point, preverse + 1);
      if text[preverse] == ZERO_CHAR {
        zeros := zeros + 1;
      }
      ZerosBack(text, point, preverse);
      preverse := preverse - 1;
    }
    ZerosBack(text, point, preverse + 1);
  }

  /** Skipping zeros in front of a run leaves its significant digits. */
  lemma SkipIsSignificant(head: seq<int>, text: seq<Byte>, from: nat, z: nat)
    requires from <= z <= |text| && Significant(head) == []
    requires forall i :: from <= i < z ==> text[i] == ZERO_CHAR
    requires z == |text| || text[z] != ZERO_CHAR
    ensures z <= RunEnd(text, from) == RunEnd(text, z)
    ensures Significant(head + DigitsOf(text[from..RunEnd(text, from)])) == DigitsOf(text[z..RunEnd(text, from)])
  {
    var r := RunEnd(text, z);
    RunEndUnique(text, from, r);
    var d := head + DigitsOf(text[from..r]);
    LeadingZerosUnique(d, |head| + z - from);
    assert d[|head| + z - from..] == DigitsOf(text[z..r]);
  }

  lemma SignificantAppend(a: seq<int>, b: seq<int>)
    requires Significant(a) != []
    ensures Significant(a + b) == Significant(a) + b
  {
    LeadingZerosUnique(a + b, LeadingZeros(a));
  }

  /** Reads all digits of the text into the buffer. */
  method CollectDigits(text: seq<Byte>, point: Byte, d: Decimal) returns (p: nat, fraction: int)
    requires text != [] && |text| < INT32_LIMIT && !IsInteger(point) && Collected(d, [])
    modifies d`numDigits, d.digits
    ensures var l := LayoutOf(text, point);
      && p == l.fracEnd && fraction == -FractionDigits(l)
      && Collected(d, Significant(DigitsIn(text, l)))
  {
    hide DigitsOf, Collected, Significant, RunEnd;
    p := if text[0] == MINUS then 1 else 0;
    fraction := 0;
    ghost var l := LayoutOf(text, point);
    p := SkipZeros(text, p);
    ghost var whole := DigitsOf(text[l.start..l.intEnd]);
    SkipWhole(text, l.start, p);
    p := StoreRun(d, text, p, p, []);
    if p < |text| && text[p] == point {
      p, fraction := StoreFraction(d, text, p + 1, whole);
    } else {
      assert whole + DigitsOf(text[p..p]) == whole by { EmptyDigits(text, p); }
    }
  }

  /** The digits behind the point; leading zeros are skipped while nothing significant is stored. */
  method StoreFraction(d: Decimal, text: seq<Byte>, firstAfterPeriod: nat, ghost whole: seq<int>)
    returns (p: nat, fraction: int)
    requires firstAfterPeriod <= |text| < INT32_LIMIT && |whole| <= firstAfterPeriod && IsDigits(whole)
    requires Collected(d, Significant(whole))
    modifies d`numDigits, d.digits
    ensures p == RunEnd(text, firstAfterPeriod) && fraction == firstAfterPeriod - p
    ensures Collected(d, Significant(whole + DigitsOf(text[firstAfterPeriod..p])))
  {
    hide DigitsOf, Collected, Significant;
    p := firstAfterPeriod;
    SignificantShort(whole);
    CollectedLength(d, Significant(whole));
    if d.numDigits == 0 {
      p := SkipZeros(text, p);
      SkipIsSignificant(whole, text, firstAfterPeriod, p);
      var from := p;
      p := StoreBlocks(d, text, from, []);
      p := StoreRun(d, text, from, p, []);
      assert [] + DigitsOf(text[from..p]) == DigitsOf(text[from..p]);
    } else {
      p := StoreBlocks(d, text, firstAfterPeriod, Significant(whole));
      p := StoreRun(d, text, firstAfterPeriod, p, Significant(whole));
      SignificantAppend(whole, DigitsOf(text[firstAfterPeriod..p]));
    }
    fraction := firstAfterPeriod - p;
  }

  lemma SkipWhole(text: seq<Byte>, from: nat, z: nat)
    requires from <= z <= |text|
    requires forall i :: from <= i < z ==> text[i] == ZERO_CHAR
    requires z == |text| || text[z] != ZERO_CHAR
    ensures z <= RunEnd(text, from) == RunEnd(text, z)
    ensures [] + DigitsOf(text[z..RunEnd(text, from)]) == Significant(DigitsOf(text[from..RunEnd(text, from)]))
    ensures [] + DigitsOf(text[z..z]) == []
  {
    hide DigitsOf, Significant, RunEnd;
    NothingYet();
    SkipIsSignificant([], text, from, z);
    NilHead(DigitsOf(text[from..RunEnd(text, from)]));
    NilHead(DigitsOf(text[z..RunEnd(text, from)]));
    NilHead(DigitsOf(text[z..z]));
    EmptyDigits(text, z);
  }

  lemma NothingYet()
    ensures Significant([]) == []
  {
  }

  lemma NilHead(s: seq<int>)
    ensures [] + s == s
  {
  }

  lemma EmptyDigits(text: seq<Byte>, p: nat)
    requires p <= |text|
    ensures DigitsOf(text[p..p]) == []
  {
  }

  lemma CollectedPrefix(d: Decimal, s: seq<int>)
    requires Collected(d, s)
    ensures d.digits.Length == MAX_DIGITS && !d.truncated
    ensures forall c :: 0 <= c <= |s| && c <= MAX_DIGITS ==> d.digits[..c] == s[..c]
  {
  }

  lemma CollectedLength(d: Decimal, s: seq<int>)
    requires Collected(d, s)
    ensures d.numDigits == |s| && (|s| == 0 ==> s == [])
  {
  }

  lemma SignificantShort(s: seq<int>)
    requires IsDigits(s)
    ensures |Significant(s)| <= |s| && IsDigits(Significant(s))
  {
  }

  /** What the buffer holds after trailing zeros are dropped and the digits cut at 768. */
  lemma CutDigits(s: seq<int>, zeros: nat, point: int)
    requires IsDigits(s) && zeros < |s| && s[|s| - 1 - zeros] != 0
    requires forall k :: |s| - zeros <= k < |s| ==> s[k] == 0
    ensures var n := |s| - zeros;
      var c := if n > MAX_DIGITS then MAX_DIGITS else n;
      && Val(s[..c], point) <= Val(s, point) < Val(s[..c], point) + Ten(point - MAX_DIGITS)
      && (Val(s[..c], point) != Val(s, point) <==> n > MAX_DIGITS)
  {
    hide Val, Ten;
    var n := |s| - zeros;
    ValPrefix(s, n, point);
    TenPos(point - MAX_DIGITS);
    if n > MAX_DIGITS {
      ValPrefix(s, MAX_DIGITS, point);
      assert s[n - 1] != 0;
    }
  }

  lemma SignificantTail(d: seq<int>, zeros: nat)
    requires zeros < |d| && d[|d| - 1 - zeros] != 0
    requires forall k :: |d| - zeros <= k < |d| ==> d[k] == 0
    ensures var s := Significant(d);
      zeros < |s| && s[|s| - 1 - zeros] != 0 && forall k :: |s| - zeros <= k < |s| ==> s[k] == 0
  {
    hide LeadingZeros;
    var c := LeadingZeros(d);
    var s := d[c..];
    assert c <= |d| - 1 - zeros;
    assert s[|s| - 1 - zeros] == d[|d| - 1 - zeros];
    forall k | |s| - zeros <= k < |s|
      ensures s[k] == 0
    {
      assert s[k] == d[c + k];
    }
  }

  /** The digits as a fraction, against the value of the text. */
  lemma FractionOf(text: seq<Byte>, point: Byte)
    ensures var l := LayoutOf(text, point);
      var d := DigitsIn(text, l);
      var s := Significant(d);
      && IsDigits(d) && IsDigits(s) && |s| <= |d| && |d| <= |text|
      && Val(s, |s| - FractionDigits(l) + LooseExponent(text, l.fracEnd)) == LooseValue(text, point)
      && (s == [] <==> Numeral(d) == 0) && (s != [] ==> s[0] != 0)
  {
    hide Ten, Numeral, DigitsIn, LayoutOf, Significant, LooseExponent, Units, IsDigits;
    LayoutShape(text, point);
    LayoutDigits(text, LayoutOf(text, point));
    SignificantFacts(DigitsIn(text, LayoutOf(text, point)));
  }

  lemma SignificantFacts(d: seq<int>)
    requires IsDigits(d)
    ensures var s := Significant(d);
      && IsDigits(s) && |s| <= |d| && Numeral(s) == Numeral(d)
      && (s == [] <==> Numeral(d) == 0) && (s != [] ==> s[0] != 0)
  {
    hide Numeral, Significant;
    SignificantNumeral(d);
    SignificantShort(d);
    NumeralZeros(Significant(d));
  }

  /** The place of the decimal point relative to the first significant digit of a text. */
  function PointOf(text: seq<Byte>, point: Byte): int {
    var l := LayoutOf(text, point);
    |Significant(DigitsIn(text, l))| - FractionDigits(l) + LooseExponent(text, l.fracEnd)
  }

  /** The digits up to the last one that is not zero. */
  function WithoutTrailing(s: seq<int>): (r: seq<int>)
    ensures |r| <= |s| && r == s[..|r|] && (r != [] ==> r[|r| - 1] != 0)
  {
    if s != [] && s[|s| - 1] == 0 then WithoutTrailing(s[..|s| - 1]) else s
  }

  /** At most 768 of them: what parse_decimal keeps. */
  function Cut(s: seq<int>): seq<int> {
    var t := WithoutTrailing(s);
    if |t| > MAX_DIGITS then t[..MAX_DIGITS] else t
  }

  lemma {:induction false} WithoutTrailingIs(s: seq<int>, zeros: nat)
    requires zeros < |s| && s[|s| - 1 - zeros] != 0 && forall k :: |s| - zeros <= k < |s| ==> s[k] == 0
    ensures WithoutTrailing(s) == s[..|s| - zeros]
  {
    if zeros > 0 {
      WithoutTrailingIs(s[..|s| - 1], zeros - 1);
    } else {
      assert s[..|s|] == s;
    }
  }

  /** The last digit kept is zero exactly if more than 768 remain and the 768th of them is zero. */
  ghost predicate EndsInZero(s: seq<int>) {
    |WithoutTrailing(s)| > MAX_DIGITS && s[MAX_DIGITS - 1] == 0
  }

  lemma CutEnd(s: seq<int>)
    ensures Cut(s) != [] && Cut(s)[|Cut(s)| - 1] == 0 <==> EndsInZero(s)
  {
  }

  /** A one, 767 zeros and a one behind them: 769 significant digits. */
  function ZeroEndText(): seq<Byte> {
    [0x31] + seq(767, _ => 0x30) + [0x31]
  }

  /** This text leaves a zero as the last digit of the buffer. */
  lemma ZeroEnd(point: Byte)
    requires !IsInteger(point)
    ensures DigitsIn(ZeroEndText(), LayoutOf(ZeroEndText(), point)) == DigitsOf(ZeroEndText())
    ensures EndsInZero(Significant(DigitsIn(ZeroEndText(), LayoutOf(ZeroEndText(), point))))
  {
    var text := ZeroEndText();
    assert |text| == 769 && text[0] == 0x31 && text[768] == 0x31 && forall i :: 1 <= i < 768 ==> text[i] == 0x30;
    hide ZeroEndText, DigitsOf, RunEnd, WithoutTrailing;
    RunEndUnique(text, 0, 769);
    assert text[0..769] == text && text[769..769] == [];
    assert DigitsOf(text) + DigitsOf(text[769..769]) == DigitsOf(text);
    LeadingZerosUnique(DigitsOf(text), 0);
    WithoutTrailingIs(DigitsOf(text), 0);
  }

  /** Drops trailing zeros, cuts at 768 digits and sets the point and the exponent. */
  method FinishDecimal(d: Decimal, text: seq<Byte>, point: Byte, p: nat, fraction: int)
    requires !IsInteger(point) && p == LayoutOf(text, point).fracEnd && |text| < INT32_LIMIT
    requires fraction == -FractionDigits(LayoutOf(text, point))
    requires Collected(d, Significant(DigitsIn(text, LayoutOf(text, point))))
    modifies d`numDigits, d`decimalPoint, d`truncated, d.digits
    ensures d.Valid() && d.Holds(LooseValue(text, point))
    ensures d.truncated <==> d.Value() != LooseValue(text, point)
    ensures d.numDigits == 0 <==> Numeral(DigitsIn(text, LayoutOf(text, point))) == 0
    ensures d.numDigits <= |Significant(DigitsIn(text, LayoutOf(text, point)))|
    ensures d.Digits() == Cut(Significant(DigitsIn(text, LayoutOf(text, point))))
    ensures d.decimalPoint == PointOf(text, point)
  {
    hide DigitsIn, Significant, Val, Ten, Numeral, LooseValue, LooseExponent, LayoutOf, Collected, WithoutTrailing;
    ghost var all := DigitsIn(text, LayoutOf(text, point));
    ghost var s := Significant(all);
    FractionOf(text, point);
    CollectedLength(d, s);
    CollectedPrefix(d, s);
    var count: int, decimalPoint := d.numDigits, fraction;
    if count > 0 {
      var zeros := TrailingZeros(text, point, p);
      SignificantTail(all, zeros);
      WithoutTrailingIs(s, zeros);
      decimalPoint := decimalPoint + count;
      count := count - zeros;
      CutDigits(s, zeros, decimalPoint + LooseExponent(text, p));
    }
    if count > MAX_DIGITS {
      d.truncated := true;
      count := MAX_DIGITS;
    }
    d.numDigits := count;
    var e := ReadLooseExponent(text, p);
    d.decimalPoint := decimalPoint + e;
    assert d.digits[..count] == s[..count];
    if count == 0 {
      NothingHeld(d.decimalPoint);
      assert d.digits[..0] == [] == s;
      assert WithoutTrailing([]) == [];
    }
    ZeroFill(d);
    assert d.digits[..count] == s[..count];
  }

  /** Reads a number text into a decimal that holds its value, cut behind 768 significant digits. */
  method ParseDecimal(text: seq<Byte>, options: ParseOptions) returns (d: Decimal)
    requires text != [] && |text| < INT32_LIMIT && !IsInteger(options.decimalPoint)
    ensures fresh(d) && fresh(d.digits) && d.Valid() && d.negative == (text[0] == MINUS)
    ensures d.Holds(LooseValue(text, options.decimalPoint))
    ensures d.truncated <==> d.Value() != LooseValue(text, options.decimalPoint)
    ensures d.numDigits == 0 <==> Numeral(DigitsIn(text, LayoutOf(text, options.decimalPoint))) == 0
    ensures d.numDigits <= |Significant(DigitsIn(text, LayoutOf(text, options.decimalPoint)))|
    ensures d.Digits() == Cut(Significant(DigitsIn(text, LayoutOf(text, options.decimalPoint))))
    ensures d.numDigits > 0 && d.digits[d.numDigits - 1] == 0 <==>
      EndsInZero(Significant(DigitsIn(text, LayoutOf(text, options.decimalPoint))))
    ensures d.decimalPoint == PointOf(text, options.decimalPoint)
  {
    hide DigitsIn, Significant, Val, Ten, Numeral, LooseValue, LayoutOf, Cut, EndsInZero;
    d := new Decimal();
    d.negative := text[0] == MINUS;
    StartCollecting(d);
    var p, fraction := CollectDigits(text, options.decimalPoint, d);
    FinishDecimal(d, text, options.decimalPoint, p, fraction);
    CutEnd(Significant(DigitsIn(text, LayoutOf(text, options.decimalPoint))));
  }

  /** Clears the places up to nineteen that hold no digit. */
  method ZeroFill(d: Decimal)
    requires d.digits.Length == MAX_DIGITS
    modifies d.digits
    ensures forall k :: 0 <= k < d.numDigits && k < MAX_DIGITS ==> d.digits[k] == old(d.digits[k])
    ensures forall k :: d.numDigits <= k < 19 ==> d.digits[k] == 0
  {
    var i := d.numDigits;
    while i < 19
      invariant d.numDigits <= i
      invariant forall k :: 0 <= k < d.numDigits && k < MAX_DIGITS ==> d.digits[k] == old(d.digits[k])
      invariant forall k :: d.numDigits <= k < 19 && k < i ==> d.digits[k] == 0
    {
      d.digits[i] := 0;
      i := i + 1;
    }
  }

  lemma StartCollecting(d: Decimal)
    requires d.Valid() && d.numDigits == 0 && !d.truncated
    ensures Collected(d, [])
  {
  }

  lemma NothingHeld(point: int)
    ensures Val([], point) == 0.0 && Ten(point - MAX_DIGITS) > 0.0
  {
    TenPos(point - MAX_DIGITS);
  }
}
