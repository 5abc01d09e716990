/** The number texts in literal bytes: which they are, and which numbers they write. */
module NumberGrammar {
  import opened Powers
  import opened Digits
  import opened MachineWords
  import opened EightDigits
  import opened NumberText
  import opened DecimalText

  /** The bytes of a number text: a sign, digits, the point and digits, the letter of an exponent with a sign and
      digits, and what follows. */
  datatype Parts = Parts(minus: seq<Byte>, whole: seq<Byte>, point: seq<Byte>, fraction: seq<Byte>,
    letter: seq<Byte>, sign: seq<Byte>, power: seq<Byte>, rest: seq<Byte>)

  function Tail(p: Parts): seq<Byte> {
    p.letter + (p.sign + (p.power + p.rest))
  }

  function Spell(p: Parts): seq<Byte> {
    p.minus + (p.whole + (p.point + (p.fraction + Tail(p))))
  }

  /** From '0' to '9'. */
  predicate AllDigits(s: seq<Byte>) {
    forall i :: 0 <= i < |s| ==> 0x30 <= s[i] <= 0x39
  }

  predicate NoDigitFirst(s: seq<Byte>) {
    s == [] || s[0] < 0x30 || s[0] > 0x39
  }

  /** A letter e or E, perhaps a sign, and a digit. */
  predicate StartsExponent(s: seq<Byte>) {
    |s| >= 2 && (s[0] == 0x65 || s[0] == 0x45) &&
    (0x30 <= s[1] <= 0x39 || (|s| >= 3 && (s[1] == 0x2B || s[1] == 0x2D) && 0x30 <= s[2] <= 0x39))
  }

  predicate MantissaParts(p: Parts, point: Byte) {
    && (p.minus == [] || p.minus == [0x2D])
    && AllDigits(p.whole) && AllDigits(p.fraction) && |p.whole| + |p.fraction| > 0
    && (p.point == [point] || (p.point == [] && p.fraction == [] && (Tail(p) != [] ==> Tail(p)[0] != point)))
    && (p.whole == [] && point == 0x2D ==> p.minus != [])
    && NoDigitFirst(Tail(p))
  }

  predicate ExponentParts(p: Parts, options: ParseOptions) {
    if p.letter == [] then
      p.sign == [] && p.power == [] && if options.scientific then options.fixed && !StartsExponent(p.rest) else true
    else
      && options.scientific && (p.letter == [0x65] || p.letter == [0x45])
      && (p.sign == [] || p.sign == [0x2B] || p.sign == [0x2D])
      && p.power != [] && AllDigits(p.power) && NoDigitFirst(p.rest)
  }

  /** The parts of a number text: each as long as it can be. */
  predicate IsNumber(p: Parts, options: ParseOptions) {
    MantissaParts(p, options.decimalPoint) && ExponentParts(p, options)
  }

  /** The number that the parts write, without its sign. */
  ghost function Meaning(p: Parts): real {
    Units(Numeral(DigitsOf(p.whole + p.fraction)), PowerOf(p) - |p.fraction|)
  }

  function PowerOf(p: Parts): int {
    if p.sign == [0x2D] then -Numeral(DigitsOf(p.power)) else Numeral(DigitsOf(p.power))
  }

  // From the parts to the number -----------------------------------------------------------------------------

  lemma Joined(x: seq<Byte>, y: seq<Byte>)
    ensures (x + y)[..|x|] == x && (x + y)[|x|..] == y
  {
  }

  lemma JoinedTwice(a: seq<Byte>, s: seq<Byte>, k: nat, x: seq<Byte>, y: seq<Byte>)
    requires k <= |a| && a[k..] == s && s == x + y
    ensures k + |x| <= |a| && a[k..k + |x|] == x && a[k + |x|..] == y
  {
  }

  /** Where the parts stand. */
  lemma Places(p: Parts) returns (a: nat, b: nat, c: nat, d: nat)
    ensures var t := Spell(p);
      && a == |p.minus| && b == a + |p.whole| && c == b + |p.point| && d == c + |p.fraction| <= |t|
      && t[..a] == p.minus && t[a..b] == p.whole && t[b..c] == p.point && t[c..d] == p.fraction
      && t[d..] == Tail(p)
  {
    hide Tail;
    var t := Spell(p);
    a, b, c, d := |p.minus|, |p.minus| + |p.whole|, |p.minus| + |p.whole| + |p.point|,
      |p.minus| + |p.whole| + |p.point| + |p.fraction|;
    var s3 := p.fraction + Tail(p);
    var s2 := p.point + s3;
    var s1 := p.whole + s2;
    Joined(p.minus, s1);
    JoinedTwice(t, s1, a, p.whole, s2);
    JoinedTwice(t, s2, b, p.point, s3);
    JoinedTwice(t, s3, c, p.fraction, Tail(p));
  }

  lemma DigitRun(t: seq<Byte>, i: nat, j: nat, s: seq<Byte>)
    requires i <= j <= |t| && t[i..j] == s && AllDigits(s) && NoDigitFirst(t[j..])
    ensures RunEnd(t, i) == j
  {
    forall k | i <= k < j
      ensures IsInteger(t[k])
    {
      assert t[k] == s[k - i];
    }
    if j < |t| {
      assert t[j] == t[j..][0];
    }
    RunEndUnique(t, i, j);
  }

  lemma FirstByte(t: seq<Byte>, i: nat, s: seq<Byte>)
    requires i <= |t| && t[i..] == s
    ensures i < |t| <==> s != []
    ensures i < |t| ==> t[i] == s[0]
  {
  }

  lemma LayoutWith(t: seq<Byte>, point: Byte, a: nat, b: nat, d: nat)
    requires a == (if t != [] && t[0] == 0x2D then 1 else 0) && a <= b < d <= |t| && t[b] == point
    requires RunEnd(t, a) == b && RunEnd(t, b + 1) == d
    ensures LayoutOf(t, point) == Layout(a == 1, a, b, b + 1, d)
  {
    hide RunEnd;
  }

  lemma LayoutWithout(t: seq<Byte>, point: Byte, a: nat, b: nat)
    requires a == (if t != [] && t[0] == 0x2D then 1 else 0) && a <= b <= |t| && (b < |t| ==> t[b] != point)
    requires RunEnd(t, a) == b
    ensures LayoutOf(t, point) == Layout(a == 1, a, b, b, b)
  {
    hide RunEnd;
  }

  /** The mantissa is found where it stands. */
  lemma MantissaLayout(p: Parts, point: Byte)
    requires MantissaParts(p, point) && !IsInteger(point)
    ensures var t, l := Spell(p), LayoutOf(Spell(p), point); var d := |p.minus| + |p.whole| + |p.point| + |p.fraction|;
      && t != [] && d <= |t| && t[d..] == Tail(p)
      && l.negative == (p.minus != []) == (t[0] == 0x2D)
      && (l.negative ==> 1 < |t| && (IsInteger(t[1]) || t[1] == point))
      && l.fracEnd == d && FractionDigits(l) == |p.fraction|
      && DigitsIn(t, l) == DigitsOf(p.whole + p.fraction)
  {
    hide Spell, Tail, LayoutOf, RunEnd, DigitsOf, AllDigits, NoDigitFirst;
    var t := Spell(p);
    var a, b, c, d := Places(p);
    SignByte(p, point, t, a, b, c, d);
    if p.point == [point] {
      FirstByte(t, b, t[b..]);
      assert t[b] == t[b..c][0];
      PointFirst(t[b..], point);
      DigitRun(t, a, b, p.whole);
      DigitRun(t, c, d, p.fraction);
      LayoutWith(t, point, a, b, d);
    } else {
      DigitRun(t, a, b, p.whole);
      FirstByte(t, d, Tail(p));
      LayoutWithout(t, point, a, b);
    }
    DigitsJoined(p.whole, p.fraction);
  }

  lemma PointFirst(s: seq<Byte>, point: Byte)
    requires s != [] && s[0] == point && !IsInteger(point)
    ensures NoDigitFirst(s)
  {
  }

  lemma SignByte(p: Parts, point: Byte, t: seq<Byte>, a: nat, b: nat, c: nat, d: nat)
    requires MantissaParts(p, point) && !IsInteger(point)
    requires a == |p.minus| && b == a + |p.whole| && c == b + |p.point| && d == c + |p.fraction| <= |t|
    requires t[..a] == p.minus && t[a..b] == p.whole && t[b..c] == p.point
    ensures a < |t| && (p.minus != [] <==> t[0] == 0x2D) && a == if p.minus == [] then 0 else 1
    ensures IsInteger(t[a]) || t[a] == point
  {
    if p.whole != [] {
      assert t[a] == t[a..b][0] == p.whole[0];
    } else {
      assert t[b] == t[b..c][0] == p.point[0];
    }
    if p.minus != [] {
      assert t[0] == t[..a][0];
    }
  }

  lemma DigitsJoined(x: seq<Byte>, y: seq<Byte>)
    ensures DigitsOf(x) + DigitsOf(y) == DigitsOf(x + y)
  {
  }

  // The exponent -------------------------------------------------------------------------------------------

  /** How an exponent is read that the parts have. */
  lemma ExponentAt(p: Parts, options: ParseOptions, t: seq<Byte>, d: nat) returns (q: nat, r: nat)
    requires ExponentParts(p, options) && p.letter != [] && d <= |t| && t[d..] == Tail(p)
    ensures HasE(t, d) && SignEnd(t, d) == q < r <= |t| && IsInteger(t[q])
    ensures RunEnd(t, q) == r == |t| - |p.rest| && t[q..r] == p.power
    ensures d + 1 < |t| && (t[d + 1] == MINUS <==> p.sign == [0x2D])
  {
    hide *;
    ExponentFacts(p, options);
    q, r := ExponentPlaces(p, t, d);
    RestFirst(p, options);
    DigitRun(t, q, r, p.power);
    SliceByte(t, d, d + 1, p.letter);
    LetterAt(t, d);
    SliceByte(t, q, r, p.power);
    FirstDigit(p.power);
    SignAt(t, d, q, p.sign);
    SignEndIs(t, d, q);
  }

  lemma ExponentFacts(p: Parts, options: ParseOptions)
    requires ExponentParts(p, options) && p.letter != []
    ensures |p.letter| == 1 && (p.letter[0] == 0x65 || p.letter[0] == 0x45) && p.power != [] && AllDigits(p.power)
    ensures p.sign == [] || p.sign == [0x2B] || p.sign == [0x2D]
  {
  }

  lemma RestFirst(p: Parts, options: ParseOptions)
    requires ExponentParts(p, options) && p.letter != []
    ensures NoDigitFirst(p.rest)
  {
  }

  lemma LetterAt(t: seq<Byte>, d: nat)
    requires d < |t| && (t[d] == 0x65 || t[d] == 0x45)
    ensures HasE(t, d)
  {
  }

  lemma SignAt(t: seq<Byte>, d: nat, q: nat, sign: seq<Byte>)
    requires d + 1 <= q < |t| && t[d + 1..q] == sign && IsInteger(t[q])
    requires sign == [] || sign == [0x2B] || sign == [0x2D]
    ensures q == d + 1 || (q == d + 2 && (t[d + 1] == MINUS || t[d + 1] == PLUS))
    ensures t[d + 1] == MINUS <==> sign == [0x2D]
  {
    if sign != [] {
      SliceByte(t, d + 1, q, sign);
    }
  }

  lemma SignEndIs(t: seq<Byte>, d: nat, q: nat)
    requires d + 1 <= q < |t| && IsInteger(t[q])
    requires q == d + 1 || (q == d + 2 && (t[d + 1] == MINUS || t[d + 1] == PLUS))
    ensures SignEnd(t, d) == q
  {
  }

  lemma FirstDigit(s: seq<Byte>)
    requires AllDigits(s) && s != []
    ensures IsInteger(s[0])
  {
  }

  lemma SliceByte(t: seq<Byte>, i: nat, j: nat, s: seq<Byte>)
    requires i < j <= |t| && t[i..j] == s
    ensures t[i] == s[0]
  {
    assert t[i] == t[i..j][0];
  }

  lemma ExponentPlaces(p: Parts, t: seq<Byte>, d: nat) returns (q: nat, r: nat)
    requires |p.letter| == 1 && d <= |t| && t[d..] == Tail(p)
    ensures d + 1 <= q == d + 1 + |p.sign| && q <= r == q + |p.power| && r + |p.rest| == |t|
    ensures t[d..d + 1] == p.letter && t[d + 1..q] == p.sign && t[q..r] == p.power && t[r..] == p.rest
  {
    var s3 := p.power + p.rest;
    var s2 := p.sign + s3;
    JoinedTwice(t, t[d..], d, p.letter, s2);
    JoinedTwice(t, s2, d + 1, p.sign, s3);
    q := d + 1 + |p.sign|;
    JoinedTwice(t, s3, q, p.power, p.rest);
    r := q + |p.power|;
  }

  lemma ExponentRead(p: Parts, options: ParseOptions, t: seq<Byte>, d: nat)
    requires ExponentParts(p, options) && p.letter != [] && d <= |t| && t[d..] == Tail(p)
    ensures ReadExponent(t, d, options) != BadExponent && ReadExponent(t, d, options).end == |t| - |p.rest|
    ensures WrittenExponent(t, d, options) == PowerOf(p)
  {
    hide RunEnd, Numeral, Capped, DigitsOf, SignEnd, HasE, IsInteger;
    var q, r := ExponentAt(p, options, t, d);
    assert options.scientific;
  }

  /** And one that they have not. */
  lemma NoExponentRead(p: Parts, options: ParseOptions, t: seq<Byte>, d: nat)
    requires ExponentParts(p, options) && p.letter == [] && d <= |t| && t[d..] == Tail(p)
    ensures ReadExponent(t, d, options) == ExponentPart(0, d) && d == |t| - |p.rest|
    ensures WrittenExponent(t, d, options) == 0 == PowerOf(p)
  {
    hide Capped;
    assert Tail(p) == p.rest;
    assert DigitsOf(p.power) == [];
    if options.scientific && HasE(t, d) {
      var q := SignEnd(t, d);
      assert t[d] == p.rest[0] && forall i :: d <= i < |t| ==> t[i] == p.rest[i - d];
      assert q == |t| || !IsInteger(t[q]);
      assert t[q..RunEnd(t, q)] == [];
    }
  }

  /** The parts of a number text are accepted, read up to what follows, and mean the number that is written. */
  lemma Spelled(p: Parts, options: ParseOptions)
    requires IsNumber(p, options) && !IsInteger(options.decimalPoint)
    ensures Accepts(Spell(p), options) && TextValue(Spell(p), options) == Meaning(p)
    ensures var t := Spell(p);
      && t != [] && (t[0] == 0x2D <==> p.minus == [0x2D])
      && ReadExponent(t, LayoutOf(t, options.decimalPoint).fracEnd, options).end == |t| - |p.rest|
  {
    hide Spell, Tail, LayoutOf, DigitsIn, DigitsOf, Numeral, ReadExponent, WrittenExponent, Units, PowerOf,
      FractionDigits;
    MantissaLayout(p, options.decimalPoint);
    var t := Spell(p);
    var d := |p.minus| + |p.whole| + |p.point| + |p.fraction|;
    DigitsLength(p.whole + p.fraction);
    if p.letter == [] {
      NoExponentRead(p, options, t, d);
    } else {
      ExponentRead(p, options, t, d);
    }
  }

  lemma DigitsLength(s: seq<Byte>)
    ensures |DigitsOf(s)| == |s|
  {
  }

  // From the text to the parts -------------------------------------------------------------------------------

  lemma Cut(t: seq<Byte>, i: nat, j: nat)
    requires i <= j <= |t|
    ensures t[i..] == t[i..j] + t[j..]
  {
  }

  /** The tail has these parts, and they are those of an exponent. */
  ghost predicate TailOf(p: Parts, s: seq<Byte>, options: ParseOptions) {
    Tail(p) == s && ExponentParts(p, options)
  }

  lemma WithExponent(t: seq<Byte>, d: nat, options: ParseOptions, p: Parts) returns (e: Parts)
    requires options.scientific && d <= |t| && HasE(t, d)
    requires SignEnd(t, d) < |t| && IsInteger(t[SignEnd(t, d)])
    ensures TailOf(e, t[d..], options)
    ensures e == p.(letter := e.letter, sign := e.sign, power := e.power, rest := e.rest)
  {
    hide RunEnd, AllDigits, NoDigitFirst, IsInteger;
    var q := SignEnd(t, d);
    var r := RunEnd(t, q);
    e := p.(letter := t[d..d + 1], sign := t[d + 1..q], power := t[q..r], rest := t[r..]);
    Cut(t, d, d + 1);
    Cut(t, d + 1, q);
    Cut(t, q, r);
    RunDigits(t, q, r);
    RunStarts(t, q, r);
  }

  lemma RunStarts(t: seq<Byte>, q: nat, r: nat)
    requires q < |t| && IsInteger(t[q]) && r == RunEnd(t, q)
    ensures r > q
  {
  }

  /** The parts of the tail at d. */
  lemma TailParts(t: seq<Byte>, d: nat, options: ParseOptions, p: Parts) returns (e: Parts)
    requires d <= |t| && ReadExponent(t, d, options) != BadExponent
    ensures TailOf(e, t[d..], options)
    ensures e == p.(letter := e.letter, sign := e.sign, power := e.power, rest := e.rest)
  {
    hide Capped, DigitsOf, RunEnd;
    if options.scientific && HasE(t, d) && SignEnd(t, d) < |t| && IsInteger(t[SignEnd(t, d)]) {
      e := WithExponent(t, d, options, p);
    } else {
      e := p.(letter := [], sign := [], power := [], rest := t[d..]);
      if options.scientific {
        NotStarted(t, d);
      }
      assert Tail(e) == t[d..];
    }
  }

  lemma RunDigits(t: seq<Byte>, i: nat, j: nat)
    requires i <= |t| && j == RunEnd(t, i)
    ensures AllDigits(t[i..j]) && NoDigitFirst(t[j..])
  {
    hide RunEnd;
    assert forall k :: 0 <= k < j - i ==> t[i..j][k] == t[i + k];
    if j < |t| {
      assert t[j..][0] == t[j];
    }
  }

  lemma NotStarted(t: seq<Byte>, d: nat)
    requires d <= |t| && (HasE(t, d) ==> SignEnd(t, d) == |t| || !IsInteger(t[SignEnd(t, d)]))
    ensures !StartsExponent(t[d..])
  {
    var s := t[d..];
    assert forall i :: 0 <= i < |s| ==> s[i] == t[d + i];
  }

  lemma FiveCuts(t: seq<Byte>, a: nat, b: nat, c: nat, d: nat, p: Parts)
    requires a <= b <= c <= d <= |t|
    requires p.minus == t[..a] && p.whole == t[a..b] && p.point == t[b..c] && p.fraction == t[c..d] && Tail(p) == t[d..]
    ensures Spell(p) == t
  {
    hide Tail;
    Cut(t, c, d);
    Cut(t, b, c);
    Cut(t, a, b);
    assert t == t[..a] + t[a..];
  }

  /** Every accepted text has such parts. */
  lemma Spelling(t: seq<Byte>, options: ParseOptions) returns (p: Parts)
    requires Accepts(t, options) && !IsInteger(options.decimalPoint)
    ensures IsNumber(p, options) && Spell(p) == t
  {
    hide Spell, Tail, RunEnd, ReadExponent, DigitsOf;
    hide ExponentParts;
    var point := options.decimalPoint;
    var l := LayoutOf(t, point);
    p := Parts(t[..l.start], t[l.start..l.intEnd], t[l.intEnd..l.fracStart], t[l.fracStart..l.fracEnd], [], [], [], []);
    p := TailParts(t, l.fracEnd, options, p);
    FiveCuts(t, l.start, l.intEnd, l.fracStart, l.fracEnd, p);
    MantissaFound(t, point, l, p);
  }

  lemma MantissaFound(t: seq<Byte>, point: Byte, l: Layout, p: Parts)
    requires l == LayoutOf(t, point) && DigitsIn(t, l) != [] && !IsInteger(point)
    requires p.minus == t[..l.start] && p.whole == t[l.start..l.intEnd] && p.point == t[l.intEnd..l.fracStart]
    requires p.fraction == t[l.fracStart..l.fracEnd] && Tail(p) == t[l.fracEnd..]
    requires l.negative ==> 1 < |t| && (IsInteger(t[1]) || t[1] == point)
    ensures MantissaParts(p, point)
  {
    hide Tail, RunEnd, AllDigits, NoDigitFirst;
    RunDigits(t, l.start, l.intEnd);
    FirstByte(t, l.fracEnd, Tail(p));
    if l.fracStart == l.intEnd {
      assert p.point == [] && p.fraction == [];
      assert AllDigits([]) by { NoDigits(); }
    } else {
      RunDigits(t, l.fracStart, l.fracEnd);
      assert p.point == [point];
    }
    if p.whole == [] && p.minus == [] {
      assert l.intEnd == 0;
      assert t[0] == point;
    }
  }

  lemma NoDigits()
    ensures AllDigits([])
  {
  }

  /** Exactly the texts with such parts are accepted. */
  lemma AcceptedTexts(t: seq<Byte>, options: ParseOptions)
    requires !IsInteger(options.decimalPoint)
    ensures Accepts(t, options) <==> exists p :: IsNumber(p, options) && Spell(p) == t
  {
    hide Accepts, IsNumber, Spell;
    if Accepts(t, options) {
      var p := Spelling(t, options);
    }
    if exists p :: IsNumber(p, options) && Spell(p) == t {
      var p :| IsNumber(p, options) && Spell(p) == t;
      Spelled(p, options);
    }
  }

  // What an exponent does ------------------------------------------------------------------------------------

  /** An exponent with a minus sign divides by its power of ten, any other one multiplies by it. */
  lemma ExponentMeaning(m: Parts, e: Parts, options: ParseOptions)
    requires MantissaParts(m, options.decimalPoint) && !IsInteger(options.decimalPoint) && options.scientific
    requires m.letter == m.sign == m.power == m.rest == []
    requires e == m.(letter := e.letter, sign := e.sign, power := e.power)
    requires (e.letter == [0x65] || e.letter == [0x45]) && (e.sign == [] || e.sign == [0x2B] || e.sign == [0x2D])
    requires e.power != [] && AllDigits(e.power) && [options.decimalPoint] != e.letter
    ensures Spell(e) == Spell(m) + (e.letter + (e.sign + e.power))
    ensures Accepts(Spell(e), options)
    ensures ReadExponent(Spell(e), LayoutOf(Spell(e), options.decimalPoint).fracEnd, options).end == |Spell(e)|
    ensures var ten := Ten(Numeral(DigitsOf(e.power)));
      if e.sign == [0x2D] then TextValue(Spell(e), options) * ten == TextValue(Spell(m), options)
      else TextValue(Spell(e), options) == TextValue(Spell(m), options) * ten
  {
    hide Ten, Numeral, DigitsOf, Spell, Accepts, TextValue, MantissaParts, Units;
    SpellExponent(m, e);
    WithLetter(m, e, options);
    Spelled(e, options);
    MantissaValue(m, options);
    var n, x, f := Numeral(DigitsOf(m.whole + m.fraction)), Numeral(DigitsOf(e.power)), |m.fraction|;
    UnitsShift(n, -f, x);
    UnitsShift(n, -x - f, x);
  }

  lemma UnitsShift(n: int, a: int, x: int)
    ensures Units(n, a + x) == Units(n, a) * Ten(x)
  {
    hide Ten;
    TenAdd(a, x);
    RMulAssoc(n as real, Ten(a), Ten(x));
  }

  lemma SpellExponent(m: Parts, e: Parts)
    requires m.letter == m.sign == m.power == m.rest == []
    requires e == m.(letter := e.letter, sign := e.sign, power := e.power)
    ensures Spell(e) == Spell(m) + (e.letter + (e.sign + e.power)) && e.rest == []
  {
    assert Tail(m) == [] && Tail(e) == e.letter + (e.sign + e.power);
    hide Tail;
    assert Spell(m) == m.minus + (m.whole + (m.point + m.fraction)) by { assert m.fraction + [] == m.fraction; }
  }

  lemma WithLetter(m: Parts, e: Parts, options: ParseOptions)
    requires MantissaParts(m, options.decimalPoint) && options.scientific
    requires m.letter == m.sign == m.power == m.rest == []
    requires e == m.(letter := e.letter, sign := e.sign, power := e.power)
    requires (e.letter == [0x65] || e.letter == [0x45]) && (e.sign == [] || e.sign == [0x2B] || e.sign == [0x2D])
    requires e.power != [] && AllDigits(e.power) && [options.decimalPoint] != e.letter
    ensures IsNumber(e, options)
  {
    assert Tail(e)[0] == e.letter[0];
  }

  /** A mantissa alone, even where the format asks for an exponent. */
  lemma MantissaValue(m: Parts, options: ParseOptions)
    requires MantissaParts(m, options.decimalPoint) && !IsInteger(options.decimalPoint)
    requires m.letter == m.sign == m.power == m.rest == []
    ensures TextValue(Spell(m), options) == Units(Numeral(DigitsOf(m.whole + m.fraction)), -|m.fraction|)
  {
    MantissaLayout(m, options.decimalPoint);
    assert Tail(m) == [];
    hide Spell, LayoutOf, DigitsIn, DigitsOf, Units;
    var t, d := Spell(m), |m.minus| + |m.whole| + |m.point| + |m.fraction|;
    assert d == |t|;
    assert ExponentDigits(t, d) == [];
  }

  lemma ExponentDigitsAre(p: Parts, options: ParseOptions, t: seq<Byte>, d: nat)
    requires ExponentParts(p, options) && options.scientific && d <= |t| && t[d..] == Tail(p)
    ensures ExponentDigits(t, d) == DigitsOf(p.power)
  {
    hide RunEnd, DigitsOf;
    DigitsLength(p.power);
    if p.letter != [] {
      hide Tail;
      var q, r := ExponentAt(p, options, t, d);
    } else {
      assert Tail(p) == p.rest;
      if HasE(t, d) {
        var q := SignEnd(t, d);
        assert t[d] == p.rest[0] && forall i :: d <= i < |t| ==> t[i] == p.rest[i - d];
        assert q == |t| || !IsInteger(t[q]);
        RunNothing(t, q);
      }
    }
  }

  lemma RunNothing(t: seq<Byte>, q: nat)
    requires q <= |t| && (q == |t| || !IsInteger(t[q]))
    ensures RunEnd(t, q) == q && DigitsOf(t[q..q]) == []
  {
  }

  /** With an exponent below the cap both readers read the number that is written. */
  lemma ReadAsWritten(p: Parts, options: ParseOptions)
    requires IsNumber(p, options) && !IsInteger(options.decimalPoint)
    requires Numeral(DigitsOf(p.power)) < EXPONENT_LIMIT
    ensures Accepts(Spell(p), options) && ReadValue(Spell(p), options) == Meaning(p)
    ensures options.scientific ==> LooseValue(Spell(p), options.decimalPoint) == Meaning(p)
  {
    hide Spell, Numeral, DigitsOf, Units, LayoutOf, DigitsIn, Capped, ExponentDigits, Accepts, TextValue, ReadValue,
      LooseValue, Meaning, MantissaParts, ExponentParts;
    var t := Spell(p);
    Spelled(p, options);
    MantissaLayout(p, options.decimalPoint);
    if options.scientific {
      ExponentDigitsAre(p, options, t, |p.minus| + |p.whole| + |p.point| + |p.fraction|);
      PowerDigits(p, options);
      CappedExact(DigitsOf(p.power));
      SameNumber(t, options);
    }
    CapMeaning(t, options);
  }

  lemma PowerDigits(p: Parts, options: ParseOptions)
    requires ExponentParts(p, options)
    ensures IsDigits(DigitsOf(p.power))
  {
  }
}
