/** The two word-parallel tricks on eight ASCII digits: recognising them and reading their value. */
module EightDigits {
  import opened Powers
  import opened Digits
  import opened MachineWords

  predicate IsInteger(c: Byte) { 0x30 <= c <= 0x39 }

  ghost predicate AllIntegers(bytes: seq<Byte>) {
    forall i :: 0 <= i < |bytes| ==> IsInteger(bytes[i])
  }

  /** The digit values of ASCII digits. */
  function DigitsOf(bytes: seq<Byte>): (s: seq<int>)
    ensures |s| == |bytes|
    ensures forall i :: 0 <= i < |s| ==> s[i] == bytes[i] as int - 0x30
  {
    seq(|bytes|, i requires 0 <= i < |bytes| => bytes[i] as int - 0x30)
  }

  /** A word read from memory in little-endian order. */
  function Read(bytes: seq<Byte>): nat {
    if bytes == [] then 0 else bytes[0] + 0x100 * Read(bytes[1..])
  }

  function IsMadeOfEightDigitsFast(val: U64): bool {
    BitAnd(BitOr(Wrap64(val + 0x4646464646464646), Wrap64(val - 0x3030303030303030)), 0x8080808080808080) == 0
  }

  function ParseEightDigitsUnrolled(val0: U64): U32 {
    var mask := 0x000000FF000000FF;
    var mul1 := 0x000F424000000064;
    var mul2 := 0x0000271000000001;
    var val1 := Wrap64(val0 - 0x3030303030303030);
    var val2 := Wrap64(val1 * 10 + val1 / 0x100);
    var val3 := Wrap64(BitAnd(val2, mask) * mul1 + BitAnd(val2 / 0x10000, mask) * mul2) / TWO_TO_32;
    val3 % TWO_TO_32
  }

  // Recognising eight digits ----------------------------------------------------------------------

  /** The byte c repeated n times. */
  function Repeat(c: Byte, n: nat): nat {
    if n == 0 then 0 else c + 0x100 * Repeat(c, n - 1)
  }

  function Lanes(n: nat): nat {
    if n == 0 then 1 else 0x100 * Lanes(n - 1)
  }

  lemma {:induction false} LanesPos(n: nat)
    ensures Lanes(n) > 0
  {
    if n > 0 {
      LanesPos(n - 1);
    }
  }

  /** A byte passes the test in its own lane exactly if it is a digit. */
  lemma LaneTest(b: Byte)
    ensures IsInteger(b) <==> (b + 0x46) % 0x100 < 0x80 && (b - 0x30) % 0x100 < 0x80
  {
  }

  /** The top bit of an or-ed byte. */
  lemma TopBit(a: Byte, b: Byte)
    ensures BitAnd(BitOr(a, b), 0x80) == 0 <==> a < 0x80 && b < 0x80
    ensures BitOr(a, b) < 0x100
  {
    assert Pow(2, 7) == 128;
    var al, ah, bl, bh := a % 128, a / 128, b % 128, b / 128;
    OrLanes(7, al, ah, bl, bh);
    var l, h := BitOr(al, bl), BitOr(ah, bh);
    AndLanes(7, l, h, 0, 1);
    BitAndZero(l);
    TopCases(ah, bh);
  }

  lemma TopCases(a: nat, b: nat)
    requires a < 2 && b < 2
    ensures BitOr(a, b) < 2
    ensures BitAnd(BitOr(a, b), 1) == 0 <==> a == 0 && b == 0
  {
  }

  /** A word of n bytes with low byte split off, modulo 256^n. */
  lemma SplitLow(x: int, n: nat)
    requires n > 0
    ensures Lanes(n) > 0 && Lanes(n - 1) > 0
    ensures x % Lanes(n) == x % 0x100 + 0x100 * ((x / 0x100) % Lanes(n - 1))
  {
    LanesPos(n - 1);
    LanesPos(n);
    SplitMod(x, Lanes(n - 1));
  }

  lemma SplitMod(x: int, m: int)
    requires m > 0
    ensures x % (0x100 * m) == x % 0x100 + 0x100 * ((x / 0x100) % m)
  {
    var q, r := x / 0x100, x % 0x100;
    var s, t := q / m, q % m;
    assert q == m * s + t;
    assert x == (0x100 * m) * s + (0x100 * t + r) by {
      assert 0x100 * (m * s) == (0x100 * m) * s;
    }
    ModUnique(x, 0x100 * m, s, 0x100 * t + r);
  }

  lemma ModUnique(x: int, m: int, s: int, r: int)
    requires 0 <= r < m && x == m * s + r
    ensures x % m == r
  {
    var s', r' := x / m, x % m;
    assert m * (s - s') == r' - r;
    if s - s' >= 1 {
      MulMono(m, 1, s - s');
    } else if s - s' <= -1 {
      MulMono(m, s - s', -1);
    }
  }

  /** The or-ed test word of n lanes. */
  ghost function TestWord(x: int, y: int, n: nat): nat {
    LanesPos(n);
    BitAnd(BitOr(x % Lanes(n), y % Lanes(n)), Repeat(0x80, n))
  }

  /** The low lane and the other lanes are tested apart. */
  lemma LaneSplit(x: int, y: int, n: nat)
    requires n > 0
    ensures TestWord(x, y, n) ==
      BitAnd(BitOr(x % 0x100, y % 0x100), 0x80) + 0x100 * TestWord(x / 0x100, y / 0x100, n - 1)
  {
    hide BitAnd, BitOr, Lanes, Pow;
    SplitLow(x, n);
    SplitLow(y, n);
    var a, b, h, i := x % 0x100, y % 0x100, (x / 0x100) % Lanes(n - 1), (y / 0x100) % Lanes(n - 1);
    TopBit(a, b);
    Pow256();
    OrLanes(8, a, h, b, i);
    AndLanes(8, BitOr(a, b), BitOr(h, i), 0x80, Repeat(0x80, n - 1));
  }

  /** A digit in the low lane leaves the other lanes alone, and any other byte fails there. */
  lemma LaneStep(b: Byte, x: int, y: int, n: nat)
    requires n > 0
    ensures TestWord(b as int + 0x46 + 0x100 * x, b as int - 0x30 + 0x100 * y, n) == 0
      <==> IsInteger(b) && TestWord(x, y, n - 1) == 0
  {
    hide BitAnd, BitOr, TestWord;
    var wide, wide' := b as int + 0x46 + 0x100 * x, b as int - 0x30 + 0x100 * y;
    LaneSplit(wide, wide', n);
    TopBit(wide % 0x100, wide' % 0x100);
    LaneTest(b);
    assert wide % 0x100 == (b as int + 0x46) % 0x100 && wide' % 0x100 == (b as int - 0x30) % 0x100;
    if IsInteger(b) {
      assert wide / 0x100 == x && wide' / 0x100 == y;
    }
  }

  lemma Pow256()
    ensures Pow(2, 8) == 0x100
  {
  }

  /** The test on n bytes holds exactly if all of them are digits: the lanes below the first
      other byte neither carry nor borrow into it. */
  lemma {:induction false} RecognisesDigits(bytes: seq<Byte>)
    ensures TestWord(Read(bytes) + Repeat(0x46, |bytes|), Read(bytes) - Repeat(0x30, |bytes|), |bytes|) == 0
      <==> AllIntegers(bytes)
  {
    if bytes != [] {
      hide TestWord;
      var n, rest := |bytes|, bytes[1..];
      RecognisesDigits(rest);
      assert AllIntegers(bytes) <==> IsInteger(bytes[0]) && AllIntegers(rest) by {
        assert forall i :: 0 <= i < |rest| ==> bytes[i + 1] == rest[i];
      }
      LaneStep(bytes[0], Read(rest) + Repeat(0x46, n - 1), Read(rest) - Repeat(0x30, n - 1), n);
    }
  }

  /** is_made_of_eight_digits_fast accepts exactly eight ASCII digits. */
  lemma EightLanes()
    ensures Repeat(0x46, 8) == 0x4646464646464646 && Repeat(0x30, 8) == 0x3030303030303030
    ensures Repeat(0x80, 8) == 0x8080808080808080 && Lanes(8) == TWO_TO_64
  {
  }

  lemma EightDigitsTest(bytes: seq<Byte>)
    requires |bytes| == 8
    ensures 0 <= Read(bytes) < TWO_TO_64
    ensures IsMadeOfEightDigitsFast(Read(bytes)) <==> AllIntegers(bytes)
  {
    EightLanes();
    hide Repeat, Lanes, BitAnd, BitOr, Read;
    ReadEight(bytes);
    RecognisesDigits(bytes);
  }

  function At(bytes: seq<Byte>, i: nat): int
    requires i < |bytes|
  {
    bytes[i]
  }

  lemma ReadEight(bytes: seq<Byte>)
    requires |bytes| == 8
    ensures Read(bytes) == At(bytes, 0) + 0x100 * (At(bytes, 1) + 0x100 * (At(bytes, 2) + 0x100 * (
      At(bytes, 3) + 0x100 * (At(bytes, 4) + 0x100 * (At(bytes, 5) + 0x100 * (At(bytes, 6) + 0x100 * At(bytes, 7)))))))
    ensures 0 <= Read(bytes) < TWO_TO_64
  {
    ReadFour(bytes, 0);
    ReadFour(bytes, 4);
    assert bytes[0..] == bytes && bytes[8..] == [];
  }

  lemma ReadFour(bytes: seq<Byte>, i: nat)
    requires i + 4 <= |bytes|
    ensures Read(bytes[i..]) == At(bytes, i) + 0x100 * (At(bytes, i + 1) + 0x100 * (At(bytes, i + 2) + 0x100 * (
      At(bytes, i + 3) + 0x100 * Read(bytes[i + 4..]))))
  {
    ReadStep(bytes, i);
    ReadStep(bytes, i + 1);
    ReadStep(bytes, i + 2);
    ReadStep(bytes, i + 3);
  }

  lemma ReadStep(bytes: seq<Byte>, i: nat)
    requires i < |bytes|
    ensures Read(bytes[i..]) == At(bytes, i) + 0x100 * Read(bytes[i + 1..])
  {
    assert bytes[i..][1..] == bytes[i + 1..];
  }

  // Reading eight digits --------------------------------------------------------------------------

  /** Two byte lanes picked out of a word, 32 bits apart. */
  lemma PickLanes(x: nat, a: nat, b: nat, m: nat, h: nat)
    requires a < 0x100 && b < 0x100 && m < 0x1000000
    requires x == a + 0x100 * (m + 0x1000000 * (b + 0x100 * h))
    ensures BitAnd(x, 0x000000FF000000FF) == a + 0x100000000 * b
  {
    hide BitAnd, Pow;
    LanePowers();
    var top := 0x1 * 0xFF;
    AndLanes(8, a, m + 0x1000000 * (b + 0x100 * h), 0xFF, 0x1000000 * 0xFF);
    AndLanes(24, m, b + 0x100 * h, 0, 0xFF);
    AndLanes(8, b, h, 0xFF, 0);
    BitAndZero(m);
    BitAndZero(h);
    ByteMask(a);
    ByteMask(b);
  }

  lemma LanePowers()
    ensures Pow(2, 8) == 0x100 && Pow(2, 24) == 0x1000000
  {
    Pow256();
    assert Pow(2, 12) == 0x1000;
    PowAdd(2, 12, 12);
  }

  lemma ByteMask(a: nat)
    requires a < 0x100
    ensures BitAnd(a, 0xFF) == a
  {
    MaskLow(8, a);
    assert Pow(2, 8) == 0x100;
  }

  lemma {:induction false} MaskLow(k: nat, a: nat)
    requires a < Pow(2, k)
    ensures Pow(2, k) >= 1 && BitAnd(a, Pow(2, k) - 1) == a
  {
    PowPos(2, k);
    if k > 0 {
      MaskLow(k - 1, a / 2);
      AndHalf(a, Pow(2, k) - 1);
    }
  }

  /** parse_eight_digits_unrolled reads eight ASCII digits as the number they write. */
  lemma EightDigitsValue(bytes: seq<Byte>)
    requires |bytes| == 8 && AllIntegers(bytes)
    ensures 0 <= Read(bytes) < TWO_TO_64
    ensures ParseEightDigitsUnrolled(Read(bytes)) == Numeral(DigitsOf(bytes))
  {
    hide BitAnd, Read, Numeral;
    ReadEight(bytes);
    var d := DigitsOf(bytes);
    EightDigitNumeral(d);
    EightDigitsArith(Read(bytes), d[0], d[1], d[2], d[3], d[4], d[5], d[6], d[7]);
  }

  lemma EightDigitNumeral(d: seq<int>)
    requires |d| == 8
    ensures Numeral(d) ==
      10 * (10 * (10 * (10 * (10 * (10 * (10 * d[0] + d[1]) + d[2]) + d[3]) + d[4]) + d[5]) + d[6]) + d[7]
  {
    assert d == [d[0], d[1], d[2], d[3], d[4], d[5], d[6]] + [d[7]];
    assert [d[0], d[1], d[2], d[3], d[4], d[5], d[6]] == [d[0], d[1], d[2], d[3], d[4], d[5]] + [d[6]];
    assert [d[0], d[1], d[2], d[3], d[4], d[5]] == [d[0], d[1], d[2], d[3], d[4]] + [d[5]];
    assert [d[0], d[1], d[2], d[3], d[4]] == [d[0], d[1], d[2], d[3]] + [d[4]];
    assert [d[0], d[1], d[2], d[3]] == [d[0], d[1], d[2]] + [d[3]];
    assert [d[0], d[1], d[2]] == [d[0], d[1]] + [d[2]];
    assert [d[0], d[1]] == [d[0]] + [d[1]];
    hide Numeral;
    NumeralSnoc([d[0], d[1], d[2], d[3], d[4], d[5], d[6]], d[7]);
    NumeralSnoc([d[0], d[1], d[2], d[3], d[4], d[5]], d[6]);
    NumeralSnoc([d[0], d[1], d[2], d[3], d[4]], d[5]);
    NumeralSnoc([d[0], d[1], d[2], d[3]], d[4]);
    NumeralSnoc([d[0], d[1], d[2]], d[3]);
    NumeralSnoc([d[0], d[1]], d[2]);
    NumeralSnoc([d[0]], d[1]);
    NumeralOne(d[0]);
  }

  lemma EightDigitsArith(val: U64, a: int, b: int, c: int, d: int, e: int, f: int, g: int, h: int)
    requires 0 <= a <= 9 && 0 <= b <= 9 && 0 <= c <= 9 && 0 <= d <= 9
    requires 0 <= e <= 9 && 0 <= f <= 9 && 0 <= g <= 9 && 0 <= h <= 9
    requires val == (a + 0x30) + 0x100 * ((b + 0x30) + 0x100 * ((c + 0x30) + 0x100 * ((d + 0x30) + 0x100 * (
      (e + 0x30) + 0x100 * ((f + 0x30) + 0x100 * ((g + 0x30) + 0x100 * (h + 0x30)))))))
    ensures ParseEightDigitsUnrolled(val) ==
      10000000 * a + 1000000 * b + 100000 * c + 10000 * d + 1000 * e + 100 * f + 10 * g + h
  {
    hide *;
    var v := a + 0x100 * (b + 0x100 * (c + 0x100 * (d + 0x100 * (e + 0x100 * (f + 0x100 * (g + 0x100 * h))))));
    DigitWord(v, a, b, c, d, e, f, g, h);
    PairDigits(v, a, b, c, d, e, f, g, h);
    WeighPairs(PairWord(v), 10 * a + b, 10 * b + c, 10 * c + d, 10 * d + e, 10 * e + f, 10 * f + g, 10 * g + h, 10 * h);
    WeighedBound(a, b, c, d, e, f, g, h);
    ParseSteps(val, v);
  }

  /** The word of eight digit values is not changed by wrapping. */
  lemma DigitWord(v: int, a: int, b: int, c: int, d: int, e: int, f: int, g: int, h: int)
    requires 0 <= a <= 9 && 0 <= b <= 9 && 0 <= c <= 9 && 0 <= d <= 9
    requires 0 <= e <= 9 && 0 <= f <= 9 && 0 <= g <= 9 && 0 <= h <= 9
    requires v == a + 0x100 * (b + 0x100 * (c + 0x100 * (d + 0x100 * (e + 0x100 * (f + 0x100 * (g + 0x100 * h))))))
    ensures 0 <= v < TWO_TO_64 && Wrap64(v) == v
  {
  }

  lemma WeighedBound(a: int, b: int, c: int, d: int, e: int, f: int, g: int, h: int)
    requires 0 <= a <= 9 && 0 <= b <= 9 && 0 <= c <= 9 && 0 <= d <= 9
    requires 0 <= e <= 9 && 0 <= f <= 9 && 0 <= g <= 9 && 0 <= h <= 9
    ensures 0 <= 10000000 * a + 1000000 * b + 100000 * c + 10000 * d + 1000 * e + 100 * f + 10 * g + h < TWO_TO_32
  {
  }

  /** The second and the third line of the reading. */
  ghost function PairWord(v: U64): U64 { Wrap64(v * 10 + v / 0x100) }

  ghost function WeighedPicks(t: U64): int {
    Wrap64(BitAnd(t, 0x000000FF000000FF) * 0x000F424000000064
      + BitAnd(t / 0x10000, 0x000000FF000000FF) * 0x0000271000000001) / TWO_TO_32
  }

  lemma ParseSteps(val: U64, v: U64)
    requires Wrap64(val - 0x3030303030303030) == v && 0 <= WeighedPicks(PairWord(v)) < TWO_TO_32
    ensures ParseEightDigitsUnrolled(val) == WeighedPicks(PairWord(v))
  {
    hide BitAnd, Wrap64;
  }

  /** Every lane becomes the two-digit number of itself and the next lane. */
  lemma PairDigits(v: int, a: int, b: int, c: int, d: int, e: int, f: int, g: int, h: int)
    requires 0 <= a <= 9 && 0 <= b <= 9 && 0 <= c <= 9 && 0 <= d <= 9
    requires 0 <= e <= 9 && 0 <= f <= 9 && 0 <= g <= 9 && 0 <= h <= 9
    requires v == a + 0x100 * (b + 0x100 * (c + 0x100 * (d + 0x100 * (e + 0x100 * (f + 0x100 * (g + 0x100 * h))))))
    ensures PairWord(v) == (10 * a + b) + 0x100 * ((10 * b + c) + 0x100 * ((10 * c + d) + 0x100 * (
      (10 * d + e) + 0x100 * ((10 * e + f) + 0x100 * ((10 * f + g) + 0x100 * ((10 * g + h) + 0x100 * (10 * h)))))))
  {
    assert v / 0x100 == b + 0x100 * (c + 0x100 * (d + 0x100 * (e + 0x100 * (f + 0x100 * (g + 0x100 * h)))));
  }

  /** The mask keeps the pairs in lanes 0 and 4, and after a shift those in lanes 2 and 6. */
  lemma PickPairs(t: nat, p0: int, p1: int, p2: int, p3: int, p4: int, p5: int, p6: int, p7: int)
    requires 0 <= p0 < 100 && 0 <= p1 < 100 && 0 <= p2 < 100 && 0 <= p3 < 100
    requires 0 <= p4 < 100 && 0 <= p5 < 100 && 0 <= p6 < 100 && 0 <= p7 < 100
    requires t ==
      p0 + 0x100 * (p1 + 0x100 * (p2 + 0x100 * (p3 + 0x100 * (p4 + 0x100 * (p5 + 0x100 * (p6 + 0x100 * p7))))))
    ensures BitAnd(t, 0x000000FF000000FF) == p0 + TWO_TO_32 * p4
    ensures BitAnd(t / 0x10000, 0x000000FF000000FF) == p2 + TWO_TO_32 * p6
  {
    hide BitAnd;
    PickLanes(t, p0, p4, p1 + 0x100 * (p2 + 0x100 * p3), p5 + 0x100 * (p6 + 0x100 * p7));
    assert t / 0x10000 == p2 + 0x100 * (p3 + 0x100 * (p4 + 0x100 * (p5 + 0x100 * (p6 + 0x100 * p7))));
    PickLanes(t / 0x10000, p2, p6, p3 + 0x100 * (p4 + 0x100 * p5), p7);
  }

  /** The two multiplications weigh the pairs; what they push past bit 64 is dropped. */
  lemma WeighPairs(t: U64, p0: int, p1: int, p2: int, p3: int, p4: int, p5: int, p6: int, p7: int)
    requires 0 <= p0 < 100 && 0 <= p1 < 100 && 0 <= p2 < 100 && 0 <= p3 < 100
    requires 0 <= p4 < 100 && 0 <= p5 < 100 && 0 <= p6 < 100 && 0 <= p7 < 100
    requires t ==
      p0 + 0x100 * (p1 + 0x100 * (p2 + 0x100 * (p3 + 0x100 * (p4 + 0x100 * (p5 + 0x100 * (p6 + 0x100 * p7))))))
    ensures WeighedPicks(t) == 1000000 * p0 + 10000 * p2 + 100 * p4 + p6
  {
    hide Wrap64, BitAnd;
    PickPairs(t, p0, p1, p2, p3, p4, p5, p6, p7);
    var low, high := 100 * p0 + p2, 1000000 * p0 + 100 * p4 + 10000 * p2 + p6;
    WrapAdd(low + TWO_TO_32 * high, 1000000 * p4 + 10000 * p6);
    HighHalf(low, high);
  }

  lemma WrapAdd(r: int, k: int)
    requires 0 <= r < TWO_TO_64
    ensures Wrap64(r + TWO_TO_64 * k) == r
  {
  }

  lemma HighHalf(low: int, high: int)
    requires 0 <= low < TWO_TO_32
    ensures (low + TWO_TO_32 * high) / TWO_TO_32 == high
  {
  }
}
