/** The two tables behind number_of_digits_decimal_left_shift: a packed entry for every shift,
    and the decimal digits of 5^shift it points at. */
module Pow5Table {
  import opened Powers
  import opened Digits

  const MAX_SHIFT: nat := 60

  /** The packed table: the growth in the upper five bits, an offset into the digit table in the
      lower eleven. */
  function Packed(i: nat): int {
    match i
    case 0 => 0x0000
    case 1 => 0x0800
    case 2 => 0x0801
    case 3 => 0x0803
    case 4 => 0x1006
    case 5 => 0x1009
    case 6 => 0x100D
    case 7 => 0x1812
    case 8 => 0x1817
    case 9 => 0x181D
    case 10 => 0x2024
    case 11 => 0x202B
    case 12 => 0x2033
    case 13 => 0x203C
    case 14 => 0x2846
    case 15 => 0x2850
    case 16 => 0x285B
    case 17 => 0x3067
    case 18 => 0x3073
    case 19 => 0x3080
    case 20 => 0x388E
    case 21 => 0x389C
    case 22 => 0x38AB
    case 23 => 0x38BB
    case 24 => 0x40CC
    case 25 => 0x40DD
    case 26 => 0x40EF
    case 27 => 0x4902
    case 28 => 0x4915
    case 29 => 0x4929
    case 30 => 0x513E
    case 31 => 0x5153
    case 32 => 0x5169
    case 33 => 0x5180
    case 34 => 0x5998
    case 35 => 0x59B0
    case 36 => 0x59C9
    case 37 => 0x61E3
    case 38 => 0x61FD
    case 39 => 0x6218
    case 40 => 0x6A34
    case 41 => 0x6A50
    case 42 => 0x6A6D
    case 43 => 0x6A8B
    case 44 => 0x72AA
    case 45 => 0x72C9
    case 46 => 0x72E9
    case 47 => 0x7B0A
    case 48 => 0x7B2B
    case 49 => 0x7B4D
    case 50 => 0x8370
    case 51 => 0x8393
    case 52 => 0x83B7
    case 53 => 0x83DC
    case 54 => 0x8C02
    case 55 => 0x8C28
    case 56 => 0x8C4F
    case 57 => 0x9477
    case 58 => 0x949F
    case 59 => 0x94C8
    case 60 => 0x9CF2
    case 61 => 0x051C
    case 62 => 0x051C
    case 63 => 0x051C
    case 64 => 0x051C
    case _ => 0
  }

  /** An entry unpacked, with the digits it points at read as one decimal numeral. */
  datatype Entry = Entry(growth: int, offset: int, power: int)

  function Table(i: nat): Entry {
    match i
    case 0 => Entry(0, 0x000, 1)
    case 1 => Entry(1, 0x000, 5)
    case 2 => Entry(1, 0x001, 25)
    case 3 => Entry(1, 0x003, 125)
    case 4 => Entry(2, 0x006, 625)
    case 5 => Entry(2, 0x009, 3125)
    case 6 => Entry(2, 0x00D, 15625)
    case 7 => Entry(3, 0x012, 78125)
    case 8 => Entry(3, 0x017, 390625)
    case 9 => Entry(3, 0x01D, 1953125)
    case 10 => Entry(4, 0x024, 9765625)
    case 11 => Entry(4, 0x02B, 48828125)
    case 12 => Entry(4, 0x033, 244140625)
    case 13 => Entry(4, 0x03C, 1220703125)
    case 14 => Entry(5, 0x046, 6103515625)
    case 15 => Entry(5, 0x050, 30517578125)
    case 16 => Entry(5, 0x05B, 152587890625)
    case 17 => Entry(6, 0x067, 762939453125)
    case 18 => Entry(6, 0x073, 3814697265625)
    case 19 => Entry(6, 0x080, 19073486328125)
    case 20 => Entry(7, 0x08E, 95367431640625)
    case 21 => Entry(7, 0x09C, 476837158203125)
    case 22 => Entry(7, 0x0AB, 2384185791015625)
    case 23 => Entry(7, 0x0BB, 11920928955078125)
    case 24 => Entry(8, 0x0CC, 59604644775390625)
    case 25 => Entry(8, 0x0DD, 298023223876953125)
    case 26 => Entry(8, 0x0EF, 1490116119384765625)
    case 27 => Entry(9, 0x102, 7450580596923828125)
    case 28 => Entry(9, 0x115, 37252902984619140625)
    case 29 => Entry(9, 0x129, 186264514923095703125)
    case 30 => Entry(10, 0x13E, 931322574615478515625)
    case 31 => Entry(10, 0x153, 4656612873077392578125)
    case 32 => Entry(10, 0x169, 23283064365386962890625)
    case 33 => Entry(10, 0x180, 116415321826934814453125)
    case 34 => Entry(11, 0x198, 582076609134674072265625)
    case 35 => Entry(11, 0x1B0, 2910383045673370361328125)
    case 36 => Entry(11, 0x1C9, 14551915228366851806640625)
    case 37 => Entry(12, 0x1E3, 72759576141834259033203125)
    case 38 => Entry(12, 0x1FD, 363797880709171295166015625)
    case 39 => Entry(12, 0x218, 1818989403545856475830078125)
    case 40 => Entry(13, 0x234, 9094947017729282379150390625)
    case 41 => Entry(13, 0x250, 45474735088646411895751953125)
    case 42 => Entry(13, 0x26D, 227373675443232059478759765625)
    case 43 => Entry(13, 0x28B, 1136868377216160297393798828125)
    case 44 => Entry(14, 0x2AA, 5684341886080801486968994140625)
    case 45 => Entry(14, 0x2C9, 28421709430404007434844970703125)
    case 46 => Entry(14, 0x2E9, 142108547152020037174224853515625)
    case 47 => Entry(15, 0x30A, 710542735760100185871124267578125)
    case 48 => Entry(15, 0x32B, 3552713678800500929355621337890625)
    case 49 => Entry(15, 0x34D, 17763568394002504646778106689453125)
    case 50 => Entry(16, 0x370, 88817841970012523233890533447265625)
    case 51 => Entry(16, 0x393, 444089209850062616169452667236328125)
    case 52 => Entry(16, 0x3B7, 2220446049250313080847263336181640625)
    case 53 => Entry(16, 0x3DC, 11102230246251565404236316680908203125)
    case 54 => Entry(17, 0x402, 55511151231257827021181583404541015625)
    case 55 => Entry(17, 0x428, 277555756156289135105907917022705078125)
    case 56 => Entry(17, 0x44F, 1387778780781445675529539585113525390625)
    case 57 => Entry(18, 0x477, 6938893903907228377647697925567626953125)
    case 58 => Entry(18, 0x49F, 34694469519536141888238489627838134765625)
    case 59 => Entry(18, 0x4C8, 173472347597680709441192448139190673828125)
    case 60 => Entry(19, 0x4F2, 867361737988403547205962240695953369140625)
    case 61 => Entry(0, 0x51C, 1)
    case 62 => Entry(0, 0x51C, 1)
    case 63 => Entry(0, 0x51C, 1)
    case 64 => Entry(0, 0x51C, 1)
    case _ => Entry(0, 0, 1)
  }

  /** The number of digits between a shift's offset and the next one. */
  function Length(shift: nat): int {
    Table(shift + 1).offset - Table(shift).offset
  }

  /** Powers of ten up to the longest row. */
  function TenTo(k: nat): int {
    match k
    case 0 => 1
    case 1 => 10
    case 2 => 100
    case 3 => 1000
    case 4 => 10000
    case 5 => 100000
    case 6 => 1000000
    case 7 => 10000000
    case 8 => 100000000
    case 9 => 1000000000
    case 10 => 10000000000
    case 11 => 100000000000
    case 12 => 1000000000000
    case 13 => 10000000000000
    case 14 => 100000000000000
    case 15 => 1000000000000000
    case 16 => 10000000000000000
    case 17 => 100000000000000000
    case 18 => 1000000000000000000
    case 19 => 10000000000000000000
    case 20 => 100000000000000000000
    case 21 => 1000000000000000000000
    case 22 => 10000000000000000000000
    case 23 => 100000000000000000000000
    case 24 => 1000000000000000000000000
    case 25 => 10000000000000000000000000
    case 26 => 100000000000000000000000000
    case 27 => 1000000000000000000000000000
    case 28 => 10000000000000000000000000000
    case 29 => 100000000000000000000000000000
    case 30 => 1000000000000000000000000000000
    case 31 => 10000000000000000000000000000000
    case 32 => 100000000000000000000000000000000
    case 33 => 1000000000000000000000000000000000
    case 34 => 10000000000000000000000000000000000
    case 35 => 100000000000000000000000000000000000
    case 36 => 1000000000000000000000000000000000000
    case 37 => 10000000000000000000000000000000000000
    case 38 => 100000000000000000000000000000000000000
    case 39 => 1000000000000000000000000000000000000000
    case 40 => 10000000000000000000000000000000000000000
    case 41 => 100000000000000000000000000000000000000000
    case 42 => 1000000000000000000000000000000000000000000
    case _ => 0
  }

  lemma {:induction false} TenToIsPow(k: nat)
    requires k <= 42
    ensures TenTo(k) == Pow(10, k)
  {
    if k > 0 {
      TenToIsPow(k - 1);
      assert TenTo(k) == 10 * TenTo(k - 1);
    }
  }

  lemma PackedEntry(i: nat)
    requires i <= 64
    ensures Packed(i) == 0x800 * Table(i).growth + Table(i).offset
    ensures 0 <= Table(i).offset < 0x800
  {
    PackedEntryIn(i, if i <= 20 then 0 else if i <= 40 then 21 else 41);
  }

  lemma PackedEntryIn(i: nat, first: nat)
    requires first == 0 || first == 21 || first == 41
    requires first <= i < first + 24 && i <= 64
    ensures Packed(i) == 0x800 * Table(i).growth + Table(i).offset
    ensures 0 <= Table(i).offset < 0x800
  {
  }

  /** Every row holds the power of five it stands for. */
  lemma {:induction false} RowIsPow(shift: nat)
    requires shift <= MAX_SHIFT
    ensures Table(shift).power == Pow(5, shift)
  {
    if shift > 0 {
      RowIsPow(shift - 1);
      RowStep(shift - 1);
    }
  }

  lemma RowStep(shift: nat)
    requires shift < MAX_SHIFT
    ensures Table(shift + 1).power == 5 * Table(shift).power
  {
  }

  /** The growth is the number of digits that 10^shift has over 5^shift. */
  lemma RowGrowth(shift: nat)
    requires 1 <= shift <= MAX_SHIFT
    ensures Length(shift) == shift + 1 - Table(shift).growth
  {
  }

  lemma RowBound(shift: nat)
    requires 1 <= shift <= MAX_SHIFT
    ensures 1 <= Table(shift).growth <= 19
    ensures Table(shift).growth <= shift <= Table(shift).growth + 41
  {
  }

  lemma RowLow(shift: nat)
    requires 1 <= shift <= MAX_SHIFT
    requires 0 <= Table(shift).growth <= shift
    ensures TenTo(shift - Table(shift).growth) <= Table(shift).power
  {
    RowLowIn(shift, shift - (shift - 1) % 10);
  }

  lemma RowLowIn(shift: nat, first: nat)
    requires first in {1, 11, 21, 31, 41, 51} && first <= shift < first + 10
    requires 0 <= Table(shift).growth <= shift
    ensures TenTo(shift - Table(shift).growth) <= Table(shift).power
  {
  }

  lemma RowHigh(shift: nat)
    requires 1 <= shift <= MAX_SHIFT
    requires 0 <= Table(shift).growth <= shift
    ensures Table(shift).power < TenTo(shift + 1 - Table(shift).growth)
  {
    RowHighIn(shift, shift - (shift - 1) % 10);
  }

  lemma RowHighIn(shift: nat, first: nat)
    requires first in {1, 11, 21, 31, 41, 51} && first <= shift < first + 10
    requires 0 <= Table(shift).growth <= shift
    ensures Table(shift).power < TenTo(shift + 1 - Table(shift).growth)
  {
  }

  lemma RowEndsInFive(shift: nat)
    requires 1 <= shift <= MAX_SHIFT
    ensures Table(shift).power % 10 == 5
  {
  }

  // The digit table ----------------------------------------------------------------------------------------------

  /** The table of digits, twenty-four to a line, each line read as one numeral; the last one is filled up with
      zeros. */
  function Line(k: nat): int {
    match k
    case 0 => 525125625312515625781253
    case 1 => 906251953125976562548828
    case 2 => 125244140625122070312561
    case 3 => 35156253051757812515258
    case 4 => 789062576293945312538146
    case 5 => 972656251907348632812595
    case 6 => 367431640625476837158203
    case 7 => 125238418579101562511920
    case 8 => 928955078125596046447753
    case 9 => 906252980232238769531251
    case 10 => 490116119384765625745058
    case 11 => 59692382812537252902984
    case 12 => 619140625186264514923095
    case 13 => 703125931322574615478515
    case 14 => 625465661287307739257812
    case 15 => 523283064365386962890625
    case 16 => 116415321826934814453125
    case 17 => 582076609134674072265625
    case 18 => 291038304567337036132812
    case 19 => 514551915228366851806640
    case 20 => 625727595761418342590332
    case 21 => 31253637978807091712951
    case 22 => 660156251818989403545856
    case 23 => 475830078125909494701772
    case 24 => 928237915039062545474735
    case 25 => 88646411895751953125227
    case 26 => 373675443232059478759765
    case 27 => 625113686837721616029739
    case 28 => 379882812556843418860808
    case 29 => 14869689941406252842170
    case 30 => 943040400743484497070312
    case 31 => 514210854715202003717422
    case 32 => 485351562571054273576010
    case 33 => 18587112426757812535527
    case 34 => 136788005009293556213378
    case 35 => 906251776356839400250464
    case 36 => 677810668945312588817841
    case 37 => 970012523233890533447265
    case 38 => 625444089209850062616169
    case 39 => 452667236328125222044604
    case 40 => 925031308084726333618164
    case 41 => 62511102230246251565404
    case 42 => 236316680908203125555111
    case 43 => 512312578270211815834045
    case 44 => 410156252775557561562891
    case 45 => 351059079170227050781251
    case 46 => 387778780781445675529539
    case 47 => 585113525390625693889390
    case 48 => 390722837764769792556762
    case 49 => 695312534694469519536141
    case 50 => 888238489627838134765625
    case 51 => 173472347597680709441192
    case 52 => 448139190673828125867361
    case 53 => 737988403547205962240695
    case 54 => 953369140625000000000000
    case _ => 0
  }

  function LineDigit(line: int, i: nat): (d: int)
    requires i < 24
    ensures 0 <= d <= 9
  {
    TenToPositive(23 - i);
    (line / TenTo(23 - i)) % 10
  }

  lemma TenToPositive(k: nat)
    requires k <= 42
    ensures TenTo(k) > 0
  {
  }

  /** The digit at a place of the table. */
  function DigitAt(i: nat): (d: int)
    ensures 0 <= d <= 9
  {
    LineDigit(Line(i / 24), i % 24)
  }

  function Slice(from: nat, to: nat): (s: seq<int>)
    requires from <= to
    ensures |s| == to - from && (forall k :: 0 <= k < |s| ==> s[k] == DigitAt(from + k)) && IsDigits(s)
  {
    seq(to - from, k requires 0 <= k < to - from => DigitAt(from + k))
  }

  /** The stretch of the digit table between a shift's offset and the next one. */
  function Row(shift: nat): (s: seq<int>)
    requires shift <= MAX_SHIFT
    ensures IsDigits(s)
  {
    OffsetsGrow(shift);
    Slice(Packed(shift) % 0x800, Packed(shift + 1) % 0x800)
  }

  lemma OffsetsGrow(shift: nat)
    requires shift <= MAX_SHIFT
    ensures 0 <= Packed(shift) % 0x800 <= Packed(shift + 1) % 0x800
  {
    hide Packed, Table;
    PackedEntry(shift);
    PackedEntry(shift + 1);
    EntryOffset(shift);
    EntryOffset(shift + 1);
    if shift > 0 {
      RowGrowth(shift);
      RowBound(shift);
    } else {
      FirstOffsets();
    }
  }

  lemma EntryOffset(i: nat)
    requires Packed(i) == 0x800 * Table(i).growth + Table(i).offset && 0 <= Table(i).offset < 0x800
    ensures Packed(i) % 0x800 == Table(i).offset && Packed(i) / 0x800 == Table(i).growth
  {
    hide Packed, Table;
  }

  lemma FirstOffsets()
    ensures Table(0).offset == Table(1).offset == 0
  {
  }

  /** Digits i to j of a line as a numeral. */
  function Part(line: int, i: nat, j: nat): int
    requires i <= j <= 24
  {
    TenToPositive(24 - j);
    TenToPositive(j - i);
    (line / TenTo(24 - j)) % TenTo(j - i)
  }

  lemma TenToNext(k: nat)
    requires k < 42
    ensures TenTo(k + 1) == 10 * TenTo(k) && TenTo(0) == 1
  {
  }

  lemma DivideTwice(x: int, p: int)
    requires p > 0
    ensures (x / p) / 10 == x / (10 * p)
  {
    var q, r := x / p, x % p;
    assert x == p * q + r;
    var a, b := q / 10, q % 10;
    assert q == 10 * a + b;
    assert x == (10 * p) * a + (p * b + r);
    assert 0 <= p * b + r < 10 * p by { MulMono(p, b, 9); MulMono(p, 0, b); }
    QuotientIs(x, 10 * p, a, p * b + r);
  }

  lemma QuotientIs(x: int, m: int, q: int, r: int)
    requires m > 0 && x == m * q + r && 0 <= r < m
    ensures x / m == q && x % m == r
  {
    var a := x / m;
    if a < q {
      MulMono(m, a + 1, q);
    } else if a > q {
      MulMono(m, q + 1, a);
    }
  }

  /** One more digit of a remainder. */
  lemma RemainderDigit(m: int, t: int)
    requires t > 0
    ensures m % (10 * t) == 10 * ((m / 10) % t) + m % 10
  {
    var a, b := m / 10, m % 10;
    var q, r := a / t, a % t;
    assert a == t * q + r;
    assert m == (10 * t) * q + (10 * r + b);
    QuotientIs(m, 10 * t, q, 10 * r + b);
  }

  lemma PartNext(line: int, i: nat, j: nat)
    requires i <= j < 24
    ensures Part(line, i, j + 1) == 10 * Part(line, i, j) + LineDigit(line, j)
  {
    TenToPositive(23 - j);
    TenToPositive(j - i);
    TenToNext(23 - j);
    TenToNext(j - i);
    hide TenTo;
    DivideTwice(line, TenTo(23 - j));
    RemainderDigit(line / TenTo(23 - j), TenTo(j - i));
  }

  lemma {:induction false} PartNumeral(line: int, i: nat, j: nat, s: seq<int>)
    requires i <= j <= 24 && |s| == j - i && forall k :: 0 <= k < |s| ==> s[k] == LineDigit(line, i + k)
    ensures Numeral(s) == Part(line, i, j)
  {
    if i == j {
      TenToPositive(24 - j);
      assert TenTo(0) == 1;
    } else {
      hide TenTo, Part;
      PartNumeral(line, i, j - 1, s[..|s| - 1]);
      PartNext(line, i, j - 1);
    }
  }

  /** A stretch of the table as a numeral, put together from the lines it touches. */
  function Piece(from: nat, to: nat): int
    requires from <= to <= from + 42
  {
    var line, i := from / 24, from % 24;
    var j := i + (to - from);
    if j <= 24 then Part(Line(line), i, j)
    else if j <= 48 then Part(Line(line), i, 24) * TenTo(j - 24) + Part(Line(line + 1), 0, j - 24)
    else
      (Part(Line(line), i, 24) * TenTo(24) + Part(Line(line + 1), 0, 24)) * TenTo(j - 48)
      + Part(Line(line + 2), 0, j - 48)
  }

  lemma SlicePiece(from: nat, to: nat)
    requires from <= to <= from + 42
    ensures Numeral(Slice(from, to)) == Piece(from, to)
  {
    hide TenTo, Line, Part, LineDigit, Numeral, Pow, DigitAt;
    var line, i := from / 24, from % 24;
    var j, next := i + (to - from), 24 * (line + 1);
    if j <= 24 {
      InOneLine(from, to, line);
    } else if j <= 48 {
      InOneLine(from, next, line);
      InOneLine(next, to, line + 1);
      SliceJoin(from, next, to);
    } else {
      InOneLine(from, next, line);
      InOneLine(next, next + 24, line + 1);
      InOneLine(next + 24, to, line + 2);
      SliceJoin(from, next, next + 24);
      SliceJoin(from, next + 24, to);
    }
  }

  lemma SliceJoin(from: nat, mid: nat, to: nat)
    requires from <= mid <= to <= mid + 42
    ensures Numeral(Slice(from, to)) == Numeral(Slice(from, mid)) * TenTo(to - mid) + Numeral(Slice(mid, to))
  {
    hide TenTo, Numeral, Pow, DigitAt;
    assert Slice(from, to) == Slice(from, mid) + Slice(mid, to);
    NumeralAppend(Slice(from, mid), Slice(mid, to));
    TenToIsPow(to - mid);
  }

  lemma InOneLine(from: nat, to: nat, line: nat)
    requires 24 * line <= from <= to <= 24 * (line + 1)
    ensures Numeral(Slice(from, to)) == Part(Line(line), from - 24 * line, to - 24 * line)
  {
    hide LineDigit, Line, Part, Numeral;
    forall k | 0 <= k < to - from
      ensures Slice(from, to)[k] == LineDigit(Line(line), from - 24 * line + k)
    {
      assert (from + k) / 24 == line && (from + k) % 24 == from - 24 * line + k;
    }
    PartNumeral(Line(line), from - 24 * line, to - 24 * line, Slice(from, to));
  }

  /** The digits written in the table at the packed offsets are those of the entry. */
  ghost predicate Spelled(shift: nat) {
    var from, to := Table(shift).offset, Table(shift + 1).offset;
    0 <= from <= to <= from + 42 && Piece(from, to) == Table(shift).power
  }

  lemma SplitParts(line: int, high: int, part: int, low: int, p: int, q: int)
    requires 0 <= part < q && 0 <= low < p && line == (high * q + part) * p + low
    ensures (line / p) % q == part
  {
    var x := high * q + part;
    assert x * p == p * x && high * q == q * high;
    QuotientIs(line, p, x, low);
    QuotientIs(x, q, high, part);
  }

  /** A part of a line, from how the line splits there. */
  lemma PartIs(k: nat, i: nat, j: nat, high: int, part: int, low: int, p: int, q: int)
    requires i <= j <= 24 && p == TenTo(24 - j) && q == TenTo(j - i)
    requires 0 <= part < q && 0 <= low < p && Line(k) == (high * q + part) * p + low
    ensures Part(Line(k), i, j) == part
  {
    hide TenTo, Line;
    SplitParts(Line(k), high, part, low, p, q);
  }

  lemma Pieces1To5()
    ensures Piece(0x000, 0x001) == 5
    ensures Piece(0x001, 0x003) == 25
    ensures Piece(0x003, 0x006) == 125
    ensures Piece(0x006, 0x009) == 625
    ensures Piece(0x009, 0x00D) == 3125
  {
    hide Part;
    PartIs(0, 0, 1, 0, 5, 25125625312515625781253, 100000000000000000000000, 10);
    PartIs(0, 1, 3, 5, 25, 125625312515625781253, 1000000000000000000000, 100);
    PartIs(0, 3, 6, 525, 125, 625312515625781253, 1000000000000000000, 1000);
    PartIs(0, 6, 9, 525125, 625, 312515625781253, 1000000000000000, 1000);
    PartIs(0, 9, 13, 525125625, 3125, 15625781253, 100000000000, 10000);
  }

  lemma Rows1To5(shift: nat)
    requires 1 <= shift <= 5
    ensures Spelled(shift)
  {
    hide Piece;
    Pieces1To5();
  }

  lemma Pieces6To10()
    ensures Piece(0x00D, 0x012) == 15625
    ensures Piece(0x012, 0x017) == 78125
    ensures Piece(0x017, 0x01D) == 390625
    ensures Piece(0x01D, 0x024) == 1953125
    ensures Piece(0x024, 0x02B) == 9765625
  {
    hide Part;
    PartIs(0, 13, 18, 5251256253125, 15625, 781253, 1000000, 100000);
    PartIs(0, 18, 23, 525125625312515625, 78125, 3, 10, 100000);
    PartIs(0, 23, 24, 52512562531251562578125, 3, 0, 1, 10);
    PartIs(1, 0, 5, 0, 90625, 1953125976562548828, 10000000000000000000, 100000);
    PartIs(1, 5, 12, 90625, 1953125, 976562548828, 1000000000000, 10000000);
    PartIs(1, 12, 19, 906251953125, 9765625, 48828, 100000, 10000000);
  }

  lemma Rows6To10(shift: nat)
    requires 6 <= shift <= 10
    ensures Spelled(shift)
  {
    hide Piece;
    Pieces6To10();
  }

  lemma Pieces11To15()
    ensures Piece(0x02B, 0x033) == 48828125
    ensures Piece(0x033, 0x03C) == 244140625
    ensures Piece(0x03C, 0x046) == 1220703125
    ensures Piece(0x046, 0x050) == 6103515625
    ensures Piece(0x050, 0x05B) == 30517578125
  {
    hide Part;
    PartIs(1, 19, 24, 9062519531259765625, 48828, 0, 1, 100000);
    PartIs(2, 0, 3, 0, 125, 244140625122070312561, 1000000000000000000000, 1000);
    PartIs(2, 3, 12, 125, 244140625, 122070312561, 1000000000000, 1000000000);
    PartIs(2, 12, 22, 125244140625, 1220703125, 61, 100, 10000000000);
    PartIs(2, 22, 24, 1252441406251220703125, 61, 0, 1, 100);
    PartIs(3, 0, 8, 0, 3515625, 3051757812515258, 10000000000000000, 100000000);
    PartIs(3, 8, 19, 3515625, 30517578125, 15258, 100000, 100000000000);
  }

  lemma Rows11To15(shift: nat)
    requires 11 <= shift <= 15
    ensures Spelled(shift)
  {
    hide Piece;
    Pieces11To15();
  }

  lemma Pieces16To20()
    ensures Piece(0x05B, 0x067) == 152587890625
    ensures Piece(0x067, 0x073) == 762939453125
    ensures Piece(0x073, 0x080) == 3814697265625
    ensures Piece(0x080, 0x08E) == 19073486328125
    ensures Piece(0x08E, 0x09C) == 95367431640625
  {
    hide Part;
    PartIs(3, 19, 24, 351562530517578125, 15258, 0, 1, 100000);
    PartIs(4, 0, 7, 0, 7890625, 76293945312538146, 100000000000000000, 10000000);
    PartIs(4, 7, 19, 7890625, 762939453125, 38146, 100000, 1000000000000);
    PartIs(4, 19, 24, 7890625762939453125, 38146, 0, 1, 100000);
    PartIs(5, 0, 8, 0, 97265625, 1907348632812595, 10000000000000000, 100000000);
    PartIs(5, 8, 22, 97265625, 19073486328125, 95, 100, 100000000000000);
    PartIs(5, 22, 24, 9726562519073486328125, 95, 0, 1, 100);
    PartIs(6, 0, 12, 0, 367431640625, 476837158203, 1000000000000, 1000000000000);
  }

  lemma Rows16To20(shift: nat)
    requires 16 <= shift <= 20
    ensures Spelled(shift)
  {
    hide Piece;
    Pieces16To20();
  }

  lemma Pieces21To25()
    ensures Piece(0x09C, 0x0AB) == 476837158203125
    ensures Piece(0x0AB, 0x0BB) == 2384185791015625
    ensures Piece(0x0BB, 0x0CC) == 11920928955078125
    ensures Piece(0x0CC, 0x0DD) == 59604644775390625
    ensures Piece(0x0DD, 0x0EF) == 298023223876953125
  {
    hide Part;
    PartIs(6, 12, 24, 367431640625, 476837158203, 0, 1, 1000000000000);
    PartIs(7, 0, 3, 0, 125, 238418579101562511920, 1000000000000000000000, 1000);
    PartIs(7, 3, 19, 125, 2384185791015625, 11920, 100000, 10000000000000000);
    PartIs(7, 19, 24, 1252384185791015625, 11920, 0, 1, 100000);
    PartIs(8, 0, 12, 0, 928955078125, 596046447753, 1000000000000, 1000000000000);
    PartIs(8, 12, 24, 928955078125, 596046447753, 0, 1, 1000000000000);
    PartIs(9, 0, 5, 0, 90625, 2980232238769531251, 10000000000000000000, 100000);
    PartIs(9, 5, 23, 90625, 298023223876953125, 1, 10, 1000000000000000000);
  }

  lemma Rows21To25(shift: nat)
    requires 21 <= shift <= 25
    ensures Spelled(shift)
  {
    hide Piece;
    Pieces21To25();
  }

  lemma Pieces26To30()
    ensures Piece(0x0EF, 0x102) == 1490116119384765625
    ensures Piece(0x102, 0x115) == 7450580596923828125
    ensures Piece(0x115, 0x129) == 37252902984619140625
    ensures Piece(0x129, 0x13E) == 186264514923095703125
    ensures Piece(0x13E, 0x153) == 931322574615478515625
  {
    hide Part;
    PartIs(9, 23, 24, 90625298023223876953125, 1, 0, 1, 10);
    PartIs(10, 0, 18, 0, 490116119384765625, 745058, 1000000, 1000000000000000000);
    PartIs(10, 18, 24, 490116119384765625, 745058, 0, 1, 1000000);
    PartIs(11, 0, 13, 0, 596923828125, 37252902984, 100000000000, 10000000000000);
    PartIs(11, 13, 24, 596923828125, 37252902984, 0, 1, 100000000000);
    PartIs(12, 0, 9, 0, 619140625, 186264514923095, 1000000000000000, 1000000000);
    PartIs(12, 9, 24, 619140625, 186264514923095, 0, 1, 1000000000000000);
    PartIs(13, 0, 6, 0, 703125, 931322574615478515, 1000000000000000000, 1000000);
    PartIs(13, 6, 24, 703125, 931322574615478515, 0, 1, 1000000000000000000);
    PartIs(14, 0, 3, 0, 625, 465661287307739257812, 1000000000000000000000, 1000);
  }

  lemma Rows26To30(shift: nat)
    requires 26 <= shift <= 30
    ensures Spelled(shift)
  {
    hide Piece;
    Pieces26To30();
  }

  lemma Pieces31To35()
    ensures Piece(0x153, 0x169) == 4656612873077392578125
    ensures Piece(0x169, 0x180) == 23283064365386962890625
    ensures Piece(0x180, 0x198) == 116415321826934814453125
    ensures Piece(0x198, 0x1B0) == 582076609134674072265625
    ensures Piece(0x1B0, 0x1C9) == 2910383045673370361328125
  {
    hide Part;
    PartIs(14, 3, 24, 625, 465661287307739257812, 0, 1, 1000000000000000000000);
    PartIs(15, 0, 1, 0, 5, 23283064365386962890625, 100000000000000000000000, 10);
    PartIs(15, 1, 24, 5, 23283064365386962890625, 0, 1, 100000000000000000000000);
    PartIs(16, 0, 24, 0, 116415321826934814453125, 0, 1, 1000000000000000000000000);
    PartIs(17, 0, 24, 0, 582076609134674072265625, 0, 1, 1000000000000000000000000);
    PartIs(18, 0, 24, 0, 291038304567337036132812, 0, 1, 1000000000000000000000000);
    PartIs(19, 0, 1, 0, 5, 14551915228366851806640, 100000000000000000000000, 10);
  }

  lemma Rows31To35(shift: nat)
    requires 31 <= shift <= 35
    ensures Spelled(shift)
  {
    hide Piece;
    Pieces31To35();
  }

  lemma Pieces36To40()
    ensures Piece(0x1C9, 0x1E3) == 14551915228366851806640625
    ensures Piece(0x1E3, 0x1FD) == 72759576141834259033203125
    ensures Piece(0x1FD, 0x218) == 363797880709171295166015625
    ensures Piece(0x218, 0x234) == 1818989403545856475830078125
    ensures Piece(0x234, 0x250) == 9094947017729282379150390625
  {
    hide Part;
    PartIs(19, 1, 24, 5, 14551915228366851806640, 0, 1, 100000000000000000000000);
    PartIs(20, 0, 3, 0, 625, 727595761418342590332, 1000000000000000000000, 1000);
    PartIs(20, 3, 24, 625, 727595761418342590332, 0, 1, 1000000000000000000000);
    PartIs(21, 0, 5, 0, 3125, 3637978807091712951, 10000000000000000000, 100000);
    PartIs(21, 5, 24, 3125, 3637978807091712951, 0, 1, 10000000000000000000);
    PartIs(22, 0, 8, 0, 66015625, 1818989403545856, 10000000000000000, 100000000);
    PartIs(22, 8, 24, 66015625, 1818989403545856, 0, 1, 10000000000000000);
    PartIs(23, 0, 12, 0, 475830078125, 909494701772, 1000000000000, 1000000000000);
    PartIs(23, 12, 24, 475830078125, 909494701772, 0, 1, 1000000000000);
    PartIs(24, 0, 16, 0, 9282379150390625, 45474735, 100000000, 10000000000000000);
  }

  lemma Rows36To40(shift: nat)
    requires 36 <= shift <= 40
    ensures Spelled(shift)
  {
    hide Piece;
    Pieces36To40();
  }

  lemma Pieces41To45()
    ensures Piece(0x250, 0x26D) == 45474735088646411895751953125
    ensures Piece(0x26D, 0x28B) == 227373675443232059478759765625
    ensures Piece(0x28B, 0x2AA) == 1136868377216160297393798828125
    ensures Piece(0x2AA, 0x2C9) == 5684341886080801486968994140625
    ensures Piece(0x2C9, 0x2E9) == 28421709430404007434844970703125
  {
    hide Part;
    PartIs(24, 16, 24, 9282379150390625, 45474735, 0, 1, 100000000);
    PartIs(25, 0, 21, 0, 88646411895751953125, 227, 1000, 1000000000000000000000);
    PartIs(25, 21, 24, 88646411895751953125, 227, 0, 1, 1000);
    PartIs(26, 0, 24, 0, 373675443232059478759765, 0, 1, 1000000000000000000000000);
    PartIs(27, 0, 3, 0, 625, 113686837721616029739, 1000000000000000000000, 1000);
    PartIs(27, 3, 24, 625, 113686837721616029739, 0, 1, 1000000000000000000000);
    PartIs(28, 0, 10, 0, 3798828125, 56843418860808, 100000000000000, 10000000000);
    PartIs(28, 10, 24, 3798828125, 56843418860808, 0, 1, 100000000000000);
    PartIs(29, 0, 17, 0, 1486968994140625, 2842170, 10000000, 100000000000000000);
    PartIs(29, 17, 24, 1486968994140625, 2842170, 0, 1, 10000000);
    PartIs(30, 0, 24, 0, 943040400743484497070312, 0, 1, 1000000000000000000000000);
    PartIs(31, 0, 1, 0, 5, 14210854715202003717422, 100000000000000000000000, 10);
  }

  lemma Rows41To45(shift: nat)
    requires 41 <= shift <= 45
    ensures Spelled(shift)
  {
    hide Piece;
    Pieces41To45();
  }

  lemma Pieces46To50()
    ensures Piece(0x2E9, 0x30A) == 142108547152020037174224853515625
    ensures Piece(0x30A, 0x32B) == 710542735760100185871124267578125
    ensures Piece(0x32B, 0x34D) == 3552713678800500929355621337890625
    ensures Piece(0x34D, 0x370) == 17763568394002504646778106689453125
    ensures Piece(0x370, 0x393) == 88817841970012523233890533447265625
  {
    hide Part;
    PartIs(31, 1, 24, 5, 14210854715202003717422, 0, 1, 100000000000000000000000);
    PartIs(32, 0, 10, 0, 4853515625, 71054273576010, 100000000000000, 10000000000);
    PartIs(32, 10, 24, 4853515625, 71054273576010, 0, 1, 100000000000000);
    PartIs(33, 0, 19, 0, 185871124267578125, 35527, 100000, 10000000000000000000);
    PartIs(33, 19, 24, 185871124267578125, 35527, 0, 1, 100000);
    PartIs(34, 0, 24, 0, 136788005009293556213378, 0, 1, 1000000000000000000000000);
    PartIs(35, 0, 5, 0, 90625, 1776356839400250464, 10000000000000000000, 100000);
    PartIs(35, 5, 24, 90625, 1776356839400250464, 0, 1, 10000000000000000000);
    PartIs(36, 0, 16, 0, 6778106689453125, 88817841, 100000000, 10000000000000000);
    PartIs(36, 16, 24, 6778106689453125, 88817841, 0, 1, 100000000);
    PartIs(37, 0, 24, 0, 970012523233890533447265, 0, 1, 1000000000000000000000000);
    PartIs(38, 0, 3, 0, 625, 444089209850062616169, 1000000000000000000000, 1000);
  }

  lemma Rows46To50(shift: nat)
    requires 46 <= shift <= 50
    ensures Spelled(shift)
  {
    hide Piece;
    Pieces46To50();
  }

  lemma Pieces51To55()
    ensures Piece(0x393, 0x3B7) == 444089209850062616169452667236328125
    ensures Piece(0x3B7, 0x3DC) == 2220446049250313080847263336181640625
    ensures Piece(0x3DC, 0x402) == 11102230246251565404236316680908203125
    ensures Piece(0x402, 0x428) == 55511151231257827021181583404541015625
    ensures Piece(0x428, 0x44F) == 277555756156289135105907917022705078125
  {
    hide Part;
    PartIs(38, 3, 24, 625, 444089209850062616169, 0, 1, 1000000000000000000000);
    PartIs(39, 0, 15, 0, 452667236328125, 222044604, 1000000000, 1000000000000000);
    PartIs(39, 15, 24, 452667236328125, 222044604, 0, 1, 1000000000);
    PartIs(40, 0, 24, 0, 925031308084726333618164, 0, 1, 1000000000000000000000000);
    PartIs(41, 0, 4, 0, 625, 11102230246251565404, 100000000000000000000, 10000);
    PartIs(41, 4, 24, 625, 11102230246251565404, 0, 1, 100000000000000000000);
    PartIs(42, 0, 18, 0, 236316680908203125, 555111, 1000000, 1000000000000000000);
    PartIs(42, 18, 24, 236316680908203125, 555111, 0, 1, 1000000);
    PartIs(43, 0, 24, 0, 512312578270211815834045, 0, 1, 1000000000000000000000000);
    PartIs(44, 0, 8, 0, 41015625, 2775557561562891, 10000000000000000, 100000000);
    PartIs(44, 8, 24, 41015625, 2775557561562891, 0, 1, 10000000000000000);
    PartIs(45, 0, 23, 0, 35105907917022705078125, 1, 10, 100000000000000000000000);
  }

  lemma Rows51To55(shift: nat)
    requires 51 <= shift <= 55
    ensures Spelled(shift)
  {
    hide Piece;
    Pieces51To55();
  }

  lemma Pieces56To60()
    ensures Piece(0x44F, 0x477) == 1387778780781445675529539585113525390625
    ensures Piece(0x477, 0x49F) == 6938893903907228377647697925567626953125
    ensures Piece(0x49F, 0x4C8) == 34694469519536141888238489627838134765625
    ensures Piece(0x4C8, 0x4F2) == 173472347597680709441192448139190673828125
    ensures Piece(0x4F2, 0x51C) == 867361737988403547205962240695953369140625
  {
    hide Part;
    PartIs(45, 23, 24, 35105907917022705078125, 1, 0, 1, 10);
    PartIs(46, 0, 24, 0, 387778780781445675529539, 0, 1, 1000000000000000000000000);
    PartIs(47, 0, 15, 0, 585113525390625, 693889390, 1000000000, 1000000000000000);
    PartIs(47, 15, 24, 585113525390625, 693889390, 0, 1, 1000000000);
    PartIs(48, 0, 24, 0, 390722837764769792556762, 0, 1, 1000000000000000000000000);
    PartIs(49, 0, 7, 0, 6953125, 34694469519536141, 100000000000000000, 10000000);
    PartIs(49, 7, 24, 6953125, 34694469519536141, 0, 1, 100000000000000000);
    PartIs(50, 0, 24, 0, 888238489627838134765625, 0, 1, 1000000000000000000000000);
    PartIs(51, 0, 24, 0, 173472347597680709441192, 0, 1, 1000000000000000000000000);
    PartIs(52, 0, 18, 0, 448139190673828125, 867361, 1000000, 1000000000000000000);
    PartIs(52, 18, 24, 448139190673828125, 867361, 0, 1, 1000000);
    PartIs(53, 0, 24, 0, 737988403547205962240695, 0, 1, 1000000000000000000000000);
    PartIs(54, 0, 12, 0, 953369140625, 0, 1000000000000, 1000000000000);
  }

  lemma Rows56To60(shift: nat)
    requires 56 <= shift <= 60
    ensures Spelled(shift)
  {
    hide Piece;
    Pieces56To60();
  }

  lemma RowPiece(shift: nat)
    requires 1 <= shift <= MAX_SHIFT
    ensures Spelled(shift)
  {
    hide Spelled, Table, Piece;
    if shift <= 5 {
      Rows1To5(shift);
    } else if shift <= 10 {
      Rows6To10(shift);
    } else if shift <= 15 {
      Rows11To15(shift);
    } else if shift <= 20 {
      Rows16To20(shift);
    } else if shift <= 25 {
      Rows21To25(shift);
    } else if shift <= 30 {
      Rows26To30(shift);
    } else if shift <= 35 {
      Rows31To35(shift);
    } else if shift <= 40 {
      Rows36To40(shift);
    } else if shift <= 45 {
      Rows41To45(shift);
    } else if shift <= 50 {
      Rows46To50(shift);
    } else if shift <= 55 {
      Rows51To55(shift);
    } else {
      Rows56To60(shift);
    }
  }

  /** What the two tables say about a shift: the row spells 5^shift without a leading or a trailing
      zero, and the growth is the digits that 10^shift has over it. */
  lemma TableMeaning(shift: nat)
    requires 1 <= shift <= MAX_SHIFT
    ensures 1 <= |Row(shift)| <= shift
    ensures Numeral(Row(shift)) == Pow(5, shift)
    ensures |Row(shift)| == shift + 1 - Packed(shift) / 0x800
    ensures |Row(shift)| == Packed(shift + 1) % 0x800 - Packed(shift) % 0x800
    ensures Pow(10, |Row(shift)| - 1) <= Pow(5, shift)
    ensures Row(shift)[|Row(shift)| - 1] == 5
    ensures 1 <= Packed(shift) / 0x800 <= 19
  {
    hide Table, Packed, Pow, TenTo, Numeral, Piece, Slice;
    PackedEntry(shift);
    PackedEntry(shift + 1);
    EntryOffset(shift);
    EntryOffset(shift + 1);
    RowGrowth(shift);
    RowBound(shift);
    RowLow(shift);
    RowHigh(shift);
    TenToIsPow(shift - Table(shift).growth);
    RowIsPow(shift);
    RowEndsInFive(shift);
    RowPiece(shift);
    SlicePiece(Table(shift).offset, Table(shift + 1).offset);
    LastDigit(Row(shift));
  }

  lemma LastDigit(s: seq<int>)
    requires s != [] && IsDigits(s)
    ensures Numeral(s) % 10 == s[|s| - 1]
  {
  }
}
