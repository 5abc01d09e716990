/** When the product with a table entry lies in the middle between two numbers. */
module FastTies {
  import opened Powers
  import opened MachineWords
  import opened ProductApproximation
  import opened FastTable
  import opened FastTop

  /** An odd divisor of a number that is shifted divides the number. */
  lemma {:induction false} OddDivides(f: int, k: int, m: int, i: nat) returns (l: int)
    requires f % 2 == 1 && f * k == m * Pow(2, i)
    ensures m == f * l
    decreases i
  {
    PowZero(2);
    hide Pow;
    if i == 0 {
      l := k;
    } else {
      PowStep(2, i - 1);
      MulSwap(m, 2, Pow(2, i - 1));
      Doubled(m, Pow(2, i - 1));
      EvenFactor(f, k, m * Pow(2, i - 1));
      l := OddDivides(f, k / 2, m, i - 1);
    }
  }

  lemma EvenFactor(f: int, k: int, x: int)
    requires f % 2 == 1 && f * k == 2 * x
    ensures k % 2 == 0 && f * (k / 2) == x
  {
    var j := f / 2;
    Doubled(j, k);
    assert (2 * j + 1) * k == 2 * (j * k) + k;
    assert k == 2 * (x - j * k);
    Doubled(k / 2, f);
    assert f * (2 * (k / 2)) == 2 * (f * (k / 2));
  }

  lemma Doubled(j: int, k: int)
    ensures (2 * j) * k == 2 * (j * k)
  {
  }

  lemma {:induction false} FiveOdd(n: nat)
    ensures Pow(5, n) % 2 == 1
  {
    if n > 0 {
      FiveOdd(n - 1);
    }
  }

  lemma OddProduct(a: int, b: int)
    requires a % 2 == 1 && b % 2 == 1
    ensures (a * b) % 2 == 1
  {
    var i, j := a / 2, b / 2;
    assert a * b == 2 * (i * b + j) + 1;
  }

  lemma FactorAtMost(m: int, f: int, l: int)
    requires m > 0 && f > 0 && m == f * l
    ensures f <= m
  {
    if l <= 0 {
      MulMono(f, l, 0);
    } else {
      MulMono(f, 1, l);
    }
  }

  /** A tie of a product with a positive power means that the power divides the odd number in front. */
  lemma TiePositive(q: nat, w: int, m: int, i: nat)
    requires m > 0 && w * Num(q) == m * (Den(q) * Pow(2, i))
    ensures Pow(5, q) <= m
  {
    hide Pow;
    FiveOdd(q);
    PowPos(5, q);
    PositiveScale(q);
    var l;
    if Scale(q) >= 0 {
      Regrouped(w, Pow(5, q), Pow(2, Scale(q)));
      assert Pow(5, q) * (w * Pow(2, Scale(q))) == m * Pow(2, i);
      l := OddDivides(Pow(5, q), w * Pow(2, Scale(q)), m, i);
    } else {
      PowAdd(2, -Scale(q), i);
      assert Pow(5, q) * w == m * Pow(2, -Scale(q) + i);
      l := OddDivides(Pow(5, q), w, m, -Scale(q) + i);
    }
    FactorAtMost(m, Pow(5, q), l);
  }

  /** A tie of a quotient means that the power times the odd number divides the word. */
  lemma TieNegative(q: int, w: int, lz: nat, m: int, i: nat)
    requires q < 0 && w > 0 && m > 0 && m % 2 == 1
    requires (w * Pow(2, lz)) * Num(q) == m * (Den(q) * Pow(2, i))
    ensures m * Pow(5, -q) <= w
  {
    hide Pow;
    NegativeScale(q);
    FiveOdd(-q);
    PowPos(5, -q);
    var f := m * Pow(5, -q);
    OddProduct(m, Pow(5, -q));
    MulMonoStrict(Pow(5, -q), 0, m);
    PowAdd(2, lz, Scale(q));
    MulSwap(w, Pow(2, lz), Pow(2, Scale(q)));
    MulSwap(m, Pow(5, -q), Pow(2, i));
    var l := OddDivides(f, Pow(2, i), w, lz + Scale(q));
    FactorAtMost(w, f, l);
  }

  /** Small powers have an exact entry, whose second word is zero. */
  lemma ExactEntry(q: int, t: Value128)
    requires 0 <= q <= 23 && IsEntry(q, t)
    ensures Den(q) == 1 && t.low == 0 && Num(q) == t.high * TWO_TO_64 && t.high % 2 == 0
  {
    hide Pow, Num, Den;
    PositiveScale(q);
    TwoTo64();
    PowAdd(2, Scale(q) - 64, 64);
    PowStep(2, Scale(q) - 65);
    var x := Pow(5, q) * Pow(2, Scale(q) - 65);
    MulSwap(Pow(5, q), 2, Pow(2, Scale(q) - 65));
    MulSwap(2, Pow(5, q), Pow(2, Scale(q) - 65));
    assert Pow(5, q) * Pow(2, Scale(q) - 64) == 2 * x;
    MulSwap(Pow(5, q), Pow(2, Scale(q) - 64), TWO_TO_64);
    assert Wide(t) == (2 * x) * TWO_TO_64;
    SplitWords(t, 2 * x);
  }

  lemma SplitWords(t: Value128, x: int)
    requires Wide(t) == x * TWO_TO_64
    ensures t.low == 0 && t.high == x
  {
  }

  lemma EvenProduct(w: int, h: int)
    requires h % 2 == 0
    ensures (w * h) % 2 == 0
  {
    Doubled(h / 2, w);
    assert w * h == 2 * ((h / 2) * w);
  }

  lemma UnitSplits(m: int, d: nat)
    ensures m * Pow(2, 128 + d) == ((m * Pow(2, d)) * TWO_TO_64) * TWO_TO_64
  {
    hide Pow;
    TwoTo64();
    PowAdd(2, d, 64);
    PowAdd(2, d + 64, 64);
    MulSwap(m, Pow(2, d), TWO_TO_64);
    MulSwap(m, Pow(2, d + 64), TWO_TO_64);
  }

  /** With an exact entry the product tells a tie. */
  lemma TiesExact(q: int, w: U64, t: Value128, product: Value128, corrected: bool, precision: nat, m: int, d: nat)
    requires 0 <= q <= 23 && IsEntry(q, t) && Approximates(precision, t, w, product, corrected)
    ensures w * Num(q) == m * (Den(q) * Pow(2, 128 + d)) <==> product.low <= 1 && m * Pow(2, d) == product.high
  {
    hide Pow, Num, Den, TopBits, Exact, IsEntry;
    ExactEntry(q, t);
    UnitSplits(m, d);
    MulSwap(w, t.high, TWO_TO_64);
    EvenProduct(w, t.high);
    SameWords(product, m * Pow(2, d), w * t.high);
  }

  lemma SameWords(v: Value128, x: int, y: int)
    requires Wide(v) == y && y % 2 == 0
    ensures y * TWO_TO_64 == (x * TWO_TO_64) * TWO_TO_64 <==> v.low <= 1 && x == v.high
  {
  }

  /** A tie with a reciprocal: the exact product with the entry is a whole number of the kept units. */
  lemma TieExact(w: U64, t: int, d: int, n: int, k: int)
    requires w > 0 && d > 0 && (t - 1) * d <= n < t * d && w * n == (k * TWO_TO_64) * d
    ensures (w * t) / TWO_TO_64 == k
  {
    MulMono(w, (t - 1) * d, n);
    MulMonoStrict(w, n, t * d);
    MulSwap(w, t - 1, d);
    MulSwap(w, t, d);
    MulCancelLe(d, w * (t - 1), k * TWO_TO_64);
    MulCancelLt(d, k * TWO_TO_64, w * t);
    assert w * (t - 1) == w * t - w;
    Quotient64(w * t, k, w);
  }

  lemma Quotient64(x: int, k: int, w: U64)
    requires k * TWO_TO_64 < x <= k * TWO_TO_64 + w
    ensures x / TWO_TO_64 == k
  {
  }

  lemma MultipleOf(m: int, d: nat, g: nat)
    requires g <= d
    ensures (m * Pow(2, d)) == (m * Pow(2, d - g)) * Pow(2, g)
  {
    hide Pow;
    PowAdd(2, d - g, g);
    MulSwap(m, Pow(2, d - g), Pow(2, g));
  }

  lemma TopOfWide(v: Value128, precision: nat)
    requires precision < 64
    ensures Pow(2, 64 - precision) > 0 && TopBits(Wide(v), precision) == v.high / Pow(2, 64 - precision)
  {
    PowPos(2, 64 - precision);
    hide Pow;
    WideParts(v);
  }

  /** If the exact product is a multiple of the kept unit, the approximation is exact. */
  lemma SameAsExact(v: Value128, e: int, x: int, y: int, g: int)
    requires g > 0 && e == x * TWO_TO_64 && x == y * g && Wide(v) <= e < Wide(v) + TWO_TO_64
    requires v.high / g == x / g
    ensures v.high == x && v.low == 0
  {
    assert x - 1 <= v.high <= x;
    if v.high == x - 1 {
      DivBetween(x - 1, g, y - 1, y) by { assert (y - 1) * g == x - g; }
      DivBetween(x, g, y, y + 1) by { assert (y + 1) * g == x + g; }
      assert false;
    }
  }

  lemma TieIsSeen(q: int, w: U64, t: Value128, product: Value128, corrected: bool, precision: nat, m: int, d: nat)
    requires RoundedUp(q) && w > 0 && IsEntry(q, t) && Approximates(precision, t, w, product, corrected)
    requires m >= 0 && d >= 64 - precision && w * Num(q) == m * (Den(q) * Pow(2, 128 + d))
    ensures product.low == 0 && product.high == m * Pow(2, d)
  {
    hide Pow, Num, Den, TopBits, IsEntry, Wide;
    EntryBracket(q, t);
    UnitSplits(m, d);
    var x, g := m * Pow(2, d), Pow(2, 64 - precision);
    MulSwap(m, Den(q), Pow(2, 128 + d));
    MulSwap(Den(q), m, Pow(2, 128 + d));
    assert w * Num(q) == ((x * TWO_TO_64) * TWO_TO_64) * Den(q);
    TieExact(w, Wide(t), Den(q), Num(q), x * TWO_TO_64);
    assert Exact(w, t) == x * TWO_TO_64;
    MultipleOf(m, d, 64 - precision);
    TopOfWide(product, precision);
    PowPos(2, d);
    MulMono(Pow(2, d), 0, m);
    TopOfProduct(x, precision);
    SameAsExact(product, Exact(w, t), x, m * Pow(2, d - (64 - precision)), g);
  }

  lemma TopOfProduct(x: nat, precision: nat)
    requires precision < 64
    ensures Pow(2, 64 - precision) > 0 && TopBits(x * TWO_TO_64, precision) == x / Pow(2, 64 - precision)
  {
    PowPos(2, 64 - precision);
    hide Pow;
    assert (x * TWO_TO_64) / TWO_TO_64 == x;
  }

  lemma SmallPower(p: nat)
    requires p <= 17
    ensures Pow(5, p) <= 762939453125
  {
    assert Pow(5, 9) == 1953125 && Pow(5, 8) == 390625;
    hide Pow;
    PowAdd(5, 9, 8);
    PowMono(5, p, 17);
  }

  /** With the second word added, the product tells a tie. */
  lemma CorrectedTie(q: int, w: U64, t: Value128, product: Value128, m: int, d: nat)
    requires -17 <= q < 0 && IsEntry(q, t) && Wide(product) == Exact(w, t)
    requires product.low <= 1 && m * Pow(2, d) == product.high
    ensures w * Num(q) == m * (Den(q) * Pow(2, 128 + d))
  {
    hide Pow, Num, Den, IsEntry;
    EntryBracket(q, t);
    NegativeScale(q);
    SmallPower(-q);
    UnitSplits(m, d);
    TwoTo127();
    PowPos(2, 127);
    PowAdd(2, 127, Scale(q) - 127);
    PowAdd(2, 127, d + 1);
    var p := Pow(2, 127);
    MulSwap(m, Den(q), Pow(2, 128 + d));
    MulSwap(Den(q), m, Pow(2, 128 + d));
    NearMultiple(w, Wide(t), Den(q), Num(q), product.high, product.low);
    Regrouped(w, p, Pow(2, Scale(q) - 127));
    Regrouped(m * Den(q), p, Pow(2, d + 1));
    Gap(w * Pow(2, Scale(q) - 127), (m * Den(q)) * Pow(2, d + 1), p, p);
    Gap((m * Den(q)) * Pow(2, d + 1), w * Pow(2, Scale(q) - 127), p, p);
  }

  lemma TwoTo127()
    ensures Pow(2, 127) == 0x8000_0000_0000_0000_0000_0000_0000_0000
  {
    TwoTo64();
    assert Pow(2, 9) == 512;
    hide Pow;
    PowAdd(2, 9, 9);
    PowAdd(2, 18, 18);
    PowAdd(2, 36, 18);
    PowAdd(2, 54, 9);
    PowAdd(2, 63, 64);
  }

  lemma NearMultiple(w: U64, t: int, d: int, n: int, x: int, low: int)
    requires 0 < d <= 762939453125 && (t - 1) * d <= n < t * d && 0 <= low <= 1
    requires (w * t) / TWO_TO_64 == x * TWO_TO_64 + low
    ensures -0x8000_0000_0000_0000_0000_0000_0000_0000 <
      w * n - ((x * TWO_TO_64) * TWO_TO_64) * d < 0x8000_0000_0000_0000_0000_0000_0000_0000
  {
    MulMono(w, (t - 1) * d, n);
    MulMono(w, n, t * d);
    MulSwap(w, t - 1, d);
    MulSwap(w, t, d);
    assert w * (t - 1) == w * t - w;
    var y := w * t - (x * TWO_TO_64) * TWO_TO_64;
    assert 0 <= y < 2 * TWO_TO_64;
    MulMono(d, y, 2 * TWO_TO_64);
    MulMono(d, w, TWO_TO_64);
    assert (w * t) * d == ((x * TWO_TO_64) * TWO_TO_64) * d + y * d;
    assert (w * t - w) * d == (w * t) * d - w * d;
    MulMono(d, 0, y);
  }

  // The first word alone -----------------------------------------------------------------------------------

  /** Neither of these two numbers is a multiple of the residue by a word. */
  ghost predicate NoMultiple(five: int, p: int, r: int) {
    && five > 0 && r > 0 && U64_MAX * r + five < 2 * p
    && (p >= TWO_TO_64 * r || p % r != 0)
    && (p - five >= TWO_TO_64 * r || (p - five) % r != 0)
  }

  /** A word times the first word of an entry is neither a multiple of the unit nor one above it. */
  lemma NoHalf(five: int, p: int, c: int, th: int, r: int, w: U64, j: int, low: int)
    requires five * th + r == p * c && NoMultiple(five, p, r) && w > 0 && 0 <= low <= 1
    ensures w * th != j * p + low
  {
    if w * th == j * p + low {
      HalfSum(five, p, c, th, r, w, j, low);
      MulMono(r, 1, w);
      MulMono(r, w, U64_MAX);
      OneTime(w * c - five * j, p);
      ExactQuotient(w, r, p - five * low);
    }
  }

  lemma HalfSum(five: int, p: int, c: int, th: int, r: int, w: int, j: int, low: int)
    requires five * th + r == p * c && w * th == j * p + low
    ensures w * r + five * low == (w * c - five * j) * p
  {
    TimesSum(w, five * th, r);
    MulSwap(w, five, th);
    MulSwap(five, w, th);
    TimesSum(five, j * p, low);
    MulSwap(five, j, p);
    Regrouped(w, p, c);
    TimesDifference(w * c, five * j, p);
  }

  lemma TimesSum(x: int, a: int, b: int)
    ensures x * (a + b) == x * a + x * b
  {
  }

  lemma TimesDifference(a: int, b: int, p: int)
    ensures (a - b) * p == a * p - b * p
  {
  }

  lemma OneTime(k: int, p: int)
    requires 0 < k * p < 2 * p
    ensures k * p == p
  {
    if k >= 2 {
      MulMono(p, 2, k);
    } else if k <= 0 {
      MulMono(p, k, 0);
    }
  }

  lemma ExactQuotient(w: U64, r: int, x: int)
    requires r > 0 && w * r == x
    ensures x % r == 0 && x < TWO_TO_64 * r
  {
    RemainderOf(x, r, w, 0);
    MulMonoStrict(r, w, TWO_TO_64);
  }

  /** The first word of a reciprocal is the quotient of a power of two by the power of five. */
  lemma FirstWord(q: int, t: Value128)
    requires RoundedUp(q) && IsEntry(q, t)
    ensures Scale(q) >= 127
    ensures Pow(5, -q) * t.high + Pow(2, Scale(q) - 64) % Pow(5, -q) == Pow(2, Scale(q) - 64)
    ensures Pow(5, -q) > 0
  {
    hide Pow, Num, Den, IsEntry;
    EntryBracket(q, t);
    NegativeScale(q);
    FivePower27();
    TwoTo64();
    PowAdd(2, Scale(q) - 64, 64);
    PowStep(2, 63);
    PowPos(5, -q);
    FirstQuotient(t, Pow(5, -q), Pow(2, Scale(q) - 64));
  }

  lemma FirstQuotient(t: Value128, d: int, n: int)
    requires 0 < d < TWO_TO_64 && (Wide(t) - 1) * d <= n * TWO_TO_64 < Wide(t) * d
    ensures d * t.high + n % d == n
  {
    var h := t.high;
    assert (Wide(t) - 1) * d == (h * d) * TWO_TO_64 + (t.low - 1) * d;
    assert Wide(t) * d == (h * d) * TWO_TO_64 + t.low * d;
    MulMono(d, -1, t.low - 1);
    MulMono(d, t.low, TWO_TO_64 - 1);
    assert h * d <= n;
    assert n < h * d + d;
    RemainderOf(n, d, h, n - h * d);
  }

  lemma Fives()
    ensures Pow(5, 1) == 5 && Pow(5, 2) == 25 && Pow(5, 3) == 125 && Pow(5, 4) == 625
    ensures Pow(5, 5) == 3125 && Pow(5, 6) == 15625 && Pow(5, 7) == 78125 && Pow(5, 8) == 390625
    ensures Pow(5, 9) == 1953125 && Pow(5, 10) == 9765625 && Pow(5, 11) == 48828125 && Pow(5, 12) == 244140625
    ensures Pow(5, 13) == 1220703125 && Pow(5, 14) == 6103515625 && Pow(5, 15) == 30517578125
    ensures Pow(5, 16) == 152587890625
    ensures Pow(5, 17) == 762939453125
  {
    assert Pow(5, 0) == 1;
    hide Pow;
    PowStep(5, 0);
    PowStep(5, 1);
    PowStep(5, 2);
    PowStep(5, 3);
    PowStep(5, 4);
    PowStep(5, 5);
    PowStep(5, 6);
    PowStep(5, 7);
    PowStep(5, 8);
    PowStep(5, 9);
    PowStep(5, 10);
    PowStep(5, 11);
    PowStep(5, 12);
    PowStep(5, 13);
    PowStep(5, 14);
    PowStep(5, 15);
    PowStep(5, 16);
  }

  lemma Twos()
    ensures Pow(2, 2) == 4 && Pow(2, 4) == 16 && Pow(2, 6) == 64 && Pow(2, 9) == 512
    ensures Pow(2, 11) == 2048 && Pow(2, 13) == 8192 && Pow(2, 16) == 65536 && Pow(2, 18) == 262144
    ensures Pow(2, 20) == 1048576 && Pow(2, 23) == 8388608 && Pow(2, 25) == 33554432 && Pow(2, 27) == 134217728
    ensures Pow(2, 30) == 1073741824 && Pow(2, 32) == 4294967296 && Pow(2, 34) == 17179869184
    ensures Pow(2, 37) == 137438953472
    ensures Pow(2, 39) == 549755813888
  {
    assert Pow(2, 0) == 1;
    hide Pow;
    PowStep(2, 0);
    PowStep(2, 1);
    PowStep(2, 2);
    PowStep(2, 3);
    PowStep(2, 4);
    PowStep(2, 5);
    PowStep(2, 6);
    PowStep(2, 7);
    PowStep(2, 8);
    PowStep(2, 9);
    PowStep(2, 10);
    PowStep(2, 11);
    PowStep(2, 12);
    PowStep(2, 13);
    PowStep(2, 14);
    PowStep(2, 15);
    PowStep(2, 16);
    PowStep(2, 17);
    PowStep(2, 18);
    PowStep(2, 19);
    PowStep(2, 20);
    PowStep(2, 21);
    PowStep(2, 22);
    PowStep(2, 23);
    PowStep(2, 24);
    PowStep(2, 25);
    PowStep(2, 26);
    PowStep(2, 27);
    PowStep(2, 28);
    PowStep(2, 29);
    PowStep(2, 30);
    PowStep(2, 31);
    PowStep(2, 32);
    PowStep(2, 33);
    PowStep(2, 34);
    PowStep(2, 35);
    PowStep(2, 36);
    PowStep(2, 37);
  }

  /** As much of the power of two as divides every unit that is kept. */
  function Kept(p: int): nat {
    if Scale(-p) - 64 > 102 then 102 else if Scale(-p) >= 64 then Scale(-p) - 64 else 0
  }

  ghost predicate GoodResidue(p: int) {
    p >= 0 && Scale(-p) >= 128 && Kept(p) <= Scale(-p) - 64 && Pow(5, p) > 0 &&
    NoMultiple(Pow(5, p), Pow(2, Kept(p)), Pow(2, Scale(-p) - 64) % Pow(5, p))
  }

  lemma ResidueAt(p: int, a: int, five: int, high: int, r: int)
    requires 1 <= p && 64 <= a <= 102 && a == Scale(-p) - 64 && Pow(5, p) == five && Pow(2, a - 64) == high
    requires five > 0 && (high * TWO_TO_64) % five == r && NoMultiple(five, high * TWO_TO_64, r)
    ensures GoodResidue(p)
  {
    hide Pow, NoMultiple;
    TwoTo64();
    PowAdd(2, a - 64, 64);
  }

  lemma Residues1(p: int)
    requires 1 <= p <= 2
    ensures GoodResidue(p)
  {
    Fives();
    Twos();
    hide Pow, GoodResidue;
    if p == 1 {
      ResidueAt(1, 66, 5, 4, 4);
    } else {
      ResidueAt(2, 68, 25, 16, 6);
    }
  }

  lemma Residues3(p: int)
    requires 3 <= p <= 4
    ensures GoodResidue(p)
  {
    Fives();
    Twos();
    hide Pow, GoodResidue;
    if p == 3 {
      ResidueAt(3, 70, 125, 64, 49);
    } else {
      ResidueAt(4, 73, 625, 512, 517);
    }
  }

  lemma Residues5(p: int)
    requires 5 <= p <= 6
    ensures GoodResidue(p)
  {
    Fives();
    Twos();
    hide Pow, GoodResidue;
    if p == 5 {
      ResidueAt(5, 75, 3125, 2048, 193);
    } else {
      ResidueAt(6, 77, 15625, 8192, 10147);
    }
  }

  lemma Residues7(p: int)
    requires 7 <= p <= 8
    ensures GoodResidue(p)
  {
    Fives();
    Twos();
    hide Pow, GoodResidue;
    if p == 7 {
      ResidueAt(7, 80, 78125, 65536, 18676);
    } else {
      ResidueAt(8, 82, 390625, 262144, 387204);
    }
  }

  lemma Residues9(p: int)
    requires 9 <= p <= 10
    ensures GoodResidue(p)
  {
    Fives();
    Twos();
    hide Pow, GoodResidue;
    if p == 9 {
      ResidueAt(9, 84, 1953125, 1048576, 376941);
    } else {
      ResidueAt(10, 87, 9765625, 8388608, 6921778);
    }
  }

  lemma Residues11(p: int)
    requires 11 <= p <= 12
    ensures GoodResidue(p)
  {
    Fives();
    Twos();
    hide Pow, GoodResidue;
    if p == 11 {
      ResidueAt(11, 89, 48828125, 33554432, 47218362);
    } else {
      ResidueAt(12, 91, 244140625, 134217728, 237701573);
    }
  }

  lemma Residues13(p: int)
    requires 13 <= p <= 14
    ensures GoodResidue(p)
  {
    Fives();
    Twos();
    hide Pow, GoodResidue;
    if p == 13 {
      ResidueAt(13, 94, 1220703125, 1073741824, 192628209);
    } else {
      ResidueAt(14, 96, 6103515625, 4294967296, 1991215961);
    }
  }

  lemma Residues15(p: int)
    requires 15 <= p <= 16
    ensures GoodResidue(p)
  {
    Fives();
    Twos();
    hide Pow, GoodResidue;
    if p == 15 {
      ResidueAt(15, 98, 30517578125, 17179869184, 1861348219);
    } else {
      ResidueAt(16, 101, 152587890625, 137438953472, 45408363877);
    }
  }

  lemma Residue17()
    ensures GoodResidue(17)
  {
    Fives();
    Twos();
    hide Pow;
    TwoTo64();
    PowAdd(2, 39, 64);
    PowStep(2, 102);
    assert Scale(-17) - 64 == 103 && Kept(17) == 102;
    assert Pow(2, 103) == 549755813888 * TWO_TO_64;
    assert (549755813888 * TWO_TO_64) % 762939453125 == 29045564883;
  }

  lemma Residues(p: int)
    requires 1 <= p <= 17
    ensures GoodResidue(p)
  {
    hide *;
    if p <= 2 {
      Residues1(p);
    } else if p <= 4 {
      Residues3(p);
    } else if p <= 6 {
      Residues5(p);
    } else if p <= 8 {
      Residues7(p);
    } else if p <= 10 {
      Residues9(p);
    } else if p <= 12 {
      Residues11(p);
    } else if p <= 14 {
      Residues13(p);
    } else if p <= 16 {
      Residues15(p);
    } else {
      Residue17();
    }
  }

  /** Without the second word the product with a reciprocal never looks like a tie. */
  lemma NoHalfProduct(q: int, w: U64, t: Value128, m: int, d: nat, low: int)
    requires -17 <= q < 0 && IsEntry(q, t) && w > 0 && 0 <= low <= 1 && 64 + d >= Kept(-q)
    ensures w * t.high != (m * Pow(2, d)) * TWO_TO_64 + low
  {
    hide Pow, NoMultiple, IsEntry, Kept, Scale;
    FirstWord(q, t);
    Residues(-q);
    TwoTo64();
    var k := Kept(-q);
    PowAdd(2, k, Scale(q) - 64 - k);
    PowAdd(2, 64 + d - k, k);
    PowAdd(2, d, 64);
    MulSwap(m, Pow(2, d), TWO_TO_64);
    MulSwap(m, Pow(2, 64 + d - k), Pow(2, k));
    NoHalf(Pow(5, -q), Pow(2, k), Pow(2, Scale(q) - 64 - k), t.high, Pow(2, Scale(q) - 64) % Pow(5, -q), w,
      m * Pow(2, 64 + d - k), low);
  }
}
