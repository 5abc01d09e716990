/** What the 128-bit words of the table of powers of five are. */
module FastTable {
  import opened Powers
  import opened MachineWords
  import opened ProductApproximation
  import opened PowerRange

  /** The bits by which 5^q is shifted to have 128 bits. */
  function Scale(q: int): int {
    127 + q - Binary(q)
  }

  /** 5^q * 2^Scale(q) as a quotient of two integers. */
  function Num(q: int): nat {
    if q >= 0 then Pow(5, q) * Pow(2, if Scale(q) >= 0 then Scale(q) else 0)
    else Pow(2, if Scale(q) >= 0 then Scale(q) else 0)
  }

  function Den(q: int): (d: nat)
    ensures d > 0
  {
    if q >= 0 then
      var k := if Scale(q) >= 0 then 0 else -Scale(q);
      PowPos(2, k);
      Pow(2, k)
    else
      PowPos(5, -q);
      Pow(5, -q)
  }

  /** The exponents whose entries are rounded up. */
  predicate RoundedUp(q: int) {
    -27 <= q < 0
  }

  /** The two words for q: the power with 128 bits, rounded down, or up where it is a reciprocal below 2^64. */
  ghost predicate IsEntry(q: int, t: Value128) {
    Wide(t) == Num(q) / Den(q) + if RoundedUp(q) then 1 else 0
  }

  /** Reciprocals are powers of two over powers of five. */
  lemma NegativeScale(q: int)
    requires q < 0
    ensures Scale(q) >= 127 && Num(q) == Pow(2, Scale(q)) && Den(q) == Pow(5, -q)
  {
    hide Pow;
  }

  lemma PositiveScale(q: int)
    requires q >= 0
    ensures Scale(q) >= 0 ==> Num(q) == Pow(5, q) * Pow(2, Scale(q)) && Den(q) == 1
    ensures Scale(q) < 0 ==> Num(q) == Pow(5, q) && Den(q) == Pow(2, -Scale(q))
  {
    assert Pow(2, 0) == 1;
    hide Pow;
  }

  /** The quotient is 10^q, scaled. */
  lemma ScaledTen(q: int)
    ensures Num(q) as real == (Ten(q) * Two(127 - Binary(q))) * (Den(q) as real)
  {
    hide Pow, Ten, Two, Num, Den, Binary;
    if q >= 0 {
      PositiveScale(q);
      TenIsPow(q);
      TenIsTwoFive(q);
      TwoIsPow(q);
      RealMul(Pow(2, q), Pow(5, q));
      TwoAdd(q, Scale(q) - q);
      var f := Pow(5, q) as real;
      assert Ten(q) * Two(Scale(q) - q) == f * Two(Scale(q)) by { ThreeFactors(Two(q), f, Two(Scale(q) - q)); }
      if Scale(q) >= 0 {
        TwoIsPow(Scale(q));
        RealMul(Pow(5, q), Pow(2, Scale(q)));
      } else {
        TwoIsPow(-Scale(q));
        TwoAdd(Scale(q), -Scale(q));
        TwoZero();
        RMulAssoc(f, Two(Scale(q)), Two(-Scale(q)));
      }
    } else {
      NegativeScale(q);
      var p := -q;
      TenAdd(q, p);
      TenZero();
      TenIsPow(p);
      TenIsTwoFive(p);
      TwoIsPow(p);
      RealMul(Pow(2, p), Pow(5, p));
      TwoIsPow(Scale(q));
      TwoAdd(Scale(q), p);
      Inverse(Ten(q), Two(p), Pow(5, p) as real, Two(Scale(q)));
    }
  }

  lemma ThreeFactors(a: real, f: real, b: real)
    ensures (a * f) * b == f * (a * b)
  {
    RMulSwapLast(a, f, b);
  }

  lemma Inverse(t: real, a: real, f: real, s: real)
    requires t * (a * f) == 1.0
    ensures (t * (s * a)) * f == s
  {
    assert (t * (s * a)) * f == s * (t * (a * f)) by {
      RMulPull(t, s, a);
      RMulAssoc(s, t * a, f);
      RMulAssoc(t, a, f);
    }
  }

  lemma ScaledRange(q: int)
    requires -643 < q < 643
    ensures Two(127) <= Ten(q) * Two(127 - Binary(q)) < Two(128)
  {
    hide Pow, Ten, Two, Binary;
    var e := Binary(q);
    BinaryMeaning(q);
    TwoAdd(e, 127 - e);
    TwoAdd(e + 1, 127 - e);
    TwoPos(127 - e);
    RMulMono(Two(127 - e), Two(e), Ten(q));
    RMulMonoStrict(Two(127 - e), Ten(q), Two(e + 1));
  }

  lemma BetweenMultiples(a: int, b: int, d: int, n: int, s: real)
    requires d > 0 && a as real <= s < b as real && n as real == s * (d as real)
    ensures a * d <= n < b * d
  {
    RMulMono(d as real, a as real, s);
    RMulMonoStrict(d as real, s, b as real);
    RealMul(a, d);
    RealMul(b, d);
  }

  /** It has 128 bits. */
  lemma Normalised(q: int)
    requires -643 < q < 643
    ensures Pow(2, 127) * Den(q) <= Num(q) < Pow(2, 128) * Den(q)
  {
    hide Pow, Ten, Two, Num, Den, Binary;
    ScaledRange(q);
    ScaledTen(q);
    TwoIsPow(127);
    TwoIsPow(128);
    BetweenMultiples(Pow(2, 127), Pow(2, 128), Den(q), Num(q), Ten(q) * Two(127 - Binary(q)));
  }

  /** The entry, but for its last place. */
  lemma EntryBracket(q: int, t: Value128)
    requires IsEntry(q, t)
    ensures !RoundedUp(q) ==> Wide(t) * Den(q) <= Num(q) < (Wide(t) + 1) * Den(q)
    ensures RoundedUp(q) ==> (Wide(t) - 1) * Den(q) <= Num(q) < Wide(t) * Den(q)
  {
    hide Num, Den, Pow, Wide;
    DivBracket(Num(q), Den(q));
  }

  lemma DivBracket(x: int, d: int)
    requires d > 0
    ensures (x / d) * d <= x < (x / d + 1) * d
  {
  }

  /** The table as a function: the entry for q. */
  function EntryOf(q: int): Value128 {
    var t := Num(q) / Den(q) + if RoundedUp(q) then 1 else 0;
    Value128(t % TWO_TO_64, (t / TWO_TO_64) % TWO_TO_64)
  }

  /** It has 128 bits, also where it is rounded up. */
  lemma EntryFits(q: int)
    requires -643 < q < 643
    ensures IsEntry(q, EntryOf(q))
  {
    hide Pow, Num, Den;
    Normalised(q);
    TwoTo64();
    PowAdd(2, 64, 64);
    if RoundedUp(q) {
      RoomToRoundUp(q);
    }
    FitsWords(Num(q), Den(q), RoundedUp(q));
  }

  lemma FitsWords(n: int, d: int, up: bool)
    requires d > 0 && n >= 0 && (if up then n < (TWO_TO_64 * TWO_TO_64 - 1) * d else n < TWO_TO_64 * TWO_TO_64 * d)
    ensures 0 <= n / d + (if up then 1 else 0) < TWO_TO_64 * TWO_TO_64
  {
    QuotientBelow(n, d, if up then TWO_TO_64 * TWO_TO_64 - 1 else TWO_TO_64 * TWO_TO_64);
  }

  lemma QuotientBelow(n: int, d: int, k: int)
    requires d > 0 && n >= 0 && n < k * d
    ensures 0 <= n / d < k
  {
    if n / d >= k {
      MulMono(d, k, n / d);
    }
  }

  /** A reciprocal is not that near to the next power of two. */
  lemma RoomToRoundUp(q: int)
    requires RoundedUp(q)
    ensures Num(q) < (TWO_TO_64 * TWO_TO_64 - 1) * Den(q)
  {
    hide Pow, Num, Den;
    Normalised(q);
    NegativeScale(q);
    SmallDenominator(-q);
    TwoTo64();
    PowAdd(2, 64, 64);
    PowStep(2, 127);
    PowPos(2, 127);
    PowAdd(2, 127, Scale(q) - 127);
    Room(Pow(2, Scale(q) - 127), Den(q), Pow(2, 127));
  }

  lemma SmallDenominator(p: nat)
    requires p <= 27
    ensures Pow(5, p) < TWO_TO_64
  {
    assert Pow(5, 9) == 1953125;
    hide Pow;
    PowAdd(5, 9, 9);
    PowAdd(5, 18, 9);
    PowMono(5, p, 27);
  }

  lemma Room(s: int, d: int, h: int)
    requires h > d > 0 && h * s < (2 * h) * d
    ensures h * s < (2 * h - 1) * d
  {
    assert s < 2 * d by { MulCancelLt(h, s, 2 * d) by { MulSwap(2, h, d); } }
    MulMono(h, s, 2 * d - 1);
    assert h * (2 * d - 1) == (2 * h) * d - h;
    assert (2 * h - 1) * d == (2 * h) * d - d;
  }
}
