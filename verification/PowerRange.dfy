/** The binary exponent of a power of ten, as the source approximates it with one multiplication and a shift. */
module PowerRange {
  import opened Powers

  lemma {:induction false} PowOfPow(b: nat, d: nat, e: nat)
    ensures Pow(b, d * e) == Pow(Pow(b, d), e)
  {
    hide Pow;
    if e == 0 {
      PowZero(b);
      PowZero(Pow(b, d));
    } else {
      PowOfPow(b, d, e - 1);
      assert d * e == d + d * (e - 1);
      PowAdd(b, d, d * (e - 1));
      PowStep(Pow(b, d), e - 1);
    }
  }

  lemma {:induction false} PowBaseMono(a: nat, b: nat, e: nat)
    requires a <= b
    ensures Pow(a, e) <= Pow(b, e)
  {
    if e > 0 {
      PowBaseMono(a, b, e - 1);
      ProductMono(a, b, Pow(a, e - 1), Pow(b, e - 1));
    }
  }

  lemma {:induction false} PowBaseStrict(a: nat, b: nat, e: nat)
    requires a < b && e > 0
    ensures Pow(a, e) < Pow(b, e)
  {
    if e == 1 {
      assert Pow(a, 0) == 1 == Pow(b, 0);
    } else {
      PowBaseStrict(a, b, e - 1);
      ProductStrict(a, b, Pow(a, e - 1), Pow(b, e - 1));
    }
  }

  lemma ProductMono(a: int, b: int, c: int, d: int)
    requires 0 <= a <= b && 0 <= c <= d
    ensures a * c <= b * d
  {
    MulMono(a, c, d);
    MulMono(d, a, b);
  }

  lemma ProductStrict(a: int, b: int, c: int, d: int)
    requires 0 <= a < b && 0 <= c < d
    ensures a * c < b * d
  {
    MulMono(a, c, d);
    MulMonoStrict(d, a, b);
  }

  lemma RegroupFour(a: int, b: int, c: int, d: int)
    ensures (a * b) * (c * d) == (a * c) * (b * d)
  {
    MulSwap(a * b, c, d);
    MulSwap(a, b, c);
    MulSwap(a, c, b);
    MulSwap(a * c, b, d);
  }

  /** Two lower bounds give one of the product of the powers, with fewer bits. */
  lemma LowStep(n: nat, c: int, s: nat, n2: nat, c2: int, s2: nat, t: nat, c3: int)
    requires 0 <= c * Pow(2, s) <= Pow(10, n) && 0 <= c2 * Pow(2, s2) <= Pow(10, n2)
    requires 0 <= c3 && c3 * Pow(2, t) <= c * c2
    ensures 0 <= c3 * Pow(2, s + s2 + t) <= Pow(10, n + n2)
  {
    hide Pow;
    PowPos(2, t);
    PowPos(2, s + s2);
    PowAdd(2, s, s2);
    PowAdd(2, s + s2, t);
    PowAdd(10, n, n2);
    ProductMono(c * Pow(2, s), Pow(10, n), c2 * Pow(2, s2), Pow(10, n2));
    RegroupFour(c, Pow(2, s), c2, Pow(2, s2));
    MulSwap(c3, Pow(2, s + s2), Pow(2, t));
    MulMono(Pow(2, s + s2), c3 * Pow(2, t), c * c2);
    ProductMono(0, c3, 0, Pow(2, s + s2 + t)) by { PowPos(2, s + s2 + t); }
  }

  lemma HighStep(n: nat, c: int, s: nat, n2: nat, c2: int, s2: nat, t: nat, c3: int)
    requires Pow(10, n) <= c * Pow(2, s) && Pow(10, n2) <= c2 * Pow(2, s2)
    requires c * c2 <= c3 * Pow(2, t)
    ensures Pow(10, n + n2) <= c3 * Pow(2, s + s2 + t)
  {
    hide Pow;
    PowPos(10, n);
    PowPos(10, n2);
    PowPos(2, s + s2);
    PowAdd(2, s, s2);
    PowAdd(2, s + s2, t);
    PowAdd(10, n, n2);
    ProductMono(Pow(10, n), c * Pow(2, s), Pow(10, n2), c2 * Pow(2, s2));
    RegroupFour(c, Pow(2, s), c2, Pow(2, s2));
    MulSwap(c3, Pow(2, s + s2), Pow(2, t));
    MulMono(Pow(2, s + s2), c * c2, c3 * Pow(2, t));
  }

  lemma SmallPowers()
    ensures Pow(2, 0) == 1 && Pow(2, 3) == 8 && Pow(2, 7) == 128 && Pow(2, 22) == 4194304
    ensures Pow(2, 31) == 2147483648 && Pow(2, 32) == 4294967296
    ensures Pow(10, 1) == 10 && Pow(10, 2) == 100 && Pow(10, 8) == 100000000
  {
    assert Pow(2, 11) == 2048;
    PowAdd(2, 11, 11);
    PowAdd(2, 22, 9);
    PowStep(2, 31);
  }

  /** A lower bound of log 10 to the base 2: 485 / 146. */
  lemma LogLow()
    ensures Pow(2, 485) < Pow(10, 146)
  {
    SmallPowers();
    hide Pow;
    LowStep(8, 100000000, 0, 8, 100000000, 0, 22, 2384185791);
    LowStep(16, 2384185791, 22, 16, 2384185791, 22, 31, 2646977960);
    LowStep(32, 2646977960, 75, 32, 2646977960, 75, 31, 3262652233);
    LowStep(64, 3262652233, 181, 64, 3262652233, 181, 32, 2478458823);
    LowStep(128, 2478458823, 394, 16, 2384185791, 22, 31, 2751642050);
    LowStep(144, 2751642050, 447, 2, 100, 0, 7, 2149720351);
    PowAdd(2, 454, 31);
    PowPos(2, 454);
    MulMonoStrict(Pow(2, 454), 2147483648, 2149720351);
  }

  /** An upper bound: 1651 / 497. */
  lemma LogHigh()
    ensures Pow(10, 497) < Pow(2, 1651)
  {
    SmallPowers();
    hide Pow;
    HighStep(8, 100000000, 0, 8, 100000000, 0, 22, 2384185792);
    HighStep(16, 2384185792, 22, 16, 2384185792, 22, 31, 2646977963);
    HighStep(32, 2646977963, 75, 32, 2646977963, 75, 31, 3262652241);
    HighStep(64, 3262652241, 181, 64, 3262652241, 181, 32, 2478458837);
    HighStep(128, 2478458837, 394, 128, 2478458837, 394, 31, 2860444695);
    HighStep(256, 2860444695, 819, 128, 2478458837, 394, 31, 3301303104);
    HighStep(384, 3301303104, 1244, 64, 3262652241, 181, 32, 2507819788);
    HighStep(448, 2507819788, 1457, 32, 2646977963, 75, 31, 3091126548);
    HighStep(480, 3091126548, 1563, 16, 2384185792, 22, 31, 3431839868);
    HighStep(496, 3431839868, 1616, 1, 10, 0, 3, 4289799835);
    PowAdd(2, 1619, 32);
    PowPos(2, 1619);
    MulMonoStrict(Pow(2, 1619), 4289799835, 4294967296);
  }

  /** No fraction k / n with n below 643 lies between the two bounds, since they are neighbours. */
  lemma Neighbours(n: int, k: int)
    requires 0 < n < 643
    ensures k * 497 < 1651 * n ==> k * 146 <= 485 * n
    ensures k * 146 > 485 * n ==> k * 497 >= 1651 * n
  {
    var u, v := 485 * n - 146 * k, 1651 * n - 497 * k;
    assert n == 146 * v - 497 * u;
  }

  lemma BelowLog(n: nat, k: nat)
    requires 0 < n < 643 && k * 497 < 1651 * n
    ensures Pow(2, k) < Pow(10, n)
  {
    hide Pow;
    Neighbours(n, k);
    LogLow();
    PowMono(2, 146 * k, 485 * n);
    PowOfPow(2, 485, n);
    PowBaseStrict(Pow(2, 485), Pow(10, 146), n);
    PowOfPow(10, 146, n);
    assert 146 * k == k * 146 && 146 * n == n * 146;
    PowOfPow(2, k, 146);
    PowOfPow(10, n, 146);
    if Pow(2, k) >= Pow(10, n) {
      PowBaseMono(Pow(10, n), Pow(2, k), 146);
    }
  }

  lemma AboveLog(n: nat, k: nat)
    requires 0 < n < 643 && k * 146 > 485 * n
    ensures Pow(10, n) < Pow(2, k)
  {
    hide Pow;
    Neighbours(n, k);
    LogHigh();
    PowMono(2, 1651 * n, 497 * k);
    PowOfPow(2, 1651, n);
    PowBaseStrict(Pow(10, 497), Pow(2, 1651), n);
    PowOfPow(10, 497, n);
    assert 497 * k == k * 497 && 497 * n == n * 497;
    PowOfPow(2, k, 497);
    PowOfPow(10, n, 497);
    if Pow(10, n) >= Pow(2, k) {
      PowBaseMono(Pow(2, k), Pow(10, n), 497);
    }
  }

  /** The place of the leading bit of 10^q. */
  function Binary(q: int): int {
    (217706 * q) / 0x10000
  }

  /** 10^q lies between 2 to that power and the next one. */
  lemma BinaryMeaning(q: int)
    requires -643 < q < 643
    ensures Two(Binary(q)) <= Ten(q) < Two(Binary(q) + 1)
  {
    hide Pow, Two, Ten;
    var e := Binary(q);
    TwoZero();
    TenZero();
    TwoStep(0);
    if q > 0 {
      BelowLog(q, e);
      AboveLog(q, e + 1);
      TenIsPow(q);
      TwoIsPow(e);
      TwoIsPow(e + 1);
    } else if q < 0 {
      AboveLog(-q, -e);
      BelowLog(-q, -e - 1);
      TenIsPow(-q);
      TwoIsPow(-e);
      TwoIsPow(-e - 1);
      TenAdd(q, -q);
      TwoAdd(e, -e);
      TwoAdd(e + 1, -e - 1);
      Reciprocals(Ten(q), Ten(-q), Two(e), Two(-e));
      Reciprocals(Two(e + 1), Two(-e - 1), Ten(q), Ten(-q));
    }
  }

  lemma Reciprocals(x: real, x': real, y: real, y': real)
    requires x * x' == 1.0 && y * y' == 1.0 && 0.0 < x' < y'
    ensures x > y
  {
    PositiveFactor(y, y');
    RMulMonoStrict(y, x', y');
    RMulCancelLt(x', y, x);
  }

  lemma PositiveFactor(x: real, y: real)
    requires x * y > 0.0 && y > 0.0
    ensures x > 0.0
  {
  }
}
