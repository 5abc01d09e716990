/** Integer powers, and powers of ten and two over the reals with any integer exponent. */
module Powers {

  function Pow(b: nat, e: nat): nat {
    if e == 0 then 1 else b * Pow(b, e - 1)
  }

  lemma {:induction false} PowAdd(b: nat, d: nat, e: nat)
    ensures Pow(b, d + e) == Pow(b, d) * Pow(b, e)
  {
    if d == 0 {
    } else {
      PowAdd(b, d - 1, e);
      assert Pow(b, d + e) == b * (Pow(b, d - 1) * Pow(b, e));
    }
  }

  lemma PowZero(b: nat)
    ensures Pow(b, 0) == 1
  {
  }

  lemma PowStep(b: nat, e: nat)
    ensures Pow(b, e + 1) == b * Pow(b, e)
  {
  }

  lemma {:induction false} PowPos(b: nat, e: nat)
    requires b > 0
    ensures Pow(b, e) > 0
  {
    if e > 0 {
      PowPos(b, e - 1);
    }
  }

  lemma {:induction false} PowMono(b: nat, d: nat, e: nat)
    requires b > 0 && d <= e
    ensures Pow(b, d) <= Pow(b, e)
  {
    PowAdd(b, d, e - d);
    PowPos(b, d);
    PowPos(b, e - d);
    MulMono(Pow(b, d), 1, Pow(b, e - d));
  }

  /** 10^n == 2^n * 5^n */
  lemma {:induction false} TenIsTwoFive(n: nat)
    ensures Pow(10, n) == Pow(2, n) * Pow(5, n)
  {
    if n > 0 {
      TenIsTwoFive(n - 1);
      var a, b := Pow(2, n - 1), Pow(5, n - 1);
      assert 10 * (a * b) == (2 * a) * (5 * b);
    }
  }

  lemma MulMono(a: int, x: int, y: int)
    requires 0 <= a && x <= y
    ensures a * x <= a * y
  {
  }

  lemma MulMonoStrict(a: int, x: int, y: int)
    requires 0 < a && x < y
    ensures a * x < a * y
  {
  }

  lemma MulSwap(a: int, x: int, y: int)
    ensures a * (x * y) == (a * x) * y == (x * a) * y
  {
  }

  lemma MulCancelLe(a: int, x: int, y: int)
    requires 0 < a && x * a <= y * a
    ensures x <= y
  {
    if x > y {
      MulMonoStrict(a, y, x);
    }
  }

  /** A product that stays below a multiple is below in the other factor. */
  lemma MulCancelLt(a: int, x: int, y: int)
    requires 0 < a && x * a < y * a
    ensures x < y
  {
    if x >= y {
      MulMono(a, y, x);
    }
  }

  // Real powers ----------------------------------------------------------------

  /** 10^e for any integer e. */
  function Ten(e: int): real
    decreases if e < 0 then -e else e
  {
    if e == 0 then 1.0
    else if e > 0 then 10.0 * Ten(e - 1)
    else Ten(e + 1) / 10.0
  }

  lemma {:induction false} TenStep(e: int)
    ensures Ten(e + 1) == 10.0 * Ten(e)
  {
    if e < 0 {
      assert Ten(e) == Ten(e + 1) / 10.0;
    }
  }

  lemma TenZero()
    ensures Ten(0) == 1.0
  {
  }

  lemma {:induction false} TenPos(e: int)
    ensures Ten(e) > 0.0
    decreases if e < 0 then -e else e
  {
    if e > 0 {
      TenPos(e - 1);
    } else if e < 0 {
      TenPos(e + 1);
    }
  }

  lemma TenfoldEqual(x: real, y: real)
    requires 10.0 * x == 10.0 * y
    ensures x == y
  {
  }

  lemma {:induction false} TenAdd(d: int, e: int)
    ensures Ten(d + e) == Ten(d) * Ten(e)
    decreases if e < 0 then -e else e
  {
    TenZero();
    hide Ten;
    if e > 0 {
      TenAdd(d, e - 1);
      TenStep(d + e - 1);
      TenStep(e - 1);
      RMulPull(Ten(d), 10.0, Ten(e - 1));
    } else if e < 0 {
      TenAdd(d, e + 1);
      TenStep(d + e);
      TenStep(e);
      RMulPull(Ten(d), 10.0, Ten(e));
      TenfoldEqual(Ten(d + e), Ten(d) * Ten(e));
    }
  }

  lemma {:induction false} TenIsPow(e: nat)
    ensures Ten(e) == Pow(10, e) as real
  {
    if e > 0 {
      TenIsPow(e - 1);
    }
  }

  lemma {:induction false} TenMono(d: int, e: int)
    requires d <= e
    ensures Ten(d) <= Ten(e)
    decreases e - d
  {
    if d < e {
      TenMono(d, e - 1);
      TenStep(e - 1);
      TenPos(e - 1);
    }
  }

  lemma {:induction false} TenMonoStrict(d: int, e: int)
    requires d < e
    ensures Ten(d) < Ten(e)
  {
    TenMono(d + 1, e);
    TenStep(d);
    TenPos(d);
  }

  /** The order of powers gives back the order of exponents. */
  lemma TenLtInverse(d: int, e: int)
    requires Ten(d) < Ten(e)
    ensures d < e
  {
    if d >= e {
      TenMono(e, d);
    }
  }

  /** 2^e for any integer e. */
  function Two(e: int): real
    decreases if e < 0 then -e else e
  {
    if e == 0 then 1.0
    else if e > 0 then 2.0 * Two(e - 1)
    else Two(e + 1) / 2.0
  }

  lemma {:induction false} TwoStep(e: int)
    ensures Two(e + 1) == 2.0 * Two(e)
  {
    if e < 0 {
      assert Two(e) == Two(e + 1) / 2.0;
    }
  }

  lemma TwoZero()
    ensures Two(0) == 1.0
  {
  }

  lemma {:induction false} TwoPos(e: int)
    ensures Two(e) > 0.0
    decreases if e < 0 then -e else e
  {
    if e > 0 {
      TwoPos(e - 1);
    } else if e < 0 {
      TwoPos(e + 1);
    }
  }

  lemma {:induction false} TwoAdd(d: int, e: int)
    ensures Two(d + e) == Two(d) * Two(e)
    decreases if e < 0 then -e else e
  {
    if e > 0 {
      TwoAdd(d, e - 1);
      TwoStep(d + e - 1);
      TwoStep(e - 1);
      RMulPull(Two(d), 2.0, Two(e - 1));
    } else if e < 0 {
      TwoAdd(d, e + 1);
      TwoStep(d + e);
      TwoStep(e);
      RMulPull(Two(d), 2.0, Two(e));
    } else {
      assert Two(e) == 1.0;
    }
  }

  lemma {:induction false} TwoIsPow(e: nat)
    ensures Two(e) == Pow(2, e) as real
  {
    if e > 0 {
      TwoIsPow(e - 1);
    }
  }

  lemma {:induction false} TwoMono(d: int, e: int)
    requires d <= e
    ensures Two(d) <= Two(e)
    decreases e - d
  {
    if d < e {
      TwoMono(d, e - 1);
      TwoStep(e - 1);
      TwoPos(e - 1);
    }
  }

  /** x * 2^e */
  function Shifted(x: real, e: int): real {
    x * Two(e)
  }

  lemma ShiftedAdd(x: real, d: int, e: int)
    ensures Shifted(Shifted(x, d), e) == Shifted(x, d + e)
  {
    hide Two;
    TwoAdd(d, e);
    RMulAssoc(x, Two(d), Two(e));
  }

  lemma ShiftedZero(x: real)
    ensures Shifted(x, 0) == x
  {
  }

  lemma ShiftedMono(x: real, y: real, e: int)
    ensures x <= y ==> Shifted(x, e) <= Shifted(y, e)
    ensures x < y ==> Shifted(x, e) < Shifted(y, e)
  {
    hide Two;
    TwoPos(e);
    if x < y {
      RMulMonoStrict(Two(e), x, y);
    }
  }

  // Real multiplication facts the solver is given one at a time -------------

  lemma RMulPull(x: real, c: real, y: real)
    ensures x * (c * y) == c * (x * y) == (c * x) * y
  {
  }

  lemma RMulAssoc(x: real, y: real, z: real)
    ensures (x * y) * z == x * (y * z)
  {
  }

  lemma RMulSwapLast(x: real, y: real, z: real)
    ensures (x * y) * z == (x * z) * y
  {
  }

  lemma RMulMono(a: real, x: real, y: real)
    requires 0.0 <= a && x <= y
    ensures a * x <= a * y && x * a <= y * a
  {
  }

  lemma RMulMonoStrict(a: real, x: real, y: real)
    requires 0.0 < a && x < y
    ensures a * x < a * y && x * a < y * a
  {
  }

  lemma RMulCancel(a: real, x: real, y: real)
    requires a != 0.0 && a * x == a * y
    ensures x == y
  {
    assert a * (x - y) == 0.0;
  }

  lemma RMulCancelLt(a: real, x: real, y: real)
    requires a > 0.0 && a * x < a * y
    ensures x < y
  {
    if x >= y {
      RMulMono(a, y, x);
    }
  }

  lemma RealMul(a: int, b: int)
    ensures (a * b) as real == a as real * b as real
  {
  }
}
