/** The bits of natural numbers. */
module Bits {

  function Pow2(n: nat): (p: nat)
    ensures p > 0
  {
    if n == 0 then 1 else 2 * Pow2(n - 1)
  }

  lemma {:induction false} Pow2Monotone(m: nat, n: nat)
    requires m <= n
    ensures Pow2(m) <= Pow2(n)
  {
    if m < n {
      Pow2Monotone(m, n - 1);
    }
  }

  function Bit(code: nat, i: nat): int {
    (code / Pow2(i)) % 2
  }

  /** Twice a number, and half of it. */
  lemma HalfBit(x: nat, i: nat)
    ensures Bit(x, i + 1) == Bit(x / 2, i) && Bit(x, 0) == x % 2
  {
    assert Pow2(0) == 1 && Pow2(i + 1) == 2 * Pow2(i);
    hide Pow2;
    HalfQuotient(x, Pow2(i));
  }

  lemma HalfQuotient(x: nat, p: nat)
    requires p > 0
    ensures x / (2 * p) == (x / 2) / p
  {
    var q, r := (x / 2) / p, (x / 2) % p;
    assert x == 2 * (p * q + r) + x % 2;
    assert 2 * (p * q) == (2 * p) * q;
    SameQuotient(x, 2 * p, q, 2 * r + x % 2);
  }

  lemma SameQuotient(x: int, d: int, q: int, r: int)
    requires d > 0 && x == d * q + r && 0 <= r < d
    ensures x / d == q
  {
    var e := x / d - q;
    assert d * e == r - x % d by {
      assert d * e == d * (x / d) - d * q;
    }
    assert e >= 1 ==> d * e >= d;
    assert e <= -1 ==> d * e <= -d;
  }

  /** A number of so many bits is determined by them. */
  lemma {:induction false} SameBits(x: nat, y: nat, n: nat)
    requires x < Pow2(n) && y < Pow2(n) && forall i :: 0 <= i < n ==> Bit(x, i) == Bit(y, i)
    ensures x == y
  {
    if n > 0 {
      forall i | 0 <= i < n - 1
        ensures Bit(x / 2, i) == Bit(y / 2, i)
      {
        HalfBit(x, i);
        HalfBit(y, i);
      }
      SameBits(x / 2, y / 2, n - 1);
      HalfBit(x, 0);
      HalfBit(y, 0);
    }
  }

  lemma BitBelow(c: nat, x: int, i: nat, k: nat)
    requires k > 0 && 0 <= x
    ensures 0 <= c + x * Pow2(i + k) && Bit(c + x * Pow2(i + k), i) == Bit(c, i)
  {
    PowerSplits(i, k);
    EvenPower(k);
    hide Pow2;
    LowBit(c, x, Pow2(i), Pow2(k));
    EvenAdded(c / Pow2(i), x, Pow2(k));
  }

  lemma BitAbove(c: nat, x: int, i: nat)
    requires c < Pow2(i) && 0 <= x <= 1
    ensures 0 <= c + x * Pow2(i) && Bit(c + x * Pow2(i), i) == x
  {
    hide Pow2;
    SameQuotient(c + x * Pow2(i), Pow2(i), x, c);
  }

  lemma {:induction false} PowerSplits(i: nat, k: nat)
    ensures Pow2(i + k) == Pow2(i) * Pow2(k)
  {
    if i > 0 {
      PowerSplits(i - 1, k);
      assert Pow2(i) * Pow2(k) == 2 * (Pow2(i - 1) * Pow2(k));
    }
  }

  lemma EvenPower(k: nat)
    requires k > 0
    ensures Pow2(k) == 2 * Pow2(k - 1)
  {
  }

  lemma LowBit(c: nat, x: int, p: nat, q: nat)
    requires p > 0 && 0 <= x
    ensures (c + x * (p * q)) / p == c / p + x * q
  {
    assert x * (p * q) == p * (x * q);
    assert c + x * (p * q) == p * (c / p + x * q) + c % p;
    SameQuotient(c + x * (p * q), p, c / p + x * q, c % p);
  }

  lemma EvenAdded(a: int, x: int, q: int)
    requires q % 2 == 0
    ensures (a + x * q) % 2 == a % 2
  {
    assert x * q == 2 * (x * (q / 2));
  }

  lemma BitRange(code: nat, i: nat)
    ensures Bit(code, i) == 0 || Bit(code, i) == 1
  {
  }

  lemma ZeroBit(k: nat)
    ensures Bit(0, k) == 0
  {
  }

  /** Bit by bit one or the other. */
  function Xor(x: nat, y: nat): nat
    decreases x + y
  {
    if x == 0 && y == 0 then 0 else (x + y) % 2 + 2 * Xor(x / 2, y / 2)
  }

  lemma XorHalf(x: nat, y: nat)
    ensures Xor(x, y) / 2 == Xor(x / 2, y / 2) && Xor(x, y) % 2 == (x + y) % 2
  {
  }

  lemma {:induction false} XorBit(x: nat, y: nat, i: nat)
    ensures Bit(Xor(x, y), i) == (Bit(x, i) + Bit(y, i)) % 2
  {
    hide Xor, Bit;
    XorHalf(x, y);
    if i == 0 {
      HalfBit(x, 0);
      HalfBit(y, 0);
      HalfBit(Xor(x, y), 0);
    } else {
      XorBit(x / 2, y / 2, i - 1);
      HalfBit(x, i - 1);
      HalfBit(y, i - 1);
      HalfBit(Xor(x, y), i - 1);
    }
  }

  /** A number of so many bits, and one with as many. */
  lemma {:induction false} XorFits(x: nat, y: nat, n: nat)
    requires x < Pow2(n) && y < Pow2(n)
    ensures Xor(x, y) < Pow2(n)
  {
    XorHalf(x, y);
    hide Xor;
    if n > 0 {
      XorFits(x / 2, y / 2, n - 1);
    } else {
      XorZero();
    }
  }

  lemma XorZero()
    ensures Xor(0, 0) == 0
  {
  }

  /** Shifting moves the bits up. */
  lemma {:induction false} ShiftBit(x: nat, s: nat, i: nat)
    ensures x * Pow2(s) >= 0 && Bit(x * Pow2(s), i) == if i < s then 0 else Bit(x, i - s)
  {
    hide Bit;
    if s == 0 {
      assert Pow2(0) == 1;
    } else {
      var y := x * Pow2(s - 1);
      ShiftBit(x, s - 1, if i == 0 then 0 else i - 1);
      assert x * Pow2(s) == 2 * y;
      HalfBit(2 * y, if i == 0 then 0 else i - 1);
    }
  }
}
