/** Decimal digit strings, most significant digit first, and the numbers they denote. */
module Digits {
  import opened Powers

  ghost predicate IsDigits(s: seq<int>) {
    forall i :: 0 <= i < |s| ==> 0 <= s[i] <= 9
  }

  /** The natural number written by the digits of s. */
  function Numeral(s: seq<int>): int {
    if s == [] then 0 else 10 * Numeral(s[..|s| - 1]) + s[|s| - 1]
  }

  /** k * 10^e */
  function Units(k: int, e: int): real {
    k as real * Ten(e)
  }

  /** The number 0.s[0]s[1]... * 10^point. */
  function Val(s: seq<int>, point: int): real {
    Units(Numeral(s), point - |s|)
  }

  lemma {:induction false} NumeralAppend(a: seq<int>, b: seq<int>)
    ensures Numeral(a + b) == Numeral(a) * Pow(10, |b|) + Numeral(b)
  {
    if b == [] {
      assert a + b == a;
    } else {
      var b' := b[..|b| - 1];
      assert (a + b)[..|a + b| - 1] == a + b';
      NumeralAppend(a, b');
      assert Pow(10, |b|) == 10 * Pow(10, |b'|);
      assert Numeral(a) * Pow(10, |b|) == 10 * (Numeral(a) * Pow(10, |b'|));
    }
  }

  lemma NumeralSnoc(a: seq<int>, d: int)
    ensures Numeral(a + [d]) == 10 * Numeral(a) + d
  {
    assert (a + [d])[..|a + [d]| - 1] == a;
  }

  lemma NumeralCons(d: int, b: seq<int>)
    ensures Numeral([d] + b) == d * Pow(10, |b|) + Numeral(b)
  {
    NumeralAppend([d], b);
    NumeralOne(d);
  }

  lemma NumeralOne(d: int)
    ensures Numeral([d]) == d
  {
    assert [d] == [] + [d];
    NumeralSnoc([], d);
  }

  lemma {:induction false} NumeralBound(s: seq<int>)
    requires IsDigits(s)
    ensures 0 <= Numeral(s) < Pow(10, |s|)
  {
    if s != [] {
      NumeralBound(s[..|s| - 1]);
    }
  }

  lemma {:induction false} NumeralZeros(s: seq<int>)
    requires IsDigits(s)
    ensures Numeral(s) == 0 <==> forall i :: 0 <= i < |s| ==> s[i] == 0
  {
    if s != [] {
      NumeralZeros(s[..|s| - 1]);
      NumeralBound(s[..|s| - 1]);
    }
  }

  /** The leading digit brackets the number. */
  lemma NumeralLead(s: seq<int>)
    requires IsDigits(s) && s != []
    ensures s[0] * Pow(10, |s| - 1) <= Numeral(s) <= (s[0] + 1) * Pow(10, |s| - 1) - 1
  {
    assert s == [s[0]] + s[1..];
    NumeralCons(s[0], s[1..]);
    NumeralBound(s[1..]);
    assert (s[0] + 1) * Pow(10, |s| - 1) == s[0] * Pow(10, |s| - 1) + Pow(10, |s| - 1);
  }

  lemma TenSplit(k: nat, e: int)
    ensures Pow(10, k) as real * Ten(e) == Ten(k + e)
  {
    TenIsPow(k);
    TenAdd(k, e);
  }

  /** Bracket of a value by its leading digit, with the last place left over above. */
  lemma ValLead(s: seq<int>, point: int)
    requires IsDigits(s) && s != []
    ensures s[0] as real * Ten(point - 1) <= Val(s, point)
    ensures Val(s, point) + Ten(point - |s|) <= (s[0] + 1) as real * Ten(point - 1)
  {
    hide Ten, Numeral, Pow;
    NumeralLead(s);
    TenPos(point - |s|);
    TenSplit(|s| - 1, point - |s|);
    LeadArith(s[0], Pow(10, |s| - 1), Numeral(s), Ten(point - |s|), Ten(point - 1));
  }

  lemma LeadArith(d: int, p: int, n: int, t: real, u: real)
    requires d * p <= n <= (d + 1) * p - 1 && t > 0.0 && p as real * t == u
    ensures d as real * u <= n as real * t
    ensures n as real * t + t <= (d + 1) as real * u
  {
    LeadTerm(d, p, t, u);
    LeadTerm(d + 1, p, t, u);
    RMulMono(t, (d * p) as real, n as real);
    RMulMono(t, (n + 1) as real, ((d + 1) * p) as real);
  }

  lemma LeadTerm(d: int, p: int, t: real, u: real)
    requires p as real * t == u
    ensures (d * p) as real * t == d as real * u
  {
    RealMul(d, p);
    RMulAssoc(d as real, p as real, t);
  }

  /** A value with a non-zero leading digit lies in [10^(point-1), 10^point). */
  lemma ValRange(s: seq<int>, point: int)
    requires IsDigits(s) && s != [] && s[0] > 0
    ensures Ten(point - 1) <= Val(s, point) < Ten(point)
  {
    ValLead(s, point);
    TenPos(point - 1);
    TenPos(point - |s|);
    TenStep(point - 1);
    hide Ten, Numeral;
    LeadRange(s[0] as real, (s[0] + 1) as real, Val(s, point), Ten(point - 1), Ten(point - |s|));
  }

  lemma LeadRange(l: real, l': real, v: real, u: real, e: real)
    requires 1.0 <= l && l' <= 10.0 && u > 0.0 && e > 0.0
    requires l * u <= v && v + e <= l' * u
    ensures u <= v < 10.0 * u
  {
    RMulMono(u, 1.0, l);
    RMulMono(u, l', 10.0);
  }

  /** Cutting a digit string after c digits loses less than one unit of place c,
      and loses nothing exactly when only zeros are cut. */
  lemma ValPrefix(s: seq<int>, c: nat, point: int)
    requires IsDigits(s) && c <= |s|
    ensures Val(s[..c], point) <= Val(s, point) < Val(s[..c], point) + Ten(point - c)
    ensures Val(s[..c], point) == Val(s, point) <==> forall i :: c <= i < |s| ==> s[i] == 0
  {
    hide Ten, Numeral, Pow;
    var a, b := s[..c], s[c..];
    assert s == a + b;
    NumeralAppend(a, b);
    NumeralBound(b);
    NumeralZeros(b);
    assert (forall i :: 0 <= i < |b| ==> b[i] == 0) <==> (forall i :: c <= i < |s| ==> s[i] == 0) by {
      assert forall i :: 0 <= i < |b| ==> b[i] == s[c + i];
      assert forall i :: c <= i < |s| ==> s[i] == b[i - c];
    }
    TenPos(point - |s|);
    TenSplit(|b|, point - |s|);
    PrefixArith(Numeral(a), Numeral(b), Pow(10, |b|), Ten(point - |s|), Ten(point - c));
  }

  lemma PrefixArith(m: int, n: int, p: int, t: real, u: real)
    requires 0 <= n < p && t > 0.0 && p as real * t == u
    ensures m as real * u <= (m * p + n) as real * t < m as real * u + u
    ensures m as real * u == (m * p + n) as real * t <==> n == 0
  {
    RealMul(m, p);
    RMulAssoc(m as real, p as real, t);
    assert (m * p + n) as real * t == m as real * u + n as real * t;
    RMulMono(t, 0.0, n as real);
    RMulMonoStrict(t, n as real, p as real);
    if n > 0 {
      RMulMonoStrict(t, 0.0, n as real);
    }
  }

  /** Lexicographic comparison of two digit strings at their first difference is
      comparison of the fractions they denote. */
  lemma FractionLess(a: seq<int>, b: seq<int>, i: nat)
    requires IsDigits(a) && IsDigits(b)
    requires i < |a| && i < |b| && a[..i] == b[..i] && a[i] < b[i]
    ensures Numeral(a) * Pow(10, |b|) < Numeral(b) * Pow(10, |a|)
  {
    hide Numeral;
    var x, y := a[i..], b[i..];
    assert a == a[..i] + x && b == b[..i] + y;
    NumeralAppend(a[..i], x);
    NumeralAppend(b[..i], y);
    NumeralLead(x);
    NumeralLead(y);
    NumeralBound(y);
    var p, q := Pow(10, |x| - 1), Pow(10, |y| - 1);
    PowPos(10, |x| - 1);
    PowPos(10, |y| - 1);
    PowPos(10, i);
    PowAdd(10, i, |x|);
    PowAdd(10, i, |y|);
    LeadLess(x[0], y[0], Numeral(x), Numeral(y), p, q);
    hide Pow;
    FractionArith(Numeral(a[..i]), Numeral(x), Numeral(y), Pow(10, i), 10 * p, 10 * q);
  }

  lemma LeadLess(d: int, e: int, m: int, n: int, p: int, q: int)
    requires 0 < p && 0 < q && d < e
    requires m <= (d + 1) * p - 1 && e * q <= n
    ensures m * (10 * q) < n * (10 * p)
  {
    MulMono(p, d + 1, e);
    assert m < e * p;
    MulMonoStrict(q, m, e * p);
    MulMono(p, e * q, n);
    assert q * (e * p) == p * (e * q);
  }

  lemma FractionArith(c: int, m: int, n: int, w: int, p: int, q: int)
    requires 0 < w && m * q < n * p
    ensures (c * p + m) * (w * q) < (c * q + n) * (w * p)
  {
    var left, right := (c * p + m) * q, (c * q + n) * p;
    assert left == c * (p * q) + m * q;
    assert right == c * (p * q) + n * p;
    MulMonoStrict(w, left, right);
    assert (c * p + m) * (w * q) == w * left;
    assert (c * q + n) * (w * p) == w * right;
  }

  /** A proper prefix denotes no more than the whole string, and strictly less
      when the string does not end in zero. */
  lemma FractionPrefix(a: seq<int>, b: seq<int>)
    requires IsDigits(a) && IsDigits(b) && a <= b
    ensures Numeral(a) * Pow(10, |b|) <= Numeral(b) * Pow(10, |a|)
    ensures |a| < |b| && b[|b| - 1] > 0 ==> Numeral(a) * Pow(10, |b|) < Numeral(b) * Pow(10, |a|)
  {
    var y := b[|a|..];
    assert b == a + y;
    NumeralAppend(a, y);
    NumeralBound(y);
    PowAdd(10, |a|, |y|);
    PowPos(10, |a|);
    PrefixLess(Numeral(a), Numeral(y), Pow(10, |a|), Pow(10, |y|));
    if |a| < |b| && b[|b| - 1] > 0 {
      NumeralZeros(y);
      assert y[|y| - 1] > 0;
    }
  }

  lemma PrefixLess(n: int, m: int, p: int, r: int)
    requires 0 <= m && 0 < p
    ensures n * (p * r) <= (n * r + m) * p
    ensures 0 < m ==> n * (p * r) < (n * r + m) * p
  {
    assert (n * r + m) * p == n * (p * r) + m * p;
    MulMono(p, 0, m);
    if 0 < m {
      MulMonoStrict(p, 0, m);
    }
  }
}
