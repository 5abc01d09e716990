/** Inversion of a square matrix by row operations, over the reals. */
module GaussJordan {

  type Vector = seq<real>
  type Matrix = seq<Vector>

  predicate IsSquare(m: Matrix, n: nat) {
    |m| == n && forall r :: 0 <= r < n ==> |m[r]| == n
  }

  /** The entries of an array, row by row. */
  function Rows(a: array2<real>): (m: Matrix)
    reads a
    ensures |m| == a.Length0
    ensures forall r :: 0 <= r < a.Length0 ==> |m[r]| == a.Length1 && forall c :: 0 <= c < a.Length1 ==>
      m[r][c] == a[r, c]
  {
    seq(a.Length0, r requires 0 <= r < a.Length0 reads a =>
      seq(a.Length1, c requires 0 <= c < a.Length1 reads a => a[r, c]))
  }

  lemma SameEntries(a: Matrix, b: Matrix)
    requires |a| == |b| && forall r :: 0 <= r < |a| ==> |a[r]| == |b[r]|
    requires forall r, c :: 0 <= r < |a| && 0 <= c < |a[r]| ==> a[r][c] == b[r][c]
    ensures a == b
  {
    forall r | 0 <= r < |a|
      ensures a[r] == b[r]
    {
    }
  }

  function Scaled(v: Vector, d: real): (r: Vector)
    requires d != 0.0
    ensures |r| == |v| && forall c :: 0 <= c < |v| ==> r[c] == v[c] / d
  {
    seq(|v|, c requires 0 <= c < |v| => v[c] / d)
  }

  function LessTimes(v: Vector, w: Vector, f: real): (r: Vector)
    requires |v| == |w|
    ensures |r| == |v| && forall c :: 0 <= c < |v| ==> r[c] == v[c] - w[c] * f
  {
    seq(|v|, c requires 0 <= c < |v| => v[c] - w[c] * f)
  }

  /** The product of the first k entries of a row with a column vector. */
  function Dot(v: Vector, x: Vector, k: nat): real
    requires k <= |v| && k <= |x|
  {
    if k == 0 then 0.0 else Dot(v, x, k - 1) + v[k - 1] * x[k - 1]
  }

  function Column(m: Matrix, c: nat, n: nat): (x: Vector)
    requires IsSquare(m, n) && c < n
    ensures |x| == n && forall r :: 0 <= r < n ==> x[r] == m[r][c]
  {
    seq(n, r requires 0 <= r < n => m[r][c])
  }

  function Times(a: Matrix, b: Matrix, n: nat, r: nat, c: nat): real
    requires IsSquare(a, n) && IsSquare(b, n) && r < n && c < n
  {
    Dot(a[r], Column(b, c, n), n)
  }

  lemma {:induction false} DotScaled(v: Vector, d: real, x: Vector, k: nat)
    requires d != 0.0 && k <= |v| && k <= |x|
    ensures Dot(Scaled(v, d), x, k) == Dot(v, x, k) / d
  {
    if k > 0 {
      DotScaled(v, d, x, k - 1);
      DivideSum(Dot(v, x, k - 1), v[k - 1], x[k - 1], d);
    }
  }

  lemma DivideSum(s: real, a: real, b: real, d: real)
    requires d != 0.0
    ensures s / d + (a / d) * b == (s + a * b) / d
  {
  }

  lemma {:induction false} DotLessTimes(v: Vector, w: Vector, f: real, x: Vector, k: nat)
    requires |v| == |w| && k <= |v| && k <= |x|
    ensures Dot(LessTimes(v, w, f), x, k) == Dot(v, x, k) - Dot(w, x, k) * f
  {
    if k > 0 {
      DotLessTimes(v, w, f, x, k - 1);
      LessSum(Dot(v, x, k - 1), Dot(w, x, k - 1), v[k - 1], w[k - 1], x[k - 1], f);
    }
  }

  lemma LessSum(s: real, t: real, a: real, b: real, x: real, f: real)
    ensures s - t * f + (a - b * f) * x == (s + a * x) - (t + b * x) * f
  {
  }

  // Row operations ----------------------------------------------------------------------------------------

  function Swapped(m: Matrix, i: nat, j: nat): Matrix
    requires i < |m| && j < |m|
  {
    m[i := m[j]][j := m[i]]
  }

  /** Exchanges two rows of both matrices. */
  method SwapRows(tmp: array2<real>, result: array2<real>, i: nat, ind: nat)
    requires tmp != result && tmp.Length0 == tmp.Length1 == result.Length0 == result.Length1 && i < tmp.Length0
    requires ind < tmp.Length0 && i != ind
    modifies tmp, result
    ensures Rows(tmp) == Swapped(old(Rows(tmp)), i, ind) && Rows(result) == Swapped(old(Rows(result)), i, ind)
  {
    var n := tmp.Length0;
    for j := 0 to n
      invariant forall r, c :: 0 <= r < n && 0 <= c < n ==>
        tmp[r, c] == old(tmp[if c >= j then r else if r == i then ind else if r == ind then i else r, c])
      invariant forall r, c :: 0 <= r < n && 0 <= c < n ==>
        result[r, c] == old(result[if c >= j then r else if r == i then ind else if r == ind then i else r, c])
    {
      var val2 := result[i, j];
      result[i, j] := result[ind, j];
      result[ind, j] := val2;
      val2 := tmp[i, j];
      tmp[i, j] := tmp[ind, j];
      tmp[ind, j] := val2;
    }
    SameEntries(Rows(tmp), Swapped(old(Rows(tmp)), i, ind));
    SameEntries(Rows(result), Swapped(old(Rows(result)), i, ind));
  }

  /** Divides a row of both matrices. */
  method DivideRow(tmp: array2<real>, result: array2<real>, i: nat, val: real)
    requires tmp != result && tmp.Length0 == tmp.Length1 == result.Length0 == result.Length1 && i < tmp.Length0
    requires val != 0.0
    modifies tmp, result
    ensures Rows(tmp) == old(Rows(tmp))[i := Scaled(old(Rows(tmp))[i], val)]
    ensures Rows(result) == old(Rows(result))[i := Scaled(old(Rows(result))[i], val)]
  {
    var n := tmp.Length0;
    for j := 0 to n
      invariant forall r, c :: 0 <= r < n && 0 <= c < n ==>
        tmp[r, c] == if r == i && c < j then old(tmp[r, c]) / val else old(tmp[r, c])
      invariant forall r, c :: 0 <= r < n && 0 <= c < n ==>
        result[r, c] == if r == i && c < j then old(result[r, c]) / val else old(result[r, c])
    {
      tmp[i, j] := tmp[i, j] / val;
      result[i, j] := result[i, j] / val;
    }
    SameEntries(Rows(tmp), old(Rows(tmp))[i := Scaled(old(Rows(tmp))[i], val)]);
    SameEntries(Rows(result), old(Rows(result))[i := Scaled(old(Rows(result))[i], val)]);
  }

  /** Subtracts a multiple of row i from row j in both matrices. */
  method EliminateRow(tmp: array2<real>, result: array2<real>, i: nat, j: nat, val: real)
    requires tmp != result && tmp.Length0 == tmp.Length1 == result.Length0 == result.Length1 && i < tmp.Length0
    requires j < tmp.Length0 && i != j
    modifies tmp, result
    ensures Rows(tmp) == old(Rows(tmp))[j := LessTimes(old(Rows(tmp))[j], old(Rows(tmp))[i], val)]
    ensures Rows(result) == old(Rows(result))[j := LessTimes(old(Rows(result))[j], old(Rows(result))[i], val)]
  {
    var n := tmp.Length0;
    for k := 0 to n
      invariant forall r, c :: 0 <= r < n && 0 <= c < n ==>
        tmp[r, c] == if r == j && c < k then old(tmp[r, c]) - old(tmp[i, c]) * val else old(tmp[r, c])
      invariant forall r, c :: 0 <= r < n && 0 <= c < n ==>
        result[r, c] == if r == j && c < k then old(result[r, c]) - old(result[i, c]) * val else old(result[r, c])
    {
      tmp[j, k] := tmp[j, k] - tmp[i, k] * val;
      result[j, k] := result[j, k] - result[i, k] * val;
    }
    SameEntries(Rows(tmp), old(Rows(tmp))[j := LessTimes(old(Rows(tmp))[j], old(Rows(tmp))[i], val)]);
    SameEntries(Rows(result), old(Rows(result))[j := LessTimes(old(Rows(result))[j], old(Rows(result))[i], val)]);
  }

  // What row operations keep ---------------------------------------------------------------------------------

  /** Row r of t is row r of s times m. */
  ghost predicate RowProduct(t: Matrix, s: Matrix, m: Matrix, n: nat, r: nat)
    requires IsSquare(t, n) && IsSquare(s, n) && IsSquare(m, n) && r < n
  {
    forall c :: 0 <= c < n ==> t[r][c] == Dot(s[r], Column(m, c, n), n)
  }

  ghost predicate IsProduct(t: Matrix, s: Matrix, m: Matrix, n: nat)
    requires IsSquare(t, n) && IsSquare(s, n) && IsSquare(m, n)
  {
    forall r :: 0 <= r < n ==> RowProduct(t, s, m, n, r)
  }

  ghost predicate InKernel(m: Matrix, x: Vector, n: nat)
    requires IsSquare(m, n)
  {
    |x| == n && forall r :: 0 <= r < n ==> Dot(m[r], x, n) == 0.0
  }

  ghost predicate SameKernel(t: Matrix, m: Matrix, n: nat)
    requires IsSquare(t, n) && IsSquare(m, n)
  {
    forall x :: InKernel(t, x, n) <==> InKernel(m, x, n)
  }

  /** Row operations do not change which vectors a matrix takes to zero. */
  lemma SwapKernel(t: Matrix, n: nat, i: nat, j: nat)
    requires IsSquare(t, n) && i < n && j < n
    ensures IsSquare(Swapped(t, i, j), n) && SameKernel(Swapped(t, i, j), t, n)
  {
    hide Dot;
    var t' := Swapped(t, i, j);
    forall x
      ensures InKernel(t', x, n) <==> InKernel(t, x, n)
    {
      if InKernel(t', x, n) {
        assert Dot(t'[i], x, n) == 0.0 && Dot(t'[j], x, n) == 0.0;
        assert forall r :: 0 <= r < n && r != i && r != j ==> t[r] == t'[r];
      }
    }
  }

  lemma DivideKernel(t: Matrix, n: nat, i: nat, val: real)
    requires IsSquare(t, n) && i < n && val != 0.0
    ensures var t' := t[i := Scaled(t[i], val)]; IsSquare(t', n) && SameKernel(t', t, n)
  {
    hide Dot;
    var t' := t[i := Scaled(t[i], val)];
    forall x
      ensures InKernel(t', x, n) <==> InKernel(t, x, n)
    {
      if |x| == n {
        DotScaled(t[i], val, x, n);
        ZeroQuotient(Dot(t[i], x, n), val);
        assert forall r :: 0 <= r < n && r != i ==> t[r] == t'[r];
        if InKernel(t', x, n) {
          assert Dot(t'[i], x, n) == 0.0;
        }
      }
    }
  }

  lemma EliminateKernel(t: Matrix, n: nat, i: nat, j: nat, val: real)
    requires IsSquare(t, n) && i < n && j < n && i != j
    ensures var t' := t[j := LessTimes(t[j], t[i], val)]; IsSquare(t', n) && SameKernel(t', t, n)
  {
    hide Dot;
    var t' := t[j := LessTimes(t[j], t[i], val)];
    forall x
      ensures InKernel(t', x, n) <==> InKernel(t, x, n)
    {
      if |x| == n {
        DotLessTimes(t[j], t[i], val, x, n);
        assert forall r :: 0 <= r < n && r != j ==> t[r] == t'[r];
        if InKernel(t', x, n) {
          assert Dot(t'[i], x, n) == 0.0 && Dot(t'[j], x, n) == 0.0;
        }
      }
    }
  }

  lemma SameKernelTrans(t: Matrix, s: Matrix, m: Matrix, n: nat)
    requires IsSquare(t, n) && IsSquare(s, n) && IsSquare(m, n) && SameKernel(t, s, n) && SameKernel(s, m, n)
    ensures SameKernel(t, m, n)
  {
    hide InKernel;
  }

  lemma SwapKeeps(t: Matrix, s: Matrix, m: Matrix, n: nat, i: nat, j: nat)
    requires IsSquare(t, n) && IsSquare(s, n) && IsSquare(m, n) && i < n && j < n
    requires IsProduct(t, s, m, n) && SameKernel(t, m, n)
    ensures IsSquare(Swapped(t, i, j), n) && IsSquare(Swapped(s, i, j), n)
    ensures IsProduct(Swapped(t, i, j), Swapped(s, i, j), m, n) && SameKernel(Swapped(t, i, j), m, n)
  {
    hide Dot, Column, SameKernel;
    var t', s' := Swapped(t, i, j), Swapped(s, i, j);
    forall r | 0 <= r < n
      ensures RowProduct(t', s', m, n, r)
    {
      assert RowProduct(t, s, m, n, if r == i then j else if r == j then i else r);
    }
    SwapKernel(t, n, i, j);
    SameKernelTrans(t', t, m, n);
  }

  lemma DivideKeeps(t: Matrix, s: Matrix, m: Matrix, n: nat, i: nat, val: real)
    requires IsSquare(t, n) && IsSquare(s, n) && IsSquare(m, n) && i < n && val != 0.0
    requires IsProduct(t, s, m, n) && SameKernel(t, m, n)
    ensures var t', s' := t[i := Scaled(t[i], val)], s[i := Scaled(s[i], val)];
      IsSquare(t', n) && IsSquare(s', n) && IsProduct(t', s', m, n) && SameKernel(t', m, n)
  {
    hide Dot, Column, SameKernel;
    var t', s' := t[i := Scaled(t[i], val)], s[i := Scaled(s[i], val)];
    forall r | 0 <= r < n
      ensures RowProduct(t', s', m, n, r)
    {
      assert RowProduct(t, s, m, n, r);
      if r == i {
        forall c | 0 <= c < n
          ensures t'[r][c] == Dot(s'[r], Column(m, c, n), n)
        {
          DotScaled(s[i], val, Column(m, c, n), n);
        }
      }
    }
    DivideKernel(t, n, i, val);
    SameKernelTrans(t', t, m, n);
  }

  lemma ZeroQuotient(a: real, d: real)
    requires d != 0.0
    ensures a / d == 0.0 <==> a == 0.0
  {
  }

  lemma EliminateKeeps(t: Matrix, s: Matrix, m: Matrix, n: nat, i: nat, j: nat, val: real)
    requires IsSquare(t, n) && IsSquare(s, n) && IsSquare(m, n) && i < n && j < n && i != j
    requires IsProduct(t, s, m, n) && SameKernel(t, m, n)
    ensures var t', s' := t[j := LessTimes(t[j], t[i], val)], s[j := LessTimes(s[j], s[i], val)];
      IsSquare(t', n) && IsSquare(s', n) && IsProduct(t', s', m, n) && SameKernel(t', m, n)
  {
    hide Dot, Column, SameKernel;
    var t', s' := t[j := LessTimes(t[j], t[i], val)], s[j := LessTimes(s[j], s[i], val)];
    forall r | 0 <= r < n
      ensures RowProduct(t', s', m, n, r)
    {
      assert RowProduct(t, s, m, n, r) && RowProduct(t, s, m, n, i);
      if r == j {
        forall c | 0 <= c < n
          ensures t'[r][c] == Dot(s'[r], Column(m, c, n), n)
        {
          DotLessTimes(s[j], s[i], val, Column(m, c, n), n);
        }
      }
    }
    EliminateKernel(t, n, i, j, val);
    SameKernelTrans(t', t, m, n);
  }

  // The algorithm ------------------------------------------------------------------------------------------

  function Abs(x: real): real {
    if x < 0.0 then -x else x
  }

  function Unit(r: int, c: int): real {
    if r == c then 1.0 else 0.0
  }

  /** The first i columns are those of the identity. */
  ghost predicate Reduced(t: Matrix, n: nat, i: nat)
    requires IsSquare(t, n) && i <= n
  {
    forall r, c :: 0 <= r < n && 0 <= c < i ==> t[r][c] == Unit(r, c)
  }

  ghost predicate IsIdentity(t: Matrix, n: nat)
    requires IsSquare(t, n)
  {
    forall r, c :: 0 <= r < n && 0 <= c < n ==> t[r][c] == Unit(r, c)
  }

  /** result times m is the identity. */
  ghost predicate IsLeftInverse(result: Matrix, m: Matrix, n: nat)
    requires IsSquare(result, n) && IsSquare(m, n)
  {
    forall r, c :: 0 <= r < n && 0 <= c < n ==> Times(result, m, n, r, c) == Unit(r, c)
  }

  ghost predicate NonZero(x: Vector) {
    exists k :: 0 <= k < |x| && x[k] != 0.0
  }

  lemma {:induction false} DotUnit(v: Vector, x: Vector, r: int, k: nat)
    requires k <= |v| && k <= |x| && forall c :: 0 <= c < k ==> v[c] == Unit(r, c)
    ensures Dot(v, x, k) == if 0 <= r < k then x[r] else 0.0
  {
    if k > 0 {
      DotUnit(v, x, r, k - 1);
    }
  }

  /** The identity times m is m. */
  lemma StartProduct(m: Matrix, id: Matrix, n: nat)
    requires IsSquare(m, n) && IsSquare(id, n) && IsIdentity(id, n)
    ensures IsProduct(m, id, m, n) && SameKernel(m, m, n)
  {
    forall r | 0 <= r < n
      ensures RowProduct(m, id, m, n, r)
    {
      forall c | 0 <= c < n
        ensures m[r][c] == Dot(id[r], Column(m, c, n), n)
      {
        DotUnit(id[r], Column(m, c, n), r, n);
      }
    }
  }

  /** The vector that a column without a pivot gives. */
  function KernelVector(t: Matrix, n: nat, i: nat): (x: Vector)
    requires IsSquare(t, n) && i < n
    ensures |x| == n && forall k :: 0 <= k < n ==> x[k] == if k < i then -t[k][i] else if k == i then 1.0 else 0.0
  {
    seq(n, k requires 0 <= k < n => if k < i then -t[k][i] else if k == i then 1.0 else 0.0)
  }

  lemma {:induction false} DotKernel(t: Matrix, n: nat, i: nat, r: nat, k: nat)
    requires IsSquare(t, n) && i < n && r < n && k <= n && Reduced(t, n, i)
    ensures Dot(t[r], KernelVector(t, n, i), k) ==
      (if r < i && r < k then -t[r][i] else 0.0) + (if i < k then t[r][i] else 0.0)
  {
    if k > 0 {
      DotKernel(t, n, i, r, k - 1);
      assert k - 1 < i ==> t[r][k - 1] == Unit(r, k - 1);
    }
  }

  /** A reduced matrix without a pivot in column i has a kernel. */
  lemma NoPivot(t: Matrix, n: nat, i: nat)
    requires IsSquare(t, n) && i < n && Reduced(t, n, i) && forall r :: i <= r < n ==> t[r][i] == 0.0
    ensures InKernel(t, KernelVector(t, n, i), n) && NonZero(KernelVector(t, n, i))
  {
    var x := KernelVector(t, n, i);
    forall r | 0 <= r < n
      ensures Dot(t[r], x, n) == 0.0
    {
      DotKernel(t, n, i, r, n);
    }
    assert x[i] == 1.0;
  }

  /** Only the zero vector is in the kernel of the identity. */
  lemma IdentityKernel(t: Matrix, n: nat, x: Vector)
    requires IsSquare(t, n) && IsIdentity(t, n) && InKernel(t, x, n)
    ensures !NonZero(x)
  {
    forall r | 0 <= r < n
      ensures x[r] == 0.0
    {
      DotUnit(t[r], x, r, n);
    }
  }

  ghost predicate HasKernel(m: Matrix, n: nat)
    requires IsSquare(m, n)
  {
    exists x :: InKernel(m, x, n) && NonZero(x)
  }

  // What an inverse is for -----------------------------------------------------------------------------------

  /** The vector m x. */
  function Image(m: Matrix, x: Vector, n: nat): (y: Vector)
    requires IsSquare(m, n) && |x| == n
    ensures |y| == n && forall r :: 0 <= r < n ==> y[r] == Dot(m[r], x, n)
  {
    seq(n, r requires 0 <= r < n => Dot(m[r], x, n))
  }

  /** The first k terms of each entry of the row v m. */
  function RowTimes(v: Vector, m: Matrix, n: nat, k: nat): (w: Vector)
    requires IsSquare(m, n) && |v| == n && k <= n
    ensures |w| == n && forall c :: 0 <= c < n ==> w[c] == Dot(v, Column(m, c, n), k)
  {
    seq(n, c requires 0 <= c < n => Dot(v, Column(m, c, n), k))
  }

  lemma DotFirst(v: Vector, x: Vector, k: nat)
    requires 0 < k <= |v| && k <= |x|
    ensures Dot(v, x, k) == Dot(v, x, k - 1) + v[k - 1] * x[k - 1]
    ensures Dot(v, x, 0) == 0.0
  {
  }

  lemma RowTimesNone(v: Vector, m: Matrix, x: Vector, n: nat)
    requires IsSquare(m, n) && |v| == n && |x| == n
    ensures Dot(RowTimes(v, m, n, 0), x, n) == 0.0 == Dot(v, Image(m, x, n), 0)
  {
    DotUnit(RowTimes(v, m, n, 0), x, -1, n);
  }

  lemma RowTimesNext(v: Vector, m: Matrix, n: nat, k: nat)
    requires IsSquare(m, n) && |v| == n && 0 < k <= n
    ensures RowTimes(v, m, n, k) == LessTimes(RowTimes(v, m, n, k - 1), m[k - 1], -v[k - 1])
  {
    hide Dot;
    var w, l := RowTimes(v, m, n, k), LessTimes(RowTimes(v, m, n, k - 1), m[k - 1], -v[k - 1]);
    forall c | 0 <= c < n
      ensures w[c] == l[c]
    {
      DotFirst(v, Column(m, c, n), k);
      TimesNegated(m[k - 1][c], v[k - 1]);
    }
  }

  /** v (m x) is (v m) x. */
  lemma {:induction false} DotImage(v: Vector, m: Matrix, x: Vector, n: nat, k: nat)
    requires IsSquare(m, n) && |v| == n && |x| == n && k <= n
    ensures Dot(v, Image(m, x, n), k) == Dot(RowTimes(v, m, n, k), x, n)
  {
    hide Dot, Column;
    if k == 0 {
      RowTimesNone(v, m, x, n);
    } else {
      DotImage(v, m, x, n, k - 1);
      var y := Image(m, x, n);
      DotFirst(v, y, k);
      assert Dot(v, y, k) == Dot(v, y, k - 1) + v[k - 1] * Dot(m[k - 1], x, n);
      RowTimesNext(v, m, n, k);
      var w := RowTimes(v, m, n, k - 1);
      DotLessTimes(w, m[k - 1], -v[k - 1], x, n);
      TimesNegated(Dot(m[k - 1], x, n), v[k - 1]);
      assert Dot(RowTimes(v, m, n, k), x, n) == Dot(w, x, n) + v[k - 1] * Dot(m[k - 1], x, n);
    }
  }

  lemma TimesNegated(a: real, f: real)
    ensures a * -f == -(f * a)
  {
  }

  /** A left inverse takes the image of a vector back to it. */
  lemma TakenBack(s: Matrix, m: Matrix, n: nat, x: Vector)
    requires IsSquare(s, n) && IsSquare(m, n) && IsLeftInverse(s, m, n) && |x| == n
    ensures Image(s, Image(m, x, n), n) == x
  {
    hide Dot;
    var y := Image(m, x, n);
    forall r | 0 <= r < n
      ensures Image(s, y, n)[r] == x[r]
    {
      DotImage(s[r], m, x, n, n);
      var w := RowTimes(s[r], m, n, n);
      assert forall c :: 0 <= c < n ==> w[c] == Times(s, m, n, r, c);
      DotUnit(w, x, r, n);
    }
  }

  function Difference(x: Vector, y: Vector): (z: Vector)
    requires |x| == |y|
    ensures |z| == |x| && forall k :: 0 <= k < |x| ==> z[k] == x[k] - y[k]
  {
    seq(|x|, k requires 0 <= k < |x| => x[k] - y[k])
  }

  lemma {:induction false} DotDifference(v: Vector, x: Vector, y: Vector, k: nat)
    requires |x| == |y| && k <= |v| && k <= |x|
    ensures Dot(v, Difference(x, y), k) == Dot(v, x, k) - Dot(v, y, k)
  {
    if k > 0 {
      DotDifference(v, x, y, k - 1);
      DifferenceSum(v[k - 1], x[k - 1], y[k - 1]);
    }
  }

  lemma DifferenceSum(a: real, x: real, y: real)
    ensures a * (x - y) == a * x - a * y
  {
  }

  /** Without a kernel, different vectors have different images. */
  lemma ImagesDiffer(s: Matrix, n: nat, x: Vector, y: Vector)
    requires IsSquare(s, n) && !HasKernel(s, n) && |x| == |y| == n && Image(s, x, n) == Image(s, y, n)
    ensures x == y
  {
    hide Dot;
    var z := Difference(x, y);
    forall r | 0 <= r < n
      ensures Dot(s[r], z, n) == 0.0
    {
      DotDifference(s[r], x, y, n);
      assert Image(s, x, n)[r] == Image(s, y, n)[r];
    }
    assert InKernel(s, z, n);
    assert !NonZero(z);
    forall k | 0 <= k < n
      ensures x[k] == y[k]
    {
      assert z[k] == 0.0;
    }
  }

  /** A left inverse without a kernel solves every system, and in the only way. */
  lemma SolvesSystem(s: Matrix, m: Matrix, n: nat, x: Vector, b: Vector)
    requires IsSquare(s, n) && IsSquare(m, n) && IsLeftInverse(s, m, n) && !HasKernel(s, n)
    requires |x| == |b| == n
    ensures Image(m, x, n) == b <==> Image(s, b, n) == x
  {
    hide *;
    TakenBack(s, m, n, x);
    if Image(s, b, n) == x {
      ImagesDiffer(s, n, Image(m, x, n), b);
    }
  }

  lemma SameHasKernel(t: Matrix, s: Matrix, n: nat)
    requires IsSquare(t, n) && IsSquare(s, n) && SameKernel(t, s, n)
    ensures HasKernel(t, n) <==> HasKernel(s, n)
  {
    hide InKernel, NonZero;
  }

  lemma IdentityHasNone(t: Matrix, n: nat)
    requires IsSquare(t, n) && IsIdentity(t, n)
    ensures !HasKernel(t, n)
  {
    hide InKernel, NonZero, IsIdentity;
    forall x | InKernel(t, x, n)
      ensures !NonZero(x)
    {
      IdentityKernel(t, n, x);
    }
  }

  // The loops ------------------------------------------------------------------------------------------------

  /** The row below i with the largest entry in column i. */
  method FindPivot(tmp: array2<real>, i: nat) returns (ind: nat, val: real)
    requires tmp.Length0 == tmp.Length1 && i < tmp.Length0
    ensures i <= ind < tmp.Length0 && val == tmp[ind, i]
    ensures forall r :: i <= r < tmp.Length0 ==> Abs(tmp[r, i]) <= Abs(val)
    ensures forall r :: i <= r < ind ==> Abs(tmp[r, i]) < Abs(val)
  {
    val := tmp[i, i];
    ind := i;
    for j := i + 1 to tmp.Length0
      invariant i <= ind < tmp.Length0 && val == tmp[ind, i]
      invariant forall r :: i <= r < j ==> Abs(tmp[r, i]) <= Abs(val)
      invariant ind < j && forall r :: i <= r < ind ==> Abs(tmp[r, i]) < Abs(val)
    {
      if Abs(tmp[j, i]) > Abs(val) {
        ind := j;
        val := tmp[j, i];
      }
    }
  }

  /** Clears column i in all other rows. */
  method EliminateColumn(tmp: array2<real>, result: array2<real>, i: nat, ghost m: Matrix)
    requires tmp != result && tmp.Length0 == tmp.Length1 == result.Length0 == result.Length1 && i < tmp.Length0
    requires IsSquare(m, tmp.Length0)
    requires IsProduct(Rows(tmp), Rows(result), m, tmp.Length0) && SameKernel(Rows(tmp), m, tmp.Length0)
    requires Reduced(Rows(tmp), tmp.Length0, i) && tmp[i, i] == 1.0 && !HasKernel(Rows(result), tmp.Length0)
    modifies tmp, result
    ensures IsProduct(Rows(tmp), Rows(result), m, tmp.Length0) && SameKernel(Rows(tmp), m, tmp.Length0)
    ensures Reduced(Rows(tmp), tmp.Length0, i + 1) && !HasKernel(Rows(result), tmp.Length0)
  {
    hide IsProduct, SameKernel, HasKernel;
    var n := tmp.Length0;
    for j := 0 to n
      invariant IsProduct(Rows(tmp), Rows(result), m, n) && SameKernel(Rows(tmp), m, n)
      invariant Reduced(Rows(tmp), n, i) && Rows(tmp)[i][i] == 1.0 && !HasKernel(Rows(result), n)
      invariant forall r :: 0 <= r < j && r != i ==> Rows(tmp)[r][i] == 0.0
    {
      if j != i {
        EliminateKeeps(Rows(tmp), Rows(result), m, n, i, j, tmp[j, i]);
        EliminateKernel(Rows(result), n, i, j, tmp[j, i]);
        ghost var was := Rows(result);
        EliminateRow(tmp, result, i, j, tmp[j, i]);
        SameHasKernel(Rows(result), was, n);
      }
    }
  }

  lemma SwapReduced(t: Matrix, n: nat, i: nat, ind: nat)
    requires IsSquare(t, n) && i <= ind < n && Reduced(t, n, i)
    ensures IsSquare(Swapped(t, i, ind), n) && Reduced(Swapped(t, i, ind), n, i) && Swapped(t, i, ind)[i] == t[ind]
  {
  }

  lemma DivideReduced(t: Matrix, n: nat, i: nat, val: real)
    requires IsSquare(t, n) && i < n && Reduced(t, n, i) && val != 0.0 && t[i][i] == val
    ensures var t' := t[i := Scaled(t[i], val)]; IsSquare(t', n) && Reduced(t', n, i) && t'[i][i] == 1.0
  {
    var t' := t[i := Scaled(t[i], val)];
    forall c | 0 <= c < i
      ensures t'[i][c] == Unit(i, c)
    {
      assert t[i][c] == Unit(i, c);
    }
    OwnQuotient(val);
  }

  lemma OwnQuotient(val: real)
    requires val != 0.0
    ensures val / val == 1.0
  {
  }

  /** Brings row i into place, divides it by its pivot and clears its column; fails without a pivot. */
  method PivotStep(tmp: array2<real>, result: array2<real>, i: nat, ghost m: Matrix) returns (found: bool)
    requires tmp != result && tmp.Length0 == tmp.Length1 == result.Length0 == result.Length1 && i < tmp.Length0
    requires IsSquare(m, tmp.Length0)
    requires IsProduct(Rows(tmp), Rows(result), m, tmp.Length0) && SameKernel(Rows(tmp), m, tmp.Length0)
    requires Reduced(Rows(tmp), tmp.Length0, i) && !HasKernel(Rows(result), tmp.Length0)
    modifies tmp, result
    ensures found ==> IsProduct(Rows(tmp), Rows(result), m, tmp.Length0) && SameKernel(Rows(tmp), m, tmp.Length0)
    ensures found ==> Reduced(Rows(tmp), tmp.Length0, i + 1) && !HasKernel(Rows(result), tmp.Length0)
    ensures !found ==> HasKernel(m, tmp.Length0)
  {
    hide IsProduct, SameKernel, HasKernel, Reduced, Swapped;
    var n := tmp.Length0;
    var ind, val := FindPivot(tmp, i);
    if val == 0.0 {
      WithoutPivot(Rows(tmp), m, n, i);
    }
    if ind != i {
      SwapKeeps(Rows(tmp), Rows(result), m, n, i, ind);
      SwapReduced(Rows(tmp), n, i, ind);
      SwapKernel(Rows(result), n, i, ind);
      ghost var was := Rows(result);
      SwapRows(tmp, result, i, ind);
      SameHasKernel(Rows(result), was, n);
    }
    if val == 0.0 {
      return false;
    }
    DivideKeeps(Rows(tmp), Rows(result), m, n, i, val);
    DivideReduced(Rows(tmp), n, i, val);
    DivideKernel(Rows(result), n, i, val);
    ghost var was := Rows(result);
    DivideRow(tmp, result, i, val);
    SameHasKernel(Rows(result), was, n);
    EliminateColumn(tmp, result, i, m);
    return true;
  }

  /** The inverse of m if there is one: the result times m is then the identity, and the result takes b to
      the one solution x of m x = b. Otherwise m has a non-zero vector in its kernel. */
  method ComputeInverse(m: Matrix, n: nat, result: array2<real>) returns (invertible: bool)
    requires IsSquare(m, n) && result.Length0 == n && result.Length1 == n
    modifies result
    ensures invertible ==> IsLeftInverse(Rows(result), m, n)
    ensures invertible ==> forall x, b :: |x| == n && |b| == n ==>
      (Image(m, x, n) == b <==> Image(Rows(result), b, n) == x)
    ensures invertible <==> !HasKernel(m, n)
  {
    hide IsProduct, SameKernel, HasKernel, IsLeftInverse;
    var tmp := new real[n, n]((i, j) => if 0 <= i < |m| && 0 <= j < |m[i]| then m[i][j] else 0.0);
    SameEntries(Rows(tmp), m);
    forall i, j | 0 <= i < n && 0 <= j < n {
      result[i, j] := Unit(i, j);
    }
    StartProduct(m, Rows(result), n);
    IdentityHasNone(Rows(result), n);
    for i := 0 to n
      invariant IsProduct(Rows(tmp), Rows(result), m, n) && SameKernel(Rows(tmp), m, n) && Reduced(Rows(tmp), n, i)
      invariant !HasKernel(Rows(result), n)
    {
      var found := PivotStep(tmp, result, i, m);
      if !found {
        return false;
      }
    }
    Inverted(Rows(tmp), Rows(result), m, n);
    forall x, b | |x| == n && |b| == n
      ensures Image(m, x, n) == b <==> Image(Rows(result), b, n) == x
    {
      SolvesSystem(Rows(result), m, n, x, b);
    }
    return true;
  }

  lemma WithoutPivot(t: Matrix, m: Matrix, n: nat, i: nat)
    requires IsSquare(t, n) && IsSquare(m, n) && SameKernel(t, m, n) && i < n && Reduced(t, n, i)
    requires forall r :: i <= r < n ==> Abs(t[r][i]) <= 0.0
    ensures HasKernel(m, n)
  {
    hide InKernel, NonZero, SameKernel, Reduced;
    NoPivot(t, n, i);
    KernelBack(t, m, n, KernelVector(t, n, i));
  }

  lemma KernelBack(t: Matrix, m: Matrix, n: nat, x: Vector)
    requires IsSquare(t, n) && IsSquare(m, n) && SameKernel(t, m, n) && InKernel(t, x, n)
    ensures InKernel(m, x, n)
  {
  }

  lemma Inverted(t: Matrix, s: Matrix, m: Matrix, n: nat)
    requires IsSquare(t, n) && IsSquare(s, n) && IsSquare(m, n) && IsProduct(t, s, m, n) && SameKernel(t, m, n)
    requires Reduced(t, n, n)
    ensures IsLeftInverse(s, m, n) && !HasKernel(m, n)
  {
    hide Dot, InKernel, NonZero;
    forall r, c | 0 <= r < n && 0 <= c < n
      ensures Times(s, m, n, r, c) == Unit(r, c)
    {
      assert RowProduct(t, s, m, n, r);
    }
    forall x | InKernel(m, x, n)
      ensures !NonZero(x)
    {
      IdentityKernel(t, n, x);
    }
  }
}
