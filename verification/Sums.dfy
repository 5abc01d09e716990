/** Finite sums of reals. */
module Sums {
  function Sum(f: int -> real, k: nat): real {
    if k == 0 then 0.0 else Sum(f, k - 1) + f(k - 1)
  }

  lemma {:induction false} SumEqual(f: int -> real, g: int -> real, k: nat)
    requires forall i :: 0 <= i < k ==> f(i) == g(i)
    ensures Sum(f, k) == Sum(g, k)
  {
    if k > 0 {
      SumEqual(f, g, k - 1);
    }
  }

  lemma {:induction false} SumAtMost(f: int -> real, g: int -> real, k: nat)
    requires forall i :: 0 <= i < k ==> f(i) <= g(i)
    ensures Sum(f, k) <= Sum(g, k)
  {
    if k > 0 {
      SumAtMost(f, g, k - 1);
    }
  }

  lemma {:induction false} SumPlus(f: int -> real, g: int -> real, h: int -> real, k: nat)
    requires forall i :: 0 <= i < k ==> h(i) == f(i) + g(i)
    ensures Sum(h, k) == Sum(f, k) + Sum(g, k)
  {
    if k > 0 {
      SumPlus(f, g, h, k - 1);
    }
  }

  lemma {:induction false} SumConstant(f: int -> real, c: real, k: nat)
    requires forall i :: 0 <= i < k ==> f(i) == c
    ensures Sum(f, k) == c * (k as real)
  {
    if k > 0 {
      SumConstant(f, c, k - 1);
      assert c * ((k - 1) as real) + c == c * (k as real);
    }
  }

  /** A sum of terms that are zero except at one place. */
  lemma {:induction false} SumSingle(f: int -> real, p: int, k: nat)
    requires forall i :: 0 <= i < k && i != p ==> f(i) == 0.0
    ensures Sum(f, k) == if 0 <= p < k then f(p) else 0.0
  {
    if k > 0 {
      SumSingle(f, p, k - 1);
    }
  }

  /** A sum of terms that are zero except at two places. */
  lemma {:induction false} SumPair(f: int -> real, p: int, q: int, k: nat)
    requires p != q && forall i :: 0 <= i < k && i != p && i != q ==> f(i) == 0.0
    ensures Sum(f, k) == (if 0 <= p < k then f(p) else 0.0) + (if 0 <= q < k then f(q) else 0.0)
  {
    if k > 0 {
      SumPair(f, p, q, k - 1);
    }
  }

  /** Non-negative terms add up to at least any two of them. */
  lemma {:induction false} SumAtLeastPair(f: int -> real, p: int, q: int, k: nat)
    requires p != q && forall i :: 0 <= i < k ==> f(i) >= 0.0
    ensures Sum(f, k) >= (if 0 <= p < k then f(p) else 0.0) + (if 0 <= q < k then f(q) else 0.0)
  {
    if k > 0 {
      SumAtLeastPair(f, p, q, k - 1);
    }
  }

  function Row(h: (int, int) -> real, i: int): int -> real {
    j => h(i, j)
  }

  function Column(h: (int, int) -> real, j: int): int -> real {
    i => h(i, j)
  }

  function RowSums(h: (int, int) -> real, b: nat): int -> real {
    i => Sum(Row(h, i), b)
  }

  function ColumnSums(h: (int, int) -> real, a: nat): int -> real {
    j => Sum(Column(h, j), a)
  }

  /** The two orders of summation agree. */
  lemma {:induction false} SumSwap(h: (int, int) -> real, a: nat, b: nat)
    ensures Sum(RowSums(h, b), a) == Sum(ColumnSums(h, a), b)
  {
    if a == 0 {
      SumConstant(ColumnSums(h, 0), 0.0, b);
    } else {
      SumSwap(h, a - 1, b);
      SumPlus(ColumnSums(h, a - 1), Row(h, a - 1), ColumnSums(h, a), b);
    }
  }
}
