/** Unsigned machine words as bounded integers, and the bitwise operations on them. */
module MachineWords {
  import opened Powers

  type Byte = x: int | 0 <= x < 0x100
  type U32 = x: int | 0 <= x < 0x1_0000_0000
  type U64 = x: int | 0 <= x < 0x1_0000_0000_0000_0000

  const TWO_TO_32: int := 0x1_0000_0000
  const TWO_TO_64: int := 0x1_0000_0000_0000_0000
  const U64_MAX: int := 0xFFFF_FFFF_FFFF_FFFF

  /** The value a 64-bit register keeps of an integer. */
  function Wrap64(x: int): U64 { x % TWO_TO_64 }

  function BitAnd(x: nat, y: nat): nat {
    if x == 0 || y == 0 then 0 else (if x % 2 == 1 && y % 2 == 1 then 1 else 0) + 2 * BitAnd(x / 2, y / 2)
  }

  function BitOr(x: nat, y: nat): nat
    decreases x + y
  {
    if x == 0 && y == 0 then 0 else (if x % 2 == 1 || y % 2 == 1 then 1 else 0) + 2 * BitOr(x / 2, y / 2)
  }

  lemma BitAndZero(x: nat)
    ensures BitAnd(x, 0) == 0
  {
  }

  /** Words combine lane by lane. */
  lemma {:induction false} AndLanes(k: nat, a: nat, b: nat, c: nat, d: nat)
    requires a < Pow(2, k) && c < Pow(2, k)
    ensures BitAnd(a, c) < Pow(2, k)
    ensures BitAnd(a + Pow(2, k) * b, c + Pow(2, k) * d) == BitAnd(a, c) + Pow(2, k) * BitAnd(b, d)
  {
    if k > 0 {
      HalfLane(k, a, b);
      HalfLane(k, c, d);
      AndLanes(k - 1, a / 2, b, c / 2, d);
      AndHalf(a + Pow(2, k) * b, c + Pow(2, k) * d);
      AndHalf(a, c);
      MulPull(Pow(2, k - 1), BitAnd(b, d));
    }
  }

  lemma {:induction false} OrLanes(k: nat, a: nat, b: nat, c: nat, d: nat)
    requires a < Pow(2, k) && c < Pow(2, k)
    ensures BitOr(a, c) < Pow(2, k)
    ensures BitOr(a + Pow(2, k) * b, c + Pow(2, k) * d) == BitOr(a, c) + Pow(2, k) * BitOr(b, d)
  {
    if k > 0 {
      HalfLane(k, a, b);
      HalfLane(k, c, d);
      OrLanes(k - 1, a / 2, b, c / 2, d);
      OrHalf(a + Pow(2, k) * b, c + Pow(2, k) * d);
      OrHalf(a, c);
      MulPull(Pow(2, k - 1), BitOr(b, d));
    }
  }

  lemma AndHalf(x: nat, y: nat)
    ensures BitAnd(x, y) == (if x % 2 == 1 && y % 2 == 1 then 1 else 0) + 2 * BitAnd(x / 2, y / 2)
  {
  }

  lemma OrHalf(x: nat, y: nat)
    ensures BitOr(x, y) == (if x % 2 == 1 || y % 2 == 1 then 1 else 0) + 2 * BitOr(x / 2, y / 2)
  {
  }

  lemma MulPull(p: int, x: int)
    ensures 2 * (p * x) == (2 * p) * x
  {
  }

  lemma HalfLane(k: nat, a: nat, b: nat)
    requires k > 0
    ensures Pow(2, k) * b >= 0
    ensures (a + Pow(2, k) * b) % 2 == a % 2
    ensures (a + Pow(2, k) * b) / 2 == a / 2 + Pow(2, k - 1) * b
    ensures a < Pow(2, k) ==> a / 2 < Pow(2, k - 1)
  {
    MulPull(Pow(2, k - 1), b);
    var m: nat := Pow(2, k - 1) * b;
    assert Pow(2, k) * b == 2 * m;
  }
}
