/** The multi-digit decimal of the slow conversion path and its in-place arithmetic. */
module Decimals {
  import opened Powers
  import opened MachineWords
  import opened Digits
  import opened Pow5Table
  import opened Ieee754

  const MAX_DIGITS: nat := 768
  const DECIMAL_POINT_RANGE: int := 2047

  /** The unsigned 32-bit predecessor, which wraps at zero. */
  function Pred32(x: U32): U32 {
    if x == 0 then 0xFFFF_FFFF else x - 1
  }

  /** The machine shifts x << shift and x >> shift on values that do not overflow. */
  function Shl(x: int, shift: nat): int {
    x * Pow(2, shift)
  }

  function Shr(x: int, shift: nat): int {
    PowPos(2, shift);
    x / Pow(2, shift)
  }

  /** A buffer of at most 768 digits that denotes 0.digits * 10^decimalPoint. */
  class Decimal {
    var numDigits: U32
    var decimalPoint: int
    var negative: bool
    var truncated: bool
    const digits: array<Byte>

    constructor ()
      ensures Valid() && fresh(digits) && numDigits == 0 && decimalPoint == 0 && !truncated && !negative
    {
      numDigits, decimalPoint, negative, truncated := 0, 0, false, false;
      digits := new Byte[MAX_DIGITS];
    }

    /** Digits are in range and the first one is not zero. The last one is not zero either, except that
        a decimal read with more than 768 digits may be cut just behind a zero. */
    ghost predicate Valid()
      reads this, digits
    {
      && digits.Length == MAX_DIGITS
      && numDigits <= MAX_DIGITS
      && IsDigits(digits[..numDigits])
      && (numDigits > 0 ==> digits[0] != 0 && (truncated || digits[numDigits - 1] != 0))
    }

    ghost function Digits(): seq<int>
      requires Valid()
      reads this, digits
    {
      digits[..numDigits]
    }

    ghost function Value(): real
      requires Valid()
      reads this, digits
    {
      Val(Digits(), decimalPoint)
    }

    /** The buffer stores x with everything beyond digit 768 cut off. */
    ghost predicate Holds(x: real)
      reads this, digits
    {
      Valid() && Value() <= x < Value() + Ten(decimalPoint - MAX_DIGITS)
    }

    /** Removes all final zeros. */
    method Trim()
      requires digits.Length == MAX_DIGITS && numDigits <= MAX_DIGITS
      modifies this`numDigits
      ensures numDigits <= old(numDigits)
      ensures forall i :: numDigits <= i < old(numDigits) ==> digits[i] == 0
      ensures numDigits > 0 ==> digits[numDigits - 1] != 0
    {
      while numDigits > 0 && digits[numDigits - 1] == 0
        invariant numDigits <= old(numDigits)
        invariant forall i :: numDigits <= i < old(numDigits) ==> digits[i] == 0
      {
        numDigits := numDigits - 1;
      }
    }

    /** The number of decimal digits a multiplication by 2^shift adds. */
    method NumberOfDigitsDecimalLeftShift(shift: nat) returns (growth: nat)
      requires Valid() && numDigits > 0 && shift <= MAX_SHIFT
      ensures IsGrowth(Digits(), shift, growth)
      ensures growth <= 19
    {
      hide Table, Row, Pow, Numeral;
      var xA, xB := Packed(shift), Packed(shift + 1);
      var numNewDigits, pow5A, pow5B := xA / 0x800, xA % 0x800, xB % 0x800;
      var pow5 := Row(shift);
      var i, n := 0, pow5B - pow5A;
      ghost var d := Digits();
      RowLayout(shift);
      while i < n
        invariant 0 <= i <= n
        invariant i <= numDigits && d[..i] == pow5[..i]
      {
        if i >= numDigits {
          GrowthBelow(d, shift, i);
          return numNewDigits - 1;
        } else if digits[i] < pow5[i] {
          GrowthBelow(d, shift, i);
          return numNewDigits - 1;
        } else if digits[i] > pow5[i] {
          GrowthAbove(d, shift, i);
          return numNewDigits;
        }
        assert d[..i + 1] == d[..i] + [d[i]] == pow5[..i] + [pow5[i]] == pow5[..i + 1];
        i := i + 1;
      }
      GrowthAbove(d, shift, i);
      return numNewDigits;
    }

    /** Writes one digit if its place is inside the buffer, and records a lost non-zero digit. */
    method Emit(writeIndex: U32, digit: Byte)
      requires digits.Length == MAX_DIGITS
      modifies this`truncated, digits
      ensures writeIndex < MAX_DIGITS ==>
        digits[..] == old(digits[..])[writeIndex := digit] && truncated == old(truncated)
      ensures writeIndex >= MAX_DIGITS ==>
        digits[..] == old(digits[..]) && truncated == (old(truncated) || digit > 0)
    {
      if writeIndex < MAX_DIGITS {
        digits[writeIndex] := digit;
      } else if digit > 0 {
        truncated := true;
      }
    }

    /** Writes the last digit of the carry in front of the output. */
    method EmitLast(n: U64, writeIndex: U32, ghost out: seq<int>, ghost end: nat, ghost was: bool)
      returns (quotient: U64, ghost out': seq<int>)
      requires digits.Length == MAX_DIGITS && |out| < end && writeIndex == WriteIndex(end, |out|)
      requires IsDigits(out) && Emitted(digits[..], truncated, out, end, was)
      modifies this`truncated, digits
      ensures quotient == n / 10 && |out'| == |out| + 1
      ensures IsDigits(out') && Emitted(digits[..], truncated, out', end, was)
      ensures Product(out', quotient) == Product(out, n)
      ensures forall k :: 0 <= k < MAX_DIGITS && k != end - 1 - |out| ==> digits[k] == old(digits[k])
    {
      hide Pow, Numeral, Product, Emitted, IsDigits;
      quotient := n / 10;
      var remainder := n - 10 * quotient;
      EmitCarry(out, n);
      ghost var buffer, flag := digits[..], truncated;
      Emit(writeIndex, remainder);
      EmittedCons(buffer, flag, out, end, was, remainder, digits[..], truncated);
      assert forall k :: 0 <= k < MAX_DIGITS && k != end - 1 - |out| ==> digits[..][k] == buffer[k];
      out' := [remainder] + out;
    }

    /** The two digit loops of a left shift: the product replaces the digits from the last place
        to the first, and `out` is what an unbounded buffer would hold. */
    method MultiplyDigits(shift: nat, numNewDigits: nat) returns (ghost out: seq<int>)
      requires Valid() && numDigits > 0 && shift <= MAX_SHIFT && numNewDigits <= 19
      requires IsGrowth(Digits(), shift, numNewDigits)
      modifies this`truncated, digits
      ensures IsDigits(out) && |out| <= numDigits + numNewDigits
      ensures Emitted(digits[..], truncated, out, numDigits + numNewDigits, old(truncated))
      ensures Product(out, 0) == Shl(Numeral(old(Digits())), shift)
    {
      hide Pow, Numeral, Product, Emitted, Shl, IsDigits, IsGrowth;
      ghost var d, was := Digits(), truncated;
      ghost var end := numDigits + numNewDigits;
      var readIndex := numDigits - 1;
      var writeIndex: U32 := numDigits - 1 + numNewDigits;
      var n: U64 := 0;
      out := [];
      EmptyOutput(d, shift, digits[..], truncated, end);
      while readIndex >= 0
        invariant -1 <= readIndex < |d| && |out| == |d| - 1 - readIndex
        invariant writeIndex == WriteIndex(end, |out|)
        invariant digits[..readIndex + 1] == d[..readIndex + 1]
        invariant 0 <= n < Shl(1, shift)
        invariant IsDigits(out) && Emitted(digits[..], truncated, out, end, was)
        invariant Product(out, n) == Shl(Numeral(d[readIndex + 1..]), shift)
      {
        assert digits[readIndex] == d[readIndex];
        LeftStep(d, readIndex, shift, out, n);
        n, out := EmitLast(n + Shl(digits[readIndex], shift), writeIndex, out, end, was);
        writeIndex := Pred32(writeIndex);
        readIndex := readIndex - 1;
      }
      assert d[0..] == d;
      while n > 0
        invariant 0 <= n < Shl(1, shift) && |out| <= end
        invariant writeIndex == WriteIndex(end, |out|)
        invariant IsDigits(out) && Emitted(digits[..], truncated, out, end, was)
        invariant Product(out, n) == Shl(Numeral(d), shift)
      {
        CarryFits(d, shift, numNewDigits, out, n);
        n, out := EmitLast(n, writeIndex, out, end, was);
        writeIndex := Pred32(writeIndex);
      }
    }

    /** Multiplies by 2^shift in place. */
    method LeftShift(shift: nat)
      requires Valid() && shift <= MAX_SHIFT
      modifies this`numDigits, this`decimalPoint, this`truncated, digits
      ensures Valid()
      ensures old(numDigits) == 0 ==>
        numDigits == 0 && decimalPoint == old(decimalPoint) && truncated == old(truncated)
      ensures old(numDigits) > 0 ==>
        && numDigits > 0
        && Holds(Shifted(old(Value()), shift))
        && (truncated <==> old(truncated) || Value() != Shifted(old(Value()), shift))
    {
      if numDigits == 0 {
        return;
      }
      hide Pow, Numeral, Ten, Two, Val, Product, Emitted, IsGrowth, Shifted, Shl;
      ghost var d, point, was := Digits(), decimalPoint, truncated;
      var numNewDigits := NumberOfDigitsDecimalLeftShift(shift);
      ghost var out := MultiplyDigits(shift, numNewDigits);
      LeftTotal(d, shift, numNewDigits, out);
      numDigits := numDigits + numNewDigits;
      if numDigits > MAX_DIGITS {
        numDigits := MAX_DIGITS;
      }
      decimalPoint := decimalPoint + numNewDigits;
      Trim();
      LeftValue(d, point, shift, out, decimalPoint);
      Stored(digits[..], truncated, out, was, numDigits, decimalPoint);
      assert digits[..][..numDigits] == digits[..numDigits];
    }

    /** Reads digits, and then zeros, until the first digit of the quotient stands in the upper part
        of n. Stops with n == 0 if there is nothing to divide. */
    method FirstDigit(shift: nat) returns (n: U64, readIndex: U32)
      requires Valid() && shift <= MAX_SHIFT
      ensures numDigits == 0 ==> n == 0
      ensures numDigits > 0 ==>
        readIndex >= 1 && n == Prefix(Digits(), readIndex) && Shl(1, shift) <= n < 10 * Shl(1, shift)
    {
      hide Pow, Numeral, Shl, Shr, Prefix;
      ghost var d := Digits();
      n, readIndex := 0, 0;
      OneShifted(shift);
      PrefixStart(d);
      while Shr(n, shift) == 0
        invariant readIndex <= numDigits
        invariant 0 <= n < 10 * Shl(1, shift) && n == Prefix(d, readIndex)
        decreases numDigits - readIndex
      {
        ShrZero(n, shift);
        if readIndex < numDigits {
          assert digits[readIndex] == d[readIndex];
          PrefixStep(d, readIndex);
          n := 10 * n + digits[readIndex];
          readIndex := readIndex + 1;
        } else if n == 0 {
          PrefixPositive(d);
          return;
        } else {
          ShlZero(1);
          while Shr(n, shift) == 0
            invariant numDigits <= readIndex <= numDigits + shift && Shl(1, readIndex - numDigits) <= n
            invariant 0 < n < 10 * Shl(1, shift) && n == Prefix(d, readIndex)
                decreases Shl(1, shift) - n
          {
            ShrZero(n, shift);
            PrefixStep(d, readIndex);
            TenfoldDoubles(n, readIndex - numDigits, shift);
            n := 10 * n;
            readIndex := readIndex + 1;
          }
          break;
        }
      }
      ShrPositive(n, shift);
    }

    /** Divides by 2^shift in place, from the first digit to the last. */
    method RightShift(shift: int)
      requires Valid() && 0 <= shift <= MAX_SHIFT
      modifies this, digits
      ensures Valid()
      ensures old(numDigits) == 0 ==>
        numDigits == 0 && decimalPoint == old(decimalPoint)
        && truncated == old(truncated) && negative == old(negative)
      ensures old(numDigits) > 0 && Shifted(old(Value()), -shift) < Ten(-DECIMAL_POINT_RANGE - 1) ==>
        numDigits == 0 && decimalPoint == 0 && !truncated && !negative
      ensures old(numDigits) > 0 && Shifted(old(Value()), -shift) >= Ten(-DECIMAL_POINT_RANGE - 1) ==>
        && numDigits > 0 && negative == old(negative)
        && Holds(Shifted(old(Value()), -shift))
        && (truncated <==> old(truncated) || Value() != Shifted(old(Value()), -shift))
    {
      hide Pow, Numeral, Ten, Two, Val, Emitted, Shifted, Shl, Shr, Prefix, Quotient;
      ghost var d, point := Digits(), decimalPoint;
      var n, readIndex := FirstDigit(shift);
      if n == 0 {
        return;
      }
      RightRange(d, point, shift, readIndex, n);
      decimalPoint := decimalPoint - (readIndex - 1);
      if decimalPoint < -DECIMAL_POINT_RANGE {
        TenMono(decimalPoint, -DECIMAL_POINT_RANGE - 1);
        numDigits, decimalPoint, negative, truncated := 0, 0, false, false;
        return;
      }
      ghost var out := DivideDigits(shift, n, readIndex);
      RightValue(d, point, shift, out, readIndex);
      ValRange(out, decimalPoint);
      TenMono(-DECIMAL_POINT_RANGE - 1, decimalPoint - 1);
      Trim();
      Stored(digits[..], truncated, out, old(truncated), numDigits, decimalPoint);
      assert digits[..][..numDigits] == digits[..numDigits];
    }

    /** The two digit loops of a right shift, entered with the first digit of the quotient ready in n. */
    method DivideDigits(shift: nat, n0: U64, firstRead: U32) returns (ghost out: seq<int>)
      requires Valid() && numDigits > 0 && shift <= MAX_SHIFT && firstRead >= 1
      requires Shl(1, shift) <= n0 < 10 * Shl(1, shift) && n0 == Prefix(Digits(), firstRead)
      modifies this`numDigits, this`truncated, digits
      ensures IsDigits(out) && out != [] && out[0] != 0
      ensures Emitted(digits[..], truncated, out, |out|, old(truncated))
      ensures numDigits == if |out| < MAX_DIGITS then |out| else MAX_DIGITS
      ensures firstRead + |out| >= old(numDigits)
      ensures Quotient(out, 0, shift) == Prefix(old(Digits()), firstRead + |out|)
    {
      hide Pow, Numeral, Emitted, Shl, Shr, Prefix, Quotient;
      ghost var d, was := Digits(), truncated;
      var n, readIndex, writeIndex: U32 := n0, firstRead, 0;
      out := [];
      OneShifted(shift);
      EmptyQuotient(n, shift, digits[..], truncated);
      while readIndex < numDigits
        invariant numDigits == |d| && readIndex == firstRead + |out| && writeIndex == |out|
        invariant readIndex <= numDigits || out == []
        invariant truncated == was
        invariant forall k :: readIndex <= k < numDigits ==> digits[k] == d[k]
        invariant 0 <= n < 10 * Shl(1, shift)
        invariant if out == [] then n >= Shl(1, shift) else out[0] != 0
        invariant IsDigits(out) && Emitted(digits[..], truncated, out, |out|, was)
        invariant Quotient(out, n, shift) == Prefix(d, readIndex)
      {
        DivideStep(out, n, shift, digits[readIndex]);
        PrefixStep(d, readIndex);
        var newDigit := Shr(n, shift);
        n := 10 * LowBits(n, shift) + digits[readIndex];
        readIndex := readIndex + 1;
        ghost var buffer := digits[..];
        digits[writeIndex] := newDigit;
        EmittedSnoc(buffer, truncated, out, was, newDigit, digits[..], truncated);
        writeIndex := writeIndex + 1;
        out := out + [newDigit];
      }
      writeIndex, out := DivideTail(shift, n, firstRead, writeIndex, out, d, was);
      numDigits := writeIndex;
    }

    /** The digits behind the last one read; each pass gains a factor of two in what is left. */
    method DivideTail(shift: nat, n0: int, firstRead: U32, start: U32, ghost out0: seq<int>, ghost d: seq<int>,
      ghost was: bool)
      returns (writeIndex: U32, ghost out: seq<int>)
      requires digits.Length == MAX_DIGITS && shift <= MAX_SHIFT && firstRead >= 1 && IsDigits(d)
      requires firstRead + |out0| >= |d| && start == if |out0| < MAX_DIGITS then |out0| else MAX_DIGITS
      requires 0 <= n0 < 10 * Shl(1, shift) && (if out0 == [] then n0 >= Shl(1, shift) else out0[0] != 0)
      requires IsDigits(out0) && Emitted(digits[..], truncated, out0, |out0|, was)
      requires Quotient(out0, n0, shift) == Prefix(d, firstRead + |out0|)
      modifies this`truncated, digits
      ensures firstRead + |out| >= |d| && writeIndex == if |out| < MAX_DIGITS then |out| else MAX_DIGITS
      ensures IsDigits(out) && out != [] && out[0] != 0
      ensures Emitted(digits[..], truncated, out, |out|, was)
      ensures Quotient(out, 0, shift) == Prefix(d, firstRead + |out|)
    {
      hide Pow, Numeral, Emitted, Shl, Shr, Prefix, Quotient;
      OneShifted(shift);
      var n := n0;
      writeIndex, out := start, out0;
      ghost var zeros := 0;
      LowZerosStart(n);
      while n > 0
        invariant firstRead + |out| >= |d| && writeIndex == if |out| < MAX_DIGITS then |out| else MAX_DIGITS
        invariant 0 <= n < 10 * Shl(1, shift) && zeros <= shift && LowZeros(n, zeros)
        invariant if out == [] then n >= Shl(1, shift) else out[0] != 0
        invariant IsDigits(out) && Emitted(digits[..], truncated, out, |out|, was)
        invariant Quotient(out, n, shift) == Prefix(d, firstRead + |out|)
        decreases if n == 0 then 0 else shift + 1 - zeros
      {
        DivideStep(out, n, shift, 0);
        PrefixStep(d, firstRead + |out|);
        LowZerosGrow(n, zeros, shift);
        var newDigit := Shr(n, shift);
        n := 10 * LowBits(n, shift);
        ghost var buffer, flag := digits[..], truncated;
        Emit(writeIndex, newDigit);
        EmittedSnoc(buffer, flag, out, was, newDigit, digits[..], truncated);
        if writeIndex < MAX_DIGITS {
          writeIndex := writeIndex + 1;
        }
        out := out + [newDigit];
        zeros := if zeros < shift then zeros + 1 else zeros;
      }
    }

    /** Rounds to the nearest integer, ties to even; cut-off digits break a tie upwards. */
    method Round() returns (n: U64)
      requires Valid()
      ensures numDigits == 0 || decimalPoint <= 18 ==> n == NearestInteger(Value(), truncated)
      ensures numDigits > 0 && decimalPoint > 18 ==> n == U64_MAX
    {
      hide Numeral, Pow, Ten, Prefix, NearestInteger, Val;
      ghost var d := Digits();
      if numDigits == 0 || decimalPoint < 0 {
        RoundsToZero(d, decimalPoint, truncated);
        return 0;
      } else if decimalPoint > 18 {
        return U64_MAX;
      }
      var dp := decimalPoint;
      n := 0;
      PrefixStart(d);
      for i := 0 to dp
        invariant n == Prefix(d, i)
      {
        PrefixStep(d, i);
        PrefixSmall(d, i + 1);
        assert i < numDigits ==> digits[i] == d[i];
        n := 10 * n + if i < numDigits then digits[i] else 0;
      }
      var roundUp := false;
      if dp < numDigits {
        assert digits[dp] == d[dp];
        roundUp := digits[dp] >= 5;
        if digits[dp] == 5 && dp + 1 == numDigits {
          roundUp := truncated || (dp > 0 && digits[dp - 1] % 2 == 1);
        }
      }
      assert dp > 0 && dp <= numDigits ==> digits[dp - 1] == d[dp - 1];
      PrefixSmall(d, dp);
      RoundCorrect(d, dp, truncated);
      if roundUp {
        n := n + 1;
      }
    }
  }

  // The virtual output of a shift ---------------------------------------------------------------

  /** The place that receives the next digit when `done` of `end` digits are written from the right. */
  function WriteIndex(end: nat, done: nat): int {
    if done < end then end - done - 1 else 0xFFFF_FFFF
  }

  /** The places end-|out| .. end-1 of the buffer carry out; places beyond the buffer are
      remembered only in the truncation flag. */
  ghost predicate Emitted(buffer: seq<Byte>, truncated: bool, out: seq<int>, end: nat, was: bool) {
    && |buffer| == MAX_DIGITS && |out| <= end
    && (forall t :: 0 <= t < |out| && end - |out| + t < MAX_DIGITS ==> buffer[end - |out| + t] == out[t])
    && (truncated <==> was || exists t :: 0 <= t < |out| && end - |out| + t >= MAX_DIGITS && out[t] > 0)
  }

  /** The digits written so far with the carry in front of them. */
  ghost function Product(out: seq<int>, n: int): int {
    Numeral(out) + n * Pow(10, |out|)
  }

  /** Where the packed entries put a row, and how large a growth can be. */
  lemma RowLayout(shift: nat)
    requires shift <= MAX_SHIFT
    ensures |Row(shift)| == Packed(shift + 1) % 0x800 - Packed(shift) % 0x800
    ensures 0 <= Packed(shift) / 0x800 <= 19
    ensures if shift > 0 then 1 <= Packed(shift) / 0x800 else Packed(shift) / 0x800 == 0 && |Row(shift)| == 0
  {
    if shift > 0 {
      TableMeaning(shift);
    }
  }

  /** The bounds that make growth the number of digits gained in multiplying d by 2^shift. */
  ghost predicate IsGrowth(d: seq<int>, shift: nat, growth: int) {
    growth >= 0 && d != [] &&
    Pow(10, |d| - 1 + growth) <= Shl(Numeral(d), shift) < Pow(10, |d| + growth)
  }

  lemma LeadingNonZero(d: seq<int>)
    requires IsDigits(d) && d != [] && d[0] != 0
    ensures Pow(10, |d| - 1) <= Numeral(d) < Pow(10, |d|)
  {
    NumeralBound(d);
    NumeralLead(d);
    MulMono(Pow(10, |d| - 1), 1, d[0]);
  }

  /** Digits that compare at or above the row of 5^shift grow by the packed growth. */
  lemma GrowthAbove(d: seq<int>, shift: nat, i: nat)
    requires IsDigits(d) && d != [] && d[0] != 0 && shift <= MAX_SHIFT
    requires i <= |d| && i <= |Row(shift)| && d[..i] == Row(shift)[..i]
    requires i == |Row(shift)| || (i < |d| && d[i] > Row(shift)[i])
    ensures IsGrowth(d, shift, Packed(shift) / 0x800)
  {
    hide Table, Packed, Numeral, Row, Pow;
    LeadingNonZero(d);
    RowLayout(shift);
    if shift == 0 {
      PowZero(2);
    } else {
      var row := Row(shift);
      TableMeaning(shift);
      CompareRows(row, d, i);
      TenIsTwoFive(shift);
      ScaleAbove(Numeral(d), |d|, shift, |row|);
    }
  }

  /** Digits that compare below the row of 5^shift grow by one less. */
  lemma GrowthBelow(d: seq<int>, shift: nat, i: nat)
    requires IsDigits(d) && d != [] && d[0] != 0 && shift <= MAX_SHIFT
    requires i <= |d| && i < |Row(shift)| && d[..i] == Row(shift)[..i]
    requires i == |d| || d[i] < Row(shift)[i]
    ensures IsGrowth(d, shift, Packed(shift) / 0x800 - 1)
  {
    hide Table, Packed, Numeral, Row, Pow, IsDigits;
    RowLayout(shift);
    var row := Row(shift);
    TableMeaning(shift);
    NumeralBound(row);
    LeadingNonZero(d);
    CompareRows(d, row, i);
    TenIsTwoFive(shift);
    ScaleBelow(Numeral(d), |d|, shift, |row|);
  }

  /** The outcome of the digit loop, as a comparison of the two fractions. */
  lemma CompareRows(a: seq<int>, b: seq<int>, i: nat)
    requires IsDigits(a) && IsDigits(b)
    requires i <= |a| && i <= |b| && a[..i] == b[..i]
    requires i == |a| || (i < |b| && a[i] < b[i])
    ensures Numeral(a) * Pow(10, |b|) <= Numeral(b) * Pow(10, |a|)
    ensures i < |a| || (|a| < |b| && b[|b| - 1] > 0) ==>
      Numeral(a) * Pow(10, |b|) < Numeral(b) * Pow(10, |a|)
  {
    hide Numeral, Pow;
    if i == |a| {
      assert a <= b;
      FractionPrefix(a, b);
    } else {
      FractionLess(a, b, i);
    }
  }

  /** Multiplying by 2^s when the digits stand at or above those of 5^s. */
  lemma ScaleAbove(n: int, k: nat, s: nat, len: nat)
    requires 0 <= n < Pow(10, k)
    requires 1 <= len <= s && Pow(10, len - 1) <= Pow(5, s)
    requires Pow(10, s) == Pow(2, s) * Pow(5, s)
    requires Pow(5, s) * Pow(10, k) <= n * Pow(10, len)
    ensures k + s - len >= 0 && Pow(10, k + s - len) <= n * Pow(2, s) < Pow(10, k + s + 1 - len)
  {
    hide Pow;
    var two, five := Pow(2, s), Pow(5, s);
    PowPos(2, s);
    PowPos(10, len);
    PowPos(10, len - 1);
    PowPos(10, s);
    PowAdd(10, k, s);
    PowAdd(10, k + s - len, len);
    PowAdd(10, k + s + 1 - len, len - 1);
    assert Pow(10, k + s - len) * Pow(10, len) <= (n * two) * Pow(10, len) by {
      MulMono(two, five * Pow(10, k), n * Pow(10, len));
      MulSwap(two, five, Pow(10, k));
      MulSwap(two, n, Pow(10, len));
    }
    MulCancelLe(Pow(10, len), Pow(10, k + s - len), n * two);
    assert (n * two) * Pow(10, len - 1) < Pow(10, k + s + 1 - len) * Pow(10, len - 1) by {
      MulMono(n * two, Pow(10, len - 1), five);
      MulSwap(n, two, five);
      MulMonoStrict(Pow(10, s), n, Pow(10, k));
    }
    MulCancelLt(Pow(10, len - 1), n * two, Pow(10, k + s + 1 - len));
  }

  /** Multiplying by 2^s when the digits stand below those of 5^s. */
  lemma ScaleBelow(n: int, k: nat, s: nat, len: nat)
    requires k >= 1 && Pow(10, k - 1) <= n
    requires 1 <= len <= s && Pow(5, s) < Pow(10, len)
    requires Pow(10, s) == Pow(2, s) * Pow(5, s)
    requires n * Pow(10, len) < Pow(5, s) * Pow(10, k)
    ensures Pow(10, k - 1 + s - len) <= n * Pow(2, s) < Pow(10, k + s - len)
  {
    hide Pow;
    PowPos(2, s);
    PowPos(10, len);
    PowPos(10, k - 1);
    PowPos(10, s);
    PowAdd(10, k, s);
    PowAdd(10, k - 1, s);
    PowAdd(10, k - 1 + s - len, len);
    PowAdd(10, k + s - len, len);
    BelowUpper(n, Pow(2, s), Pow(5, s), Pow(10, len), Pow(10, k), Pow(10, k + s - len));
    BelowLower(n, Pow(2, s), Pow(5, s), Pow(10, len), Pow(10, k - 1), Pow(10, k - 1 + s - len));
  }

  lemma BelowUpper(n: int, two: int, five: int, len: int, k: int, bound: int)
    requires 0 < two && 0 < len && n * len < five * k && k * (two * five) == bound * len
    ensures n * two < bound
  {
    MulMonoStrict(two, n * len, five * k);
    MulSwap(two, five, k);
    MulSwap(two, n, len);
    MulCancelLt(len, n * two, bound);
  }

  lemma BelowLower(n: int, two: int, five: int, len: int, k: int, bound: int)
    requires 0 < two && 0 < len && 0 < k <= n && 0 < two * five && five < len && k * (two * five) == bound * len
    ensures bound <= n * two
  {
    MulMono(two * five, k, n);
    MulSwap(n, two, five);
    MulMono(n, 0, two);
    MulMono(n * two, five, len);
    MulCancelLe(len, bound, n * two);
  }

  lemma TwoToSixty(shift: nat)
    requires shift <= MAX_SHIFT
    ensures 1 <= Pow(2, shift) <= 0x1000_0000_0000_0000
  {
    assert Pow(2, 15) == 0x8000;
    hide Pow;
    PowPos(2, shift);
    PowMono(2, shift, 60);
    PowAdd(2, 15, 15);
    PowAdd(2, 30, 30);
  }

  lemma EmptyOutput(d: seq<int>, shift: nat, buffer: seq<Byte>, truncated: bool, end: nat)
    requires |buffer| == MAX_DIGITS && shift <= MAX_SHIFT
    ensures IsDigits([]) && Product([], 0) == Shl(Numeral(d[|d|..]), shift)
    ensures Emitted(buffer, truncated, [], end, truncated)
    ensures 1 <= Shl(1, shift) <= 0x1000_0000_0000_0000
  {
    TwoToSixty(shift);
  }

  /** One more digit in front of the output. */
  lemma EmittedCons(buffer: seq<Byte>, flag: bool, out: seq<int>, end: nat, was: bool, digit: Byte,
                    buffer': seq<Byte>, flag': bool)
    requires |out| < end && Emitted(buffer, flag, out, end, was)
    requires end - |out| - 1 < MAX_DIGITS ==> buffer' == buffer[end - |out| - 1 := digit] && flag' == flag
    requires end - |out| - 1 >= MAX_DIGITS ==> buffer' == buffer && flag' == (flag || digit > 0)
    ensures Emitted(buffer', flag', [digit] + out, end, was)
  {
    var out' := [digit] + out;
    assert forall t :: 0 <= t < |out| ==> out'[t + 1] == out[t];
    assert forall t :: 1 <= t < |out'| ==> out'[t] == out[t - 1];
    assert out'[0] == digit;
  }

  /** Taking the next digit into the carry. */
  lemma LeftStep(d: seq<int>, i: nat, shift: nat, out: seq<int>, n: int)
    requires i < |d| && |out| == |d| - 1 - i && IsDigits(d)
    requires 0 <= n < Shl(1, shift) && Product(out, n) == Shl(Numeral(d[i + 1..]), shift)
    ensures Product(out, n + Shl(d[i], shift)) == Shl(Numeral(d[i..]), shift)
    ensures 0 <= n + Shl(d[i], shift) < 10 * Shl(1, shift)
  {
    hide Numeral, Pow;
    assert d[i..] == [d[i]] + d[i + 1..];
    NumeralCons(d[i], d[i + 1..]);
    var two := Pow(2, shift);
    LeftStepArith(Numeral(out), n, Pow(10, |out|), d[i], two, Numeral(d[i + 1..]));
    MulMono(two, d[i], 9);
    MulMono(two, 0, d[i]);
  }

  lemma LeftStepArith(o: int, n: int, p: int, c: int, two: int, a: int)
    requires o + n * p == a * two
    ensures o + (n + c * two) * p == (c * p + a) * two
  {
    assert (n + c * two) * p == n * p + (c * two) * p;
    assert (c * p + a) * two == (c * p) * two + a * two;
    assert (c * two) * p == (c * p) * two;
  }

  /** Moving the last digit of the carry to the output keeps the product. */
  lemma EmitCarry(out: seq<int>, n: int)
    requires n >= 0 && IsDigits(out)
    ensures Product([n - 10 * (n / 10)] + out, n / 10) == Product(out, n)
    ensures 0 <= n - 10 * (n / 10) <= 9 && IsDigits([n - 10 * (n / 10)] + out)
  {
    hide Numeral;
    var q := n / 10;
    NumeralCons(n - 10 * q, out);
    var p := Pow(10, |out|);
    assert Pow(10, |out| + 1) == 10 * p;
    assert (n - 10 * q) * p + q * (10 * p) == n * p;
  }

  /** A carry that is left over still has a place to go. */
  lemma CarryFits(d: seq<int>, shift: nat, growth: nat, out: seq<int>, n: int)
    requires n > 0 && IsDigits(out) && IsGrowth(d, shift, growth)
    requires Product(out, n) == Shl(Numeral(d), shift)
    ensures |out| < |d| + growth
  {
    NumeralBound(out);
    PowPos(10, |out|);
    MulMono(Pow(10, |out|), 1, n);
    if |out| >= |d| + growth {
      PowMono(10, |d| + growth, |out|);
    }
  }

  /** The finished output fills exactly the predicted places and starts with a non-zero digit. */
  lemma LeftTotal(d: seq<int>, shift: nat, growth: nat, out: seq<int>)
    requires IsDigits(d) && IsDigits(out) && IsGrowth(d, shift, growth)
    requires Product(out, 0) == Shl(Numeral(d), shift) && |out| <= |d| + growth
    ensures |out| == |d| + growth && out[0] != 0
  {
    hide Numeral;
    NumeralBound(out);
    if |out| < |d| + growth {
      PowMono(10, |out|, |d| + growth - 1);
    }
    if out[0] == 0 {
      NumeralLead(out);
    }
  }

  lemma LeftValue(d: seq<int>, point: int, shift: nat, out: seq<int>, newPoint: int)
    requires Product(out, 0) == Shl(Numeral(d), shift) && newPoint - |out| == point - |d|
    ensures Val(out, newPoint) == Shifted(Val(d, point), shift)
  {
    hide Numeral, Pow, Ten, Two;
    TwoIsPow(shift);
    RealMul(Numeral(d), Pow(2, shift));
    RMulSwapLast(Numeral(d) as real, Two(shift), Ten(point - |d|));
  }

  /** What the buffer holds of a finished output once its final zeros are dropped. */
  lemma Stored(buffer: seq<Byte>, truncated: bool, out: seq<int>, was: bool, kept: nat, point: int)
    requires IsDigits(out) && out != [] && out[0] != 0
    requires Emitted(buffer, truncated, out, |out|, was)
    requires kept <= |out| && kept <= MAX_DIGITS
    requires forall i :: kept <= i < |out| && i < MAX_DIGITS ==> buffer[i] == 0
    ensures kept > 0 && buffer[0] != 0 && IsDigits(buffer[..kept])
    ensures Val(buffer[..kept], point) <= Val(out, point)
      < Val(buffer[..kept], point) + Ten(point - MAX_DIGITS)
    ensures truncated <==> was || Val(buffer[..kept], point) != Val(out, point)
  {
    hide Val, Ten;
    assert buffer[0] == out[0];
    var c := if |out| < MAX_DIGITS then |out| else MAX_DIGITS;
    assert forall i :: 0 <= i < c ==> buffer[i] == out[i];
    assert buffer[..kept] == out[..kept] == out[..c][..kept];
    ValPrefix(out[..c], kept, point);
    ValPrefix(out, c, point);
    TenPos(point - MAX_DIGITS);
    assert out[..|out|] == out;
  }

  // Division ------------------------------------------------------------------------------------

  /** The low `shift` bits of n. */
  function LowBits(n: int, shift: nat): int {
    n - Shl(Shr(n, shift), shift)
  }

  /** The first r digits of d as a number, continued with zeros beyond the end. */
  ghost function Prefix(d: seq<int>, r: nat): int {
    if r <= |d| then Numeral(d[..r]) else Numeral(d) * Pow(10, r - |d|)
  }

  /** The digits of the quotient so far and the running remainder. */
  ghost function Quotient(out: seq<int>, n: int, shift: nat): int {
    10 * Shl(Numeral(out), shift) + n
  }

  lemma OneShifted(shift: nat)
    requires shift <= MAX_SHIFT
    ensures 1 <= Shl(1, shift) <= 0x1000_0000_0000_0000
  {
    TwoToSixty(shift);
  }

  lemma PrefixStart(d: seq<int>)
    ensures Prefix(d, 0) == 0
  {
  }

  lemma PrefixStep(d: seq<int>, r: nat)
    ensures Prefix(d, r + 1) == 10 * Prefix(d, r) + if r < |d| then d[r] else 0
  {
    if r < |d| {
      assert d[..r + 1] == d[..r] + [d[r]];
      NumeralSnoc(d[..r], d[r]);
    } else {
      assert d[..|d|] == d;
      hide Numeral;
      assert Pow(10, r + 1 - |d|) == 10 * Pow(10, r - |d|);
      assert r == |d| ==> Pow(10, r - |d|) == 1;
    }
  }

  lemma PrefixPositive(d: seq<int>)
    requires IsDigits(d) && Prefix(d, |d|) == 0 && (d != [] ==> d[0] != 0)
    ensures d == []
  {
    assert d[..|d|] == d;
    if d != [] {
      NumeralZeros(d);
    }
  }

  lemma ShlZero(n: int)
    ensures Shl(n, 0) == n
  {
  }

  /** Padding with zeros takes fewer than `shift` steps. */
  lemma TenfoldDoubles(n: int, j: nat, shift: nat)
    requires Shl(1, j) <= n < Shl(1, shift)
    ensures j < shift && Shl(1, j + 1) <= 10 * n
  {
    if j >= shift {
      PowMono(2, shift, j);
    }
    PowPos(2, j);
  }

  lemma ShrZero(n: int, shift: nat)
    requires n >= 0
    ensures Shr(n, shift) == 0 <==> n < Shl(1, shift)
  {
    PowPos(2, shift);
  }

  lemma ShrPositive(n: int, shift: nat)
    requires n >= 0 && Shr(n, shift) != 0
    ensures n >= Shl(1, shift)
  {
    ShrZero(n, shift);
  }

  lemma EmptyQuotient(n: int, shift: nat, buffer: seq<Byte>, truncated: bool)
    requires |buffer| == MAX_DIGITS
    ensures Quotient([], n, shift) == n
    ensures Emitted(buffer, truncated, [], 0, truncated)
  {
  }

  /** One more digit behind the output. */
  lemma EmittedSnoc(buffer: seq<Byte>, flag: bool, out: seq<int>, was: bool, digit: Byte,
                    buffer': seq<Byte>, flag': bool)
    requires Emitted(buffer, flag, out, |out|, was)
    requires |out| < MAX_DIGITS ==> buffer' == buffer[|out| := digit] && flag' == flag
    requires |out| >= MAX_DIGITS ==> buffer' == buffer && flag' == (flag || digit > 0)
    ensures Emitted(buffer', flag', out + [digit], |out| + 1, was)
  {
    var out' := out + [digit];
    assert forall t :: 0 <= t < |out| ==> out'[t] == out[t];
    assert out'[|out|] == digit;
  }

  /** One division step: the next digit goes out, the remainder takes in c. */
  lemma DivideStep(out: seq<int>, n: int, shift: nat, c: int)
    requires 0 <= n < 10 * Shl(1, shift) && 0 <= c <= 9
    ensures 0 <= Shr(n, shift) <= 9 && (n >= Shl(1, shift) ==> Shr(n, shift) > 0)
    ensures 0 <= LowBits(n, shift) < Shl(1, shift)
    ensures 0 <= 10 * LowBits(n, shift) + c < 10 * Shl(1, shift)
    ensures Quotient(out + [Shr(n, shift)], 10 * LowBits(n, shift) + c, shift)
      == 10 * Quotient(out, n, shift) + c
  {
    hide Numeral, Pow;
    PowPos(2, shift);
    var two, q := Pow(2, shift), Shr(n, shift);
    NumeralSnoc(out, q);
    DivFacts(n, two);
    assert (10 * Numeral(out) + q) * two == 10 * (Numeral(out) * two) + q * two;
  }

  lemma DivFacts(n: int, two: int)
    requires 0 < two && 0 <= n < 10 * two
    ensures 0 <= n / two <= 9 && (n >= two ==> n / two > 0)
    ensures 0 <= n - n / two * two < two
  {
    var q := n / two;
    assert n == q * two + n % two;
    if q >= 10 {
      MulMono(two, 10, q);
    }
    if n >= two && q <= 0 {
      MulMono(two, q, 0);
    }
    if q < 0 {
      MulMono(two, q, -1);
    }
  }

  /** 2^zeros divides n. */
  ghost predicate LowZeros(n: int, zeros: nat) {
    exists m :: n == Shl(m, zeros)
  }

  lemma LowZerosStart(n: int)
    ensures LowZeros(n, 0)
  {
    assert n == Shl(n, 0);
  }

  /** Ten times the low part gains a factor of two, which is what ends the tail of a right shift. */
  lemma LowZerosGrow(n: int, zeros: nat, shift: nat)
    requires 0 <= n && zeros <= shift && LowZeros(n, zeros)
    ensures zeros < shift ==> LowZeros(10 * LowBits(n, shift), zeros + 1)
    ensures zeros == shift ==> LowBits(n, shift) == 0 && LowZeros(0, zeros)
  {
    hide Pow;
    var m :| n == Shl(m, zeros);
    var q, rest := Shr(n, shift), Pow(2, shift - zeros);
    PowAdd(2, shift - zeros, zeros);
    PowPos(2, zeros);
    MulAssoc(q, rest, Pow(2, zeros));
    if zeros < shift {
      PowStep(2, zeros);
      assert 10 * LowBits(n, shift) == Shl(5 * (m - q * rest), zeros + 1) by {
        FactorOut(m, q * rest, Pow(2, zeros));
      }
    } else {
      ExactDiv(m, Pow(2, zeros));
      assert 0 == Shl(0, zeros);
    }
  }

  lemma FactorOut(m: int, k: int, two: int)
    ensures 10 * (m * two - k * two) == 5 * (m - k) * (2 * two)
  {
  }

  lemma MulAssoc(x: int, y: int, z: int)
    ensures x * (y * z) == (x * y) * z
  {
  }

  lemma ExactDiv(m: int, two: int)
    requires 0 < two
    ensures m * two / two == m
  {
    var q, r := m * two / two, m * two % two;
    assert (m - q) * two == r;
    if m - q > 0 {
      MulMono(two, 1, m - q);
    } else if m - q < 0 {
      MulMono(two, m - q, -1);
    }
  }

  /** The finished quotient denotes the old value divided by 2^shift. */
  lemma RightValue(d: seq<int>, point: int, shift: int, out: seq<int>, firstRead: nat)
    requires shift >= 0 && firstRead + |out| >= |d|
    requires Quotient(out, 0, shift) == Prefix(d, firstRead + |out|)
    ensures Val(out, point - (firstRead - 1)) == Shifted(Val(d, point), -shift)
  {
    hide Numeral, Pow, Ten, Two;
    var r := firstRead + |out|;
    assert d[..|d|] == d;
    PrefixPast(d, r);
    var o, n, two, e := Numeral(out), Numeral(d), Pow(2, shift), point - r;
    TwoIsPow(shift);
    TwoAdd(shift, -shift);
    TwoZero();
    TenSplit(r - |d|, e);
    TenStep(e);
    RightArith(o, n, two, Pow(10, r - |d|), Two(shift), Two(-shift), Ten(e), Ten(e + 1), Ten(point - |d|));
  }

  lemma RightArith(o: int, n: int, two: int, p: int, t: real, t': real, u: real, u10: real, v: real)
    requires 10 * (o * two) == n * p
    requires t == two as real && t * t' == 1.0 && u10 == 10.0 * u && p as real * u == v
    ensures o as real * u10 == (n as real * v) * t'
  {
    RealMul(o, two);
    RealMul(n, p);
    var x, y := o as real, n as real;
    assert 10.0 * (x * t) == y * p as real;
    RMulAssoc(y, p as real, u);
    assert y * v == (10.0 * (x * t)) * u;
    RightArith2(x, t, u, t');
  }

  lemma RightArith2(x: real, t: real, u: real, t': real)
    requires t * t' == 1.0
    ensures ((10.0 * (x * t)) * u) * t' == x * (10.0 * u)
  {
    var z := x * u;
    assert (10.0 * (x * t)) * u == (10.0 * z) * t;
    RMulAssoc(10.0 * z, t, t');
  }

  lemma PrefixPast(d: seq<int>, r: nat)
    requires r >= |d|
    ensures Prefix(d, r) == Numeral(d) * Pow(10, r - |d|)
  {
    if r == |d| {
      assert d[..r] == d;
    }
  }

  /** How large the quotient is, known once its first digit is found. */
  lemma RightRange(d: seq<int>, point: int, shift: int, r: nat, n: int)
    requires shift >= 0 && IsDigits(d) && n == Prefix(d, r) && n < 10 * Shl(1, shift)
    ensures Shifted(Val(d, point), -shift) < Ten(point - r + 1)
  {
    hide Numeral, Pow, Ten, Two;
    PrefixAbove(d, point, r);
    var v, u, two := Val(d, point), Ten(point - r), Pow(2, shift);
    TenPos(point - r);
    TenStep(point - r);
    TwoIsPow(shift);
    TwoAdd(shift, -shift);
    TwoZero();
    TwoPos(-shift);
    RMulMono(u, (n + 1) as real, (10 * two) as real);
    RMulMonoStrict(Two(-shift), v, (10 * two) as real * u);
    RightRangeArith(two as real, Two(-shift), u);
  }

  lemma RightRangeArith(t: real, t': real, u: real)
    requires t * t' == 1.0
    ensures ((10.0 * t) * u) * t' == 10.0 * u
  {
    assert (10.0 * t) * u == (10.0 * u) * t;
    RMulAssoc(10.0 * u, t, t');
  }

  lemma PrefixAbove(d: seq<int>, point: int, r: nat)
    requires IsDigits(d)
    ensures Val(d, point) < (Prefix(d, r) + 1) as real * Ten(point - r)
  {
    TenPos(point - r);
    hide Numeral, Pow, Ten;
    if r <= |d| {
      ValPrefix(d, r, point);
      RMulSplit(Prefix(d, r) as real, Ten(point - r));
    } else {
      TenSplit(r - |d|, point - r);
      RealMul(Numeral(d), Pow(10, r - |d|));
      RMulAssoc(Numeral(d) as real, Pow(10, r - |d|) as real, Ten(point - r));
      RMulSplit(Prefix(d, r) as real, Ten(point - r));
    }
  }

  lemma RMulSplit(x: real, u: real)
    ensures (x + 1.0) * u == x * u + u
  {
  }

  // Rounding ------------------------------------------------------------------------------------

  lemma {:induction false} PrefixSmall(d: seq<int>, r: nat)
    requires IsDigits(d) && r <= 18
    ensures 0 <= Prefix(d, r) < 1000000000000000000
  {
    PowMono(10, r, 18);
    PowAdd(10, 9, 9);
    if r <= |d| {
      NumeralBound(d[..r]);
    } else {
      NumeralBound(d);
      PowAdd(10, |d|, r - |d|);
      PowPos(10, r - |d|);
      PrefixSmallArith(Numeral(d), Pow(10, |d|), Pow(10, r - |d|));
    }
  }

  lemma PrefixSmallArith(n: int, p: int, q: int)
    requires 0 <= n < p && 0 < q
    ensures 0 <= n * q < p * q
  {
    MulMono(q, 0, n);
    MulMonoStrict(q, n, p);
  }

  lemma RoundsToZero(d: seq<int>, point: int, more: bool)
    requires IsDigits(d) && (d == [] || (d[0] != 0 && point < 0))
    ensures NearestInteger(Val(d, point), more) == 0
  {
    if d == [] {
    } else {
      hide Numeral, Ten;
      ValRange(d, point);
      TenMono(point, -1);
      TenPos(point - 1);
      TenStep(-1);
      TenZero();
    }
  }

  /** The digit behind the decimal point, and whether anything follows it, decide the rounding. */
  lemma RoundCorrect(d: seq<int>, dp: nat, more: bool)
    requires IsDigits(d) && d != [] && (more || d[|d| - 1] != 0)
    ensures NearestInteger(Val(d, dp), more) ==
      Prefix(d, dp) + if
          dp < |d| && (if d[dp] == 5 && dp + 1 == |d| then more || (dp > 0 && d[dp - 1] % 2 == 1) else d[dp] >= 5)
        then 1 else 0
  {
    hide Val, Prefix, Numeral, Ten, Pow, NearestInteger;
    if dp >= |d| {
      WholeValue(d, dp);
      NearestIs(Val(d, dp), Prefix(d, dp), more);
    } else {
      FractionValue(d, dp);
      PrefixParity(d, dp);
      NearestIs(Val(d, dp), Prefix(d, dp), more);
    }
  }

  lemma PrefixParity(d: seq<int>, dp: nat)
    requires dp <= |d|
    ensures Prefix(d, dp) % 2 == if dp > 0 then d[dp - 1] % 2 else 0
  {
    hide Prefix;
    if dp > 0 {
      PrefixStep(d, dp - 1);
    } else {
      PrefixStart(d);
    }
  }

  lemma NearestIs(x: real, n: int, more: bool)
    requires 0.0 <= x - n as real < 1.0
    ensures NearestInteger(x, more) ==
      if x - n as real > 0.5 || (x - n as real == 0.5 && (more || n % 2 == 1)) then n + 1 else n
  {
    assert x.Floor == n;
  }

  lemma WholeValue(d: seq<int>, dp: nat)
    requires dp >= |d|
    ensures Val(d, dp) == Prefix(d, dp) as real
  {
    hide Numeral, Pow, Ten;
    PrefixPast(d, dp);
    TenIsPow(dp - |d|);
    RealMul(Numeral(d), Pow(10, dp - |d|));
  }

  /** The part behind the decimal point against one half. */
  lemma FractionValue(d: seq<int>, dp: nat)
    requires IsDigits(d) && dp < |d|
    ensures var rest := Val(d, dp) - Prefix(d, dp) as real;
      && 0.0 <= rest < 1.0
      && (rest >= 0.5 <==> d[dp] >= 5)
      && (d[|d| - 1] != 0 ==> (rest == 0.5 <==> d[dp] == 5 && dp + 1 == |d|))
  {
    hide Numeral, Pow, Ten;
    var b := d[dp..];
    ValSplit(d, dp);
    ValLead(b, 0);
    TenStep(-1);
    TenZero();
    TenPos(0 - |b|);
    assert Ten(-1) == 0.1;
    assert b[0] as real * 0.1 <= Val(b, 0) < (b[0] as real + 1.0) * 0.1;
    assert |b| == |d| - dp && b[0] == d[dp] && b[|b| - 1] == d[|d| - 1];
    if d[dp] == 5 {
      ValPrefix(b, 1, 0);
      assert b[..1] == [5];
      NumeralOne(5);
      assert Val(b[..1], 0) == 0.5;
    }
  }

  lemma ValSplit(d: seq<int>, dp: nat)
    requires dp < |d|
    ensures Val(d, dp) == Prefix(d, dp) as real + Val(d[dp..], 0)
  {
    hide Numeral, Pow, Ten;
    var b := d[dp..];
    assert d == d[..dp] + b;
    NumeralAppend(d[..dp], b);
    TenSplit(|b|, dp - |d|);
    TenZero();
    RealMul(Numeral(d[..dp]), Pow(10, |b|));
    RMulAssoc(Numeral(d[..dp]) as real, Pow(10, |b|) as real, Ten(dp - |d|));
  }
}
