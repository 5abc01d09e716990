/** The canonical code of a two-coloured structure: the least code over the symmetries of the reference structure. */
module AlloyCode {
  import opened Bits

  /** The value before any symmetry was tried. */
  const NO_CODE: nat := 0xFFFFFFFF

  /** Every number below n stands in the mapping exactly once. */
  ghost predicate IsPermutation(m: seq<int>, n: nat) {
    && |m| == n && (forall i :: 0 <= i < n ==> 0 <= m[i] < n)
    && (forall i, j :: 0 <= i < j < n ==> m[i] != m[j])
    && (forall k :: 0 <= k < n ==> k in m)
  }

  predicate IsBinary(b: seq<int>, n: nat) {
    |b| == n && forall i :: 0 <= i < n ==> b[i] == 0 || b[i] == 1
  }

  function IndexOf(m: seq<int>, k: int): (i: nat)
    requires k in m
    ensures i < |m| && m[i] == k
  {
    if m[0] == k then 0 else 1 + IndexOf(m[1..], k)
  }

  /** The colouring carried along by the mapping: the colour of i goes to place m[i]. */
  ghost function Act(m: seq<int>, b: seq<int>): seq<int>
    requires IsPermutation(m, |b|)
  {
    seq(|b|, k requires 0 <= k < |b| => b[IndexOf(m, k)])
  }

  /** The colouring as a number, place i giving bit i. */
  function Code(b: seq<int>): (c: int) {
    if b == [] then 0 else Code(b[..|b| - 1]) + b[|b| - 1] * Pow2(|b| - 1)
  }

  ghost function MinCode(mappings: seq<seq<int>>, b: seq<int>): int
    requires AllPermutations(mappings, |b|)
  {
    if mappings == [] then NO_CODE else
      var least := MinCode(mappings[..|mappings| - 1], b);
      var code := Code(Act(mappings[|mappings| - 1], b));
      if code < least then code else least
  }

  ghost predicate AllPermutations(mappings: seq<seq<int>>, n: nat) {
    forall j :: 0 <= j < |mappings| ==> IsPermutation(mappings[j], n)
  }

  /** r is q followed by p. */
  ghost predicate Composes(p: seq<int>, q: seq<int>, r: seq<int>) {
    |r| == |q| && forall i :: 0 <= i < |q| ==> 0 <= q[i] < |p| && r[i] == p[q[i]]
  }

  ghost predicate HasProduct(mappings: seq<seq<int>>, p: seq<int>, q: seq<int>) {
    exists k :: 0 <= k < |mappings| && Composes(p, q, mappings[k])
  }

  /** Some mapping takes everything back to where it came from. */
  ghost predicate HasInverse(mappings: seq<seq<int>>, q: seq<int>) {
    exists l :: 0 <= l < |mappings| && Inverts(mappings[l], q)
  }

  ghost predicate Inverts(p: seq<int>, q: seq<int>) {
    forall i :: 0 <= i < |q| ==> 0 <= q[i] < |p| && p[q[i]] == i
  }

  /** The mappings form a group of permutations. */
  ghost predicate IsGroup(mappings: seq<seq<int>>, n: nat) {
    && mappings != [] && AllPermutations(mappings, n)
    && (forall j, l {:trigger HasProduct(mappings, mappings[j], mappings[l])} ::
          0 <= j < |mappings| && 0 <= l < |mappings| ==> HasProduct(mappings, mappings[j], mappings[l]))
    && (forall j {:trigger HasInverse(mappings, mappings[j])} :: 0 <= j < |mappings| ==>
          HasInverse(mappings, mappings[j]))
  }

  // Carrying colours ---------------------------------------------------------------------------------------

  /** Only one colouring has the colour of i at place m[i] for every i. */
  lemma ActIs(m: seq<int>, b: seq<int>, t: seq<int>)
    requires IsPermutation(m, |b|) && |t| == |b| && forall i :: 0 <= i < |b| ==> t[m[i]] == b[i]
    ensures t == Act(m, b)
  {
    forall k | 0 <= k < |t| ensures t[k] == Act(m, b)[k] {
      assert m[IndexOf(m, k)] == k;
    }
  }

  lemma ActAt(m: seq<int>, b: seq<int>, i: int)
    requires IsPermutation(m, |b|) && 0 <= i < |b|
    ensures Act(m, b)[m[i]] == b[i]
  {
    Same(m, IndexOf(m, m[i]), i, |b|);
  }

  lemma Same(m: seq<int>, i: int, j: int, n: nat)
    requires IsPermutation(m, n) && 0 <= i < n && 0 <= j < n && m[i] == m[j]
    ensures i == j
  {
  }

  lemma ActCompose(p: seq<int>, q: seq<int>, r: seq<int>, b: seq<int>)
    requires IsPermutation(p, |b|) && IsPermutation(q, |b|) && IsPermutation(r, |b|) && Composes(p, q, r)
    ensures Act(p, Act(q, b)) == Act(r, b)
  {
    var t := Act(p, Act(q, b));
    forall i | 0 <= i < |b| ensures t[r[i]] == b[i] {
      ActAt(p, Act(q, b), q[i]);
      ActAt(q, b, i);
    }
    ActIs(r, b, t);
  }

  lemma ActInverse(p: seq<int>, q: seq<int>, b: seq<int>)
    requires IsPermutation(p, |b|) && IsPermutation(q, |b|) && Inverts(p, q)
    ensures Act(p, Act(q, b)) == b
  {
    var t := Act(p, Act(q, b));
    forall k | 0 <= k < |b| ensures t[k] == b[k] {
      ActAt(p, Act(q, b), q[k]);
      ActAt(q, b, k);
    }
  }

  lemma ActBinary(m: seq<int>, b: seq<int>)
    requires IsPermutation(m, |b|) && IsBinary(b, |b|)
    ensures IsBinary(Act(m, b), |b|)
  {
  }

  // Codes --------------------------------------------------------------------------------------------------

  lemma {:induction false} CodeRange(b: seq<int>)
    requires IsBinary(b, |b|)
    ensures 0 <= Code(b) < Pow2(|b|)
  {
    if b != [] {
      CodeRange(b[..|b| - 1]);
    }
  }

  lemma OneBit(x: int, a: int, y: int, b: int, p: int)
    requires 0 <= x < p && 0 <= y < p && 0 <= a <= 1 && 0 <= b <= 1 && x + a * p == y + b * p
    ensures a == b && x == y
  {
  }

  /** Different colourings have different codes. */
  lemma {:induction false} CodeInjective(b: seq<int>, c: seq<int>)
    requires IsBinary(b, |b|) && IsBinary(c, |b|) && Code(b) == Code(c)
    ensures b == c
  {
    if b != [] {
      var less, less2 := b[..|b| - 1], c[..|b| - 1];
      CodeSplits(b);
      CodeSplits(c);
      hide *;
      CodeRange(less);
      CodeRange(less2);
      OneBit(Code(less), b[|b| - 1], Code(less2), c[|b| - 1], Pow2(|less|));
      CodeInjective(less, less2);
      assert b == less + [b[|b| - 1]] && c == less2 + [c[|b| - 1]];
    }
  }

  lemma CodeSplits(b: seq<int>)
    requires IsBinary(b, |b|) && b != []
    ensures IsBinary(b[..|b| - 1], |b| - 1) && 0 <= b[|b| - 1] <= 1
    ensures Code(b) == Code(b[..|b| - 1]) + b[|b| - 1] * Pow2(|b| - 1)
  {
  }

  lemma Fewer(mappings: seq<seq<int>>, n: nat)
    requires AllPermutations(mappings, n) && mappings != []
    ensures AllPermutations(mappings[..|mappings| - 1], n) && IsPermutation(mappings[|mappings| - 1], n)
  {
  }

  lemma {:induction false} MinIsLeast(mappings: seq<seq<int>>, b: seq<int>, j: int)
    requires 0 <= j < |mappings| && AllPermutations(mappings, |b|)
    ensures IsPermutation(mappings[j], |b|) && MinCode(mappings, b) <= Code(Act(mappings[j], b))
  {
    if j < |mappings| - 1 {
      Fewer(mappings, |b|);
      MinIsLeast(mappings[..|mappings| - 1], b, j);
    }
  }

  lemma BelowNoCode(t: seq<int>)
    requires IsBinary(t, |t|) && |t| <= 31
    ensures Code(t) < NO_CODE
  {
    CodeRange(t);
    Pow2Monotone(|t|, 31);
    assert Pow2(31) == 0x80000000 by {
      assert Pow2(8) == 256;
      assert Pow2(16) == 65536;
      assert Pow2(24) == 16777216;
    }
  }

  lemma {:induction false} MinIsReached(mappings: seq<seq<int>>, b: seq<int>) returns (j: int)
    requires |mappings| > 0 && IsBinary(b, |b|) && |b| <= 31 && AllPermutations(mappings, |b|)
    ensures 0 <= j < |mappings| && IsPermutation(mappings[j], |b|) && MinCode(mappings, b) == Code(Act(mappings[j], b))
  {
    j := |mappings| - 1;
    var last, less := mappings[j], mappings[..j];
    Fewer(mappings, |b|);
    ActBinary(last, b);
    BelowNoCode(Act(last, b));
    if less == [] {
      assert MinCode(less, b) == NO_CODE;
    } else {
      var l := MinIsReached(less, b);
      if MinCode(less, b) <= Code(Act(last, b)) {
        j := l;
      }
    }
  }

  // The canonical code decides equivalence -----------------------------------------------------------------

  lemma PermutationAt(mappings: seq<seq<int>>, n: nat, j: int)
    requires AllPermutations(mappings, n) && 0 <= j < |mappings|
    ensures IsPermutation(mappings[j], n)
  {
    hide IsPermutation;
  }

  lemma GroupParts(mappings: seq<seq<int>>, n: nat, j: int, l: int)
    requires IsGroup(mappings, n) && 0 <= j < |mappings| && 0 <= l < |mappings|
    ensures AllPermutations(mappings, n) && HasProduct(mappings, mappings[j], mappings[l])
    ensures HasInverse(mappings, mappings[j])
  {
    hide AllPermutations, HasProduct, HasInverse;
  }

  lemma PickProduct(mappings: seq<seq<int>>, p: seq<int>, q: seq<int>) returns (k: int)
    requires HasProduct(mappings, p, q)
    ensures 0 <= k < |mappings| && Composes(p, q, mappings[k])
  {
    hide Composes;
    k :| 0 <= k < |mappings| && Composes(p, q, mappings[k]);
  }

  lemma PickInverse(mappings: seq<seq<int>>, q: seq<int>) returns (l: int)
    requires HasInverse(mappings, q)
    ensures 0 <= l < |mappings| && Inverts(mappings[l], q)
  {
    hide Inverts;
    l :| 0 <= l < |mappings| && Inverts(mappings[l], q);
  }

  lemma Product(mappings: seq<seq<int>>, n: nat, j: int, l: int) returns (k: int)
    requires IsGroup(mappings, n) && 0 <= j < |mappings| && 0 <= l < |mappings|
    ensures 0 <= k < |mappings| && Composes(mappings[j], mappings[l], mappings[k])
    ensures IsPermutation(mappings[j], n) && IsPermutation(mappings[l], n) && IsPermutation(mappings[k], n)
  {
    hide *;
    GroupParts(mappings, n, j, l);
    k := PickProduct(mappings, mappings[j], mappings[l]);
    PermutationAt(mappings, n, j);
    PermutationAt(mappings, n, l);
    PermutationAt(mappings, n, k);
  }

  lemma Inverse(mappings: seq<seq<int>>, n: nat, j: int) returns (l: int)
    requires IsGroup(mappings, n) && 0 <= j < |mappings|
    ensures 0 <= l < |mappings| && Inverts(mappings[l], mappings[j])
    ensures IsPermutation(mappings[j], n) && IsPermutation(mappings[l], n)
  {
    hide *;
    GroupParts(mappings, n, j, j);
    l := PickInverse(mappings, mappings[j]);
    PermutationAt(mappings, n, j);
    PermutationAt(mappings, n, l);
  }

  /** Some mapping carries b to c. */
  ghost predicate Carries(mappings: seq<seq<int>>, b: seq<int>, c: seq<int>) {
    exists j :: 0 <= j < |mappings| && IsPermutation(mappings[j], |b|) && Act(mappings[j], b) == c
  }

  lemma Carried(mappings: seq<seq<int>>, k: int, b: seq<int>, c: seq<int>)
    requires 0 <= k < |mappings| && IsPermutation(mappings[k], |b|) && Act(mappings[k], b) == c
    ensures Carries(mappings, b, c)
  {
  }

  /** A colouring reached from b by a symmetry has no smaller least code. */
  lemma NotSmaller(mappings: seq<seq<int>>, b: seq<int>, c: seq<int>)
    requires IsGroup(mappings, |b|) && IsBinary(b, |b|) && IsBinary(c, |b|) && |b| <= 31 && Carries(mappings, b, c)
    requires AllPermutations(mappings, |b|)
    ensures MinCode(mappings, b) <= MinCode(mappings, c)
  {
    hide *;
    NotEmpty(mappings, |b|);
    BinaryLength(c, |b|);
    var j := PickCarrier(mappings, b, c);
    var l := MinIsReached(mappings, c);
    var k := Product(mappings, |b|, l, j);
    ActCompose(mappings[l], mappings[j], mappings[k], b);
    MinIsLeast(mappings, b, k);
  }

  lemma PickCarrier(mappings: seq<seq<int>>, b: seq<int>, c: seq<int>) returns (j: int)
    requires Carries(mappings, b, c)
    ensures 0 <= j < |mappings| && IsPermutation(mappings[j], |b|) && Act(mappings[j], b) == c && |c| == |b|
  {
    hide IsPermutation;
    j :| 0 <= j < |mappings| && IsPermutation(mappings[j], |b|) && Act(mappings[j], b) == c;
  }

  lemma NotEmpty(mappings: seq<seq<int>>, n: nat)
    requires IsGroup(mappings, n)
    ensures |mappings| > 0 && AllPermutations(mappings, n)
  {
  }

  /** What one symmetry carries there, another carries back. */
  lemma CarriedBack(mappings: seq<seq<int>>, b: seq<int>, c: seq<int>)
    requires IsGroup(mappings, |b|) && Carries(mappings, b, c)
    ensures |c| == |b| && Carries(mappings, c, b)
  {
    hide *;
    var j := PickCarrier(mappings, b, c);
    var l := Inverse(mappings, |b|, j);
    ActInverse(mappings[l], mappings[j], b);
    Carried(mappings, l, c, b);
  }

  lemma SameCodeEquivalent(mappings: seq<seq<int>>, b: seq<int>, c: seq<int>)
    requires IsGroup(mappings, |b|) && IsBinary(b, |b|) && IsBinary(c, |b|) && |b| <= 31
    requires AllPermutations(mappings, |b|) && MinCode(mappings, b) == MinCode(mappings, c)
    ensures Carries(mappings, b, c)
  {
    hide *;
    NotEmpty(mappings, |b|);
    BinaryLength(c, |b|);
    var j := MinIsReached(mappings, b);
    var l := MinIsReached(mappings, c);
    ActBinary(mappings[j], b);
    ActBinary(mappings[l], c);
    CodeInjective(Act(mappings[j], b), Act(mappings[l], c));
    var back := Inverse(mappings, |b|, l);
    ActInverse(mappings[back], mappings[l], c);
    var k := Product(mappings, |b|, back, j);
    ActCompose(mappings[back], mappings[j], mappings[k], b);
    Carried(mappings, k, b, c);
  }

  lemma BinaryLength(c: seq<int>, n: nat)
    requires IsBinary(c, n)
    ensures |c| == n
  {
  }

  /** Two colourings have the same canonical code exactly when a symmetry carries one to the other. */
  lemma SameCodeIffEquivalent(mappings: seq<seq<int>>, b: seq<int>, c: seq<int>)
    requires IsGroup(mappings, |b|) && IsBinary(b, |b|) && IsBinary(c, |b|) && |b| <= 31
    requires AllPermutations(mappings, |b|)
    ensures MinCode(mappings, b) == MinCode(mappings, c) <==> Carries(mappings, b, c)
  {
    hide *;
    BinaryLength(c, |b|);
    if MinCode(mappings, b) == MinCode(mappings, c) {
      SameCodeEquivalent(mappings, b, c);
    }
    if Carries(mappings, b, c) {
      NotSmaller(mappings, b, c);
      CarriedBack(mappings, b, c);
      NotSmaller(mappings, c, b);
    }
  }

  // The loops ----------------------------------------------------------------------------------------------

  /** Or with the bit shifted to place i. */
  function OrBit(code: nat, bit: int, i: nat): nat
    requires 0 <= bit <= 1
  {
    if bit == 0 || (code / Pow2(i)) % 2 == 1 then code else code + Pow2(i)
  }

  lemma OrIsSum(code: nat, bit: int, i: nat)
    requires 0 <= bit <= 1 && code < Pow2(i)
    ensures OrBit(code, bit, i) == code + bit * Pow2(i)
  {
    DivideSmall(code, Pow2(i));
  }

  lemma DivideSmall(a: nat, p: nat)
    requires a < p
    ensures a / p == 0
  {
  }

  lemma CodeEmpty()
    ensures Code([]) == 0
  {
  }

  /** Setting the bit of place i extends the code by that place. */
  lemma CodeStep(t: seq<int>, i: nat)
    requires IsBinary(t, |t|) && i < |t|
    ensures Code(t[..i]) >= 0 && OrBit(Code(t[..i]), t[i], i) == Code(t[..i + 1])
  {
    CodeRange(t[..i]);
    OrIsSum(Code(t[..i]), t[i], i);
    assert t[..i + 1][..i] == t[..i];
  }

  /** The code of the colouring carried along by one mapping. */
  method MappedCode(m: seq<int>, binary: seq<int>, temp: array<int>) returns (code: nat)
    requires IsPermutation(m, |binary|) && IsBinary(binary, |binary|) && temp.Length >= |binary|
    modifies temp
    ensures code == Code(Act(m, binary))
  {
    hide Code, Act, OrBit, Pow2;
    CodeEmpty();
    var n := |binary|;
    for i := 0 to n
      invariant forall j :: 0 <= j < i ==> temp[m[j]] == binary[j]
    {
      temp[m[i]] := binary[i];
    }
    ghost var t := temp[..n];
    ActIs(m, binary, t);
    ActBinary(m, binary);
    code := 0;
    for i := 0 to n
      invariant code == Code(t[..i]) && temp[..n] == t
    {
      assert temp[i] == t[i];
      CodeStep(t, i);
      code := OrBit(code, temp[i], i);
    }
    assert t[..n] == t;
  }

  /** The colour of a place: whether its atom is of the central kind. */
  function Colours(mapping: seq<int>, numbers: seq<int>, n: nat): seq<int>
    requires n <= |mapping| && 0 < |numbers| && forall i :: 0 <= i < n ==> 0 <= mapping[i] < |numbers|
  {
    seq(n, i requires 0 <= i < n => if numbers[mapping[i]] == numbers[0] then 0 else 1)
  }

  // What the code says of the atoms ------------------------------------------------------------------------

  /** Bit i of the code is the colour of place i. */
  lemma {:induction false} CodeBit(b: seq<int>, i: nat)
    requires IsBinary(b, |b|) && i < |b|
    ensures Code(b) >= 0 && Bit(Code(b), i) == b[i]
  {
    CodeRange(b);
    CodeSplits(b);
    hide *;
    var less, x := b[..|b| - 1], b[|b| - 1];
    CodeRange(less);
    if i < |less| {
      CodeBit(less, i);
      BitBelow(Code(less), x, i, |less| - i);
      assert less[i] == b[i];
    } else {
      BitAbove(Code(less), x, i);
    }
  }

  /** In the code the bit at the place of atom i tells whether it is of another kind than the central one. */
  ghost predicate Coded(code: nat, m: seq<int>, mapping: seq<int>, numbers: seq<int>, n: nat) {
    && |m| >= n && |mapping| >= n && numbers != [] && code < Pow2(n)
    && forall i :: 0 <= i < n ==>
      0 <= m[i] && 0 <= mapping[i] < |numbers| &&
      (Bit(code, m[i]) == 1 <==> numbers[mapping[i]] != numbers[0])
  }

  lemma CodedIs(code: nat, m: seq<int>, mapping: seq<int>, numbers: seq<int>, n: nat)
    requires n <= |mapping| && 0 < |numbers| && forall i :: 0 <= i < n ==> 0 <= mapping[i] < |numbers|
    requires IsPermutation(m, n)
    ensures Coded(code, m, mapping, numbers, n) <==> code == Code(Act(m, Colours(mapping, numbers, n)))
  {
    var b := Colours(mapping, numbers, n);
    var t := Act(m, b);
    ActBinary(m, b);
    CodeRange(t);
    hide Code, Bit, Pow2;
    forall i | 0 <= i < n
      ensures 0 <= m[i] && Bit(Code(t), m[i]) == if numbers[mapping[i]] == numbers[0] then 0 else 1
    {
      ActAt(m, b, i);
      CodeBit(t, m[i]);
    }
    if Coded(code, m, mapping, numbers, n) {
      forall k | 0 <= k < n
        ensures Bit(code, k) == Bit(Code(t), k)
      {
        BitRange(code, k);
        var i := IndexOf(m, k);
      }
      SameBits(code, Code(t), n);
    }
  }

  /** The code is zero exactly if all atoms are of the central kind. */
  lemma ZeroCode(code: nat, m: seq<int>, mapping: seq<int>, numbers: seq<int>, n: nat)
    requires IsPermutation(m, n) && Coded(code, m, mapping, numbers, n)
    ensures code == 0 <==> forall i :: 0 <= i < n ==> numbers[mapping[i]] == numbers[0]
  {
    hide Bit, Pow2;
    if code == 0 {
      forall i | 0 <= i < n
        ensures numbers[mapping[i]] == numbers[0]
      {
        ZeroBit(m[i]);
      }
    } else if forall i :: 0 <= i < n ==> numbers[mapping[i]] == numbers[0] {
      forall k | 0 <= k < n
        ensures Bit(code, k) == Bit(0, k)
      {
        BitRange(code, k);
        ZeroBit(k);
        var i := IndexOf(m, k);
      }
      SameBits(code, 0, n);
    }
  }

  /** The least code over all mappings, by its bits. */
  lemma LeastCoded(mappings: seq<seq<int>>, n: nat, mapping: seq<int>, numbers: seq<int>, best: nat)
    requires n <= |mapping| && 0 < |numbers| && forall i :: 0 <= i < n ==> 0 <= mapping[i] < |numbers|
    requires AllPermutations(mappings, n) && mappings != [] && n <= 31
    requires best == MinCode(mappings, Colours(mapping, numbers, n))
    ensures exists j :: 0 <= j < |mappings| && Coded(best, mappings[j], mapping, numbers, n)
    ensures forall j, code :: 0 <= j < |mappings| && Coded(code, mappings[j], mapping, numbers, n) ==> best <= code
    ensures best == 0 <==> forall i :: 0 <= i < n ==> numbers[mapping[i]] == numbers[0]
  {
    var b := Colours(mapping, numbers, n);
    hide Coded, Code, MinCode, IsPermutation, Act;
    var l := MinIsReached(mappings, b);
    CodedIs(best, mappings[l], mapping, numbers, n);
    ZeroCode(best, mappings[l], mapping, numbers, n);
    forall j, code | 0 <= j < |mappings| && Coded(code, mappings[j], mapping, numbers, n)
      ensures best <= code
    {
      MinIsLeast(mappings, b, j);
      CodedIs(code, mappings[j], mapping, numbers, n);
    }
  }

  method CanonicalAlloyRepresentation(mappings: seq<seq<int>>, n: nat, mapping: seq<int>,
                                      numbers: seq<int>) returns (best: nat)
    requires n <= |mapping| && 0 < |numbers| && forall i :: 0 <= i < n ==> 0 <= mapping[i] < |numbers|
    requires AllPermutations(mappings, n)
    ensures best == MinCode(mappings, Colours(mapping, numbers, n))
    ensures mappings != [] && n <= 31 ==>
      && (exists j :: 0 <= j < |mappings| && Coded(best, mappings[j], mapping, numbers, n))
      && (forall j, code :: 0 <= j < |mappings| && Coded(code, mappings[j], mapping, numbers, n) ==> best <= code)
      && (best == 0 <==> forall i :: 0 <= i < n ==> numbers[mapping[i]] == numbers[0])
  {
    hide Coded;
    var binary := Colours(mapping, numbers, n);
    var temp := new int[n];
    best := NO_CODE;
    for j := 0 to |mappings|
      invariant best == MinCode(mappings[..j], binary)
    {
      var code := MappedCode(mappings[j], binary, temp);
      assert mappings[..j + 1][..j] == mappings[..j];
      best := if code < best then code else best;
    }
    assert mappings[..|mappings|] == mappings;
    if mappings != [] && n <= 31 {
      LeastCoded(mappings, n, mapping, numbers, best);
    }
  }
}
