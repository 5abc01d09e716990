/** How the nodes that remain of an opened blossom are matched. */
module BlossomMates {
  import opened BlossomTree
  import opened BlossomFamily
  import opened BlossomCircuit

  /** The two nodes are matched to each other over an edge without slack. */
  ghost predicate Mutual(a: Tree, b: Tree, mate: seq<int>, slack: seq<real>, n: nat) {
    && 0 <= a.id < |mate| && 0 <= b.id < |mate|
    && mate[a.id] in Leaves(b) && mate[b.id] in Leaves(a) && Tight(slack, n, mate[b.id], mate[a.id])
  }

  lemma MutualBack(a: Tree, b: Tree, mate: seq<int>, slack: seq<real>, n: nat)
    requires Mutual(a, b, mate, slack, n)
    ensures Mutual(b, a, mate, slack, n)
  {
  }

  ghost predicate HasMate(s: set<Tree>, t: Tree, mate: seq<int>, slack: seq<real>, n: nat) {
    exists r :: r in s && r != t && Mutual(t, r, mate, slack, n)
  }

  /** Every node of the set is matched to another one of the set. */
  ghost predicate MatchedWithin(s: set<Tree>, mate: seq<int>, slack: seq<real>, n: nat) {
    forall t :: t in s ==> HasMate(s, t, mate, slack, n)
  }

  /** One node of the set is matched to `partner`, the others among themselves. */
  ghost predicate MatchedExcept(s: set<Tree>, piece: Tree, partner: Tree, mate: seq<int>, slack: seq<real>, n: nat) {
    piece in s && Mutual(piece, partner, mate, slack, n) && MatchedWithin(s - {piece}, mate, slack, n)
  }

  lemma MutualFrame(a: Tree, b: Tree, mate: seq<int>, mate': seq<int>, slack: seq<real>, n: nat)
    requires Mutual(a, b, mate, slack, n) && |mate'| == |mate| && mate'[a.id] == mate[a.id] && mate'[b.id] == mate[b.id]
    ensures Mutual(a, b, mate', slack, n)
  {
  }

  /** mate is the same at the roots of the set. */
  ghost predicate SameMates(s: set<Tree>, mate: seq<int>, mate': seq<int>) {
    |mate'| == |mate| && forall t :: t in s && 0 <= t.id < |mate| ==> mate'[t.id] == mate[t.id]
  }

  lemma MatchedFrame(s: set<Tree>, mate: seq<int>, mate': seq<int>, slack: seq<real>, n: nat)
    requires MatchedWithin(s, mate, slack, n) && SameMates(s, mate, mate')
    ensures MatchedWithin(s, mate', slack, n)
  {
    hide Mutual;
    forall t | t in s
      ensures HasMate(s, t, mate', slack, n)
    {
      assert HasMate(s, t, mate, slack, n);
      var r :| r in s && r != t && Mutual(t, r, mate, slack, n);
      MutualBounds(t, r, mate, slack, n);
      MutualFrame(t, r, mate, mate', slack, n);
    }
  }

  lemma MutualBounds(a: Tree, b: Tree, mate: seq<int>, slack: seq<real>, n: nat)
    requires Mutual(a, b, mate, slack, n)
    ensures 0 <= a.id < |mate| && 0 <= b.id < |mate|
  {
  }

  lemma MatchedUnion(s: set<Tree>, t: set<Tree>, mate: seq<int>, slack: seq<real>, n: nat)
    requires MatchedWithin(s, mate, slack, n) && MatchedWithin(t, mate, slack, n)
    ensures MatchedWithin(s + t, mate, slack, n)
  {
    hide Mutual;
    forall x | x in s + t
      ensures HasMate(s + t, x, mate, slack, n)
    {
      if x in s {
        assert HasMate(s, x, mate, slack, n);
      } else {
        assert HasMate(t, x, mate, slack, n);
      }
    }
  }

  /** Two sets whose exceptions are matched to each other. */
  lemma MatchedPair(s: set<Tree>, t: set<Tree>, a: Tree, b: Tree, mate: seq<int>, slack: seq<real>, n: nat)
    requires a in s && b in t && a != b && Mutual(a, b, mate, slack, n)
    requires MatchedWithin(s - {a}, mate, slack, n) && MatchedWithin(t - {b}, mate, slack, n)
    ensures MatchedWithin(s + t, mate, slack, n)
  {
    MutualBack(a, b, mate, slack, n);
    hide Mutual;
    forall x | x in s + t
      ensures HasMate(s + t, x, mate, slack, n)
    {
      if x == a {
        assert b in s + t && b != x && Mutual(x, b, mate, slack, n);
      } else if x == b {
        assert a in s + t && a != x && Mutual(x, a, mate, slack, n);
      } else if x in s {
        assert HasMate(s - {a}, x, mate, slack, n);
      } else {
        assert HasMate(t - {b}, x, mate, slack, n);
      }
    }
  }

  /** One more closed set joins. */
  lemma ExceptUnion(s: set<Tree>, t: set<Tree>, piece: Tree, partner: Tree, mate: seq<int>, slack: seq<real>, n: nat)
    requires MatchedExcept(s, piece, partner, mate, slack, n) && MatchedWithin(t, mate, slack, n) && piece !in t
    ensures MatchedExcept(s + t, piece, partner, mate, slack, n)
  {
    hide Mutual, HasMate;
    MatchedUnion(s - {piece}, t, mate, slack, n);
    assert s - {piece} + t == s + t - {piece};
  }

  lemma ExceptFrame(s: set<Tree>, piece: Tree, partner: Tree, mate: seq<int>, mate': seq<int>, slack: seq<real>, n: nat)
    requires MatchedExcept(s, piece, partner, mate, slack, n) && SameMates(s + {partner}, mate, mate')
    ensures MatchedExcept(s, piece, partner, mate', slack, n)
  {
    MatchedFrame(s - {piece}, mate, mate', slack, n);
    MutualFrame(piece, partner, mate, mate', slack, n);
  }

  // Rotation ---------------------------------------------------------------------------------------------------

  /** The circuit turned so that the k-th child comes first. */
  ghost function Turned(ks: seq<Tree>, k: int): (r: seq<Tree>)
    requires 0 <= k < |ks|
    ensures |r| == |ks|
  {
    ks[k..] + ks[..k]
  }

  /** Where the i-th entry of the turned circuit was before. */
  ghost function Index(ks: seq<Tree>, k: int, i: int): int {
    if k + i < |ks| then k + i else k + i - |ks|
  }

  lemma TurnedAt(ks: seq<Tree>, k: int)
    requires 0 <= k < |ks|
    ensures forall i :: 0 <= i < |ks| ==> 0 <= Index(ks, k, i) < |ks| && Turned(ks, k)[i] == ks[Index(ks, k, i)]
  {
  }

  /** Moving the first entry to the end turns the circuit by one. */
  lemma TurnedRoots(ks: seq<Tree>, k: int)
    requires 0 <= k < |ks|
    ensures Turned(ks, 0) == ks && Turned(ks, k)[0] == ks[k]
    ensures k + 1 < |ks| ==> Roots(Turned(ks, k))[1..] + [ks[k].id] == Roots(Turned(ks, k + 1))
  {
  }

  lemma TurnedShape(ks: seq<Tree>, k: int, n: nat)
    requires AllShape(ks, n) && 0 <= k < |ks|
    ensures AllShape(Turned(ks, k), n) && AllIds(Turned(ks, k)) == AllIds(ks)
  {
    var r := Turned(ks, k);
    TurnedAt(ks, k);
    forall i, j | 0 <= i < j < |r|
      ensures Ids(r[i]) !! Ids(r[j])
    {
      KidsDisjoint(ks, n, if k + i < |ks| then k + i else k + i - |ks|, if k + j < |ks| then k + j else k + j - |ks|);
    }
    forall i | 0 <= i < |r|
      ensures Shape(r[i], n)
    {
      KidShape(ks, n, if k + i < |ks| then k + i else k + i - |ks|);
    }
    ShapeFrom(r, n);
    forall x
      ensures x in AllIds(r) <==> x in AllIds(ks)
    {
      if x in AllIds(r) {
        IdOfKid(r, x);
        var i :| 0 <= i < |r| && x in Ids(r[i]);
        KidIds(ks, if k + i < |ks| then k + i else k + i - |ks|);
      }
      if x in AllIds(ks) {
        IdOfKid(ks, x);
        var i :| 0 <= i < |ks| && x in Ids(ks[i]);
        KidIds(r, if i >= k then i - k else i - k + |ks|);
      }
    }
  }

  lemma {:induction false} ShapeFrom(ks: seq<Tree>, n: nat)
    requires forall i :: 0 <= i < |ks| ==> Shape(ks[i], n)
    requires forall i, j :: 0 <= i < j < |ks| ==> Ids(ks[i]) !! Ids(ks[j])
    ensures AllShape(ks, n)
  {
    if ks != [] {
      var last := |ks| - 1;
      ShapeFrom(ks[..last], n);
      forall x | x in AllIds(ks[..last])
        ensures x !in Ids(ks[last])
      {
        IdOfKid(ks[..last], x);
      }
    }
  }

  lemma TurnedKept(ks: seq<Tree>, k: int, stops: set<int>)
    requires 0 <= k < |ks|
    ensures AllKept(Turned(ks, k), stops) == AllKept(ks, stops) && Members(Turned(ks, k)) == Members(ks)
  {
    hide Kept, AllKept;
    var r := Turned(ks, k);
    TurnedAt(ks, k);
    forall t
      ensures t in AllKept(r, stops) <==> t in AllKept(ks, stops)
    {
      KeptOfKid(r, stops, t);
      KeptOfKid(ks, stops, t);
      if i :| 0 <= i < |r| && t in Kept(r[i], stops) {
        assert t in Kept(ks[if k + i < |ks| then k + i else k + i - |ks|], stops);
      }
      if i :| 0 <= i < |ks| && t in Kept(ks[i], stops) {
        assert r[if i >= k then i - k else i - k + |ks|] == ks[i];
      }
    }
    forall t
      ensures t in Members(r) <==> t in Members(ks)
    {
      if t in Members(ks) {
        var i :| 0 <= i < |ks| && ks[i] == t;
        assert r[if i >= k then i - k else i - k + |ks|] == t;
      }
    }
  }

  lemma TurnedRing(ks: seq<Tree>, k: int, slack: seq<real>, n: nat, i: int)
    requires Ring(ks, slack, n) && 0 <= k < |ks| && 0 <= i && i + 1 < |ks|
    ensures Linked(slack, n, Leaves(Turned(ks, k)[i]), Leaves(Turned(ks, k)[i + 1]))
  {
    var j := if k + i < |ks| then k + i else k + i - |ks|;
    assert Linked(slack, n, Leaves(ks[j]), Leaves(ks[After(j, |ks|)]));
  }
}
