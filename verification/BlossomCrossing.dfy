/** After an expansion the matching leaves every blossom inside the expanded one over a single edge. */
module BlossomCrossing {
  import opened BlossomTree
  import opened BlossomFamily
  import opened BlossomMates
  import opened BlossomExpand

  /** Of the nodes that remain of t, only `piece` is matched outside t. */
  ghost predicate OnceBy(t: Tree, stops: set<int>, piece: Tree, mate: seq<int>, slack: seq<real>, n: nat) {
    piece in Kept(t, stops) && 0 <= piece.id < |mate| && mate[piece.id] !in Leaves(t) &&
    MatchedWithin(Kept(t, stops) - {piece}, mate, slack, n)
  }

  ghost predicate Once(t: Tree, stops: set<int>, mate: seq<int>, slack: seq<real>, n: nat) {
    exists piece :: OnceBy(t, stops, piece, mate, slack, n)
  }

  /** So it is with t and with every blossom inside it. */
  ghost predicate AllOnce(t: Tree, stops: set<int>, mate: seq<int>, slack: seq<real>, n: nat)
    decreases t
  {
    Once(t, stops, mate, slack, n) &&
    (t.kids != [] && t.id !in stops ==> forall i :: 0 <= i < |t.kids| ==> AllOnce(t.kids[i], stops, mate, slack, n))
  }

  lemma KeptLeaves(t: Tree, stops: set<int>, n: nat, k: Tree, x: int)
    requires Shape(t, n) && k in Kept(t, stops) && x in Leaves(k)
    ensures x in Leaves(t)
  {
    KeptCovered(t, stops, n);
    LeafIffId(k, n, x);
    LeafIffId(t, n, x);
  }

  /** The mates of the nodes that remain of t change at most at x, from a mate outside t to another. */
  ghost predicate OnlyAt(t: Tree, stops: set<int>, x: Tree, mate: seq<int>, mate': seq<int>) {
    && |mate'| == |mate|
    && (forall k :: k in Kept(t, stops) && k != x && 0 <= k.id < |mate| ==> mate'[k.id] == mate[k.id])
    && (x in Kept(t, stops) && 0 <= x.id < |mate| ==> mate[x.id] !in Leaves(t) && mate'[x.id] !in Leaves(t))
  }

  /** Changing the mate of one node that is matched outside t, to another one outside, changes nothing. */
  lemma OnceFrame(t: Tree, stops: set<int>, x: Tree, mate: seq<int>, mate': seq<int>, slack: seq<real>, n: nat)
    requires Shape(t, n) && Once(t, stops, mate, slack, n)
    requires OnlyAt(t, stops, x, mate, mate')
    ensures Once(t, stops, mate', slack, n)
  {
    hide Kept, Leaves, Shape;
    var piece :| OnceBy(t, stops, piece, mate, slack, n);
    var rest := Kept(t, stops) - {piece};
    if x in rest {
      assert HasMate(rest, x, mate, slack, n);
      var r :| r in rest && r != x && Mutual(x, r, mate, slack, n);
      KeptLeaves(t, stops, n, r, mate[x.id]);
    }
    hide Mutual;
    MatchedFrame(rest, mate, mate', slack, n);
    assert OnceBy(t, stops, piece, mate', slack, n);
  }

  lemma OnlyAtKid(t: Tree, stops: set<int>, n: nat, i: int, x: Tree, mate: seq<int>, mate': seq<int>)
    requires Shape(t, n) && t.id !in stops && 0 <= i < |t.kids| && OnlyAt(t, stops, x, mate, mate')
    ensures Shape(t.kids[i], n) && OnlyAt(t.kids[i], stops, x, mate, mate')
  {
    var kid := t.kids[i];
    KidShape(t.kids, n, i);
    KidLeaves(t.kids, i);
    assert Leaves(t) == AllLeaves(t.kids) && Kept(t, stops) == AllKept(t.kids, stops);
    hide Leaves, Kept, AllLeaves, AllKept;
    forall k | k in Kept(kid, stops)
      ensures k in Kept(t, stops)
    {
      KeptOfKid(t.kids, stops, k);
    }
    if x in Kept(kid, stops) && 0 <= x.id < |mate| {
      LeafUp(t.kids, i, mate[x.id]);
      LeafUp(t.kids, i, mate'[x.id]);
    }
  }

  lemma LeafUp(ks: seq<Tree>, i: int, y: int)
    requires 0 <= i < |ks|
    ensures y in Leaves(ks[i]) ==> y in AllLeaves(ks)
  {
    KidLeaves(ks, i);
  }

  lemma {:induction false} AllOnceFrame(t: Tree, stops: set<int>, x: Tree, mate: seq<int>, mate': seq<int>,
                                        slack: seq<real>, n: nat)
    requires Shape(t, n) && AllOnce(t, stops, mate, slack, n)
    requires OnlyAt(t, stops, x, mate, mate')
    ensures AllOnce(t, stops, mate', slack, n)
    decreases t
  {
    OnceFrame(t, stops, x, mate, mate', slack, n);
    hide Once, Shape, Kept, Leaves, OnlyAt;
    if t.kids != [] && t.id !in stops {
      forall i | 0 <= i < |t.kids|
        ensures AllOnce(t.kids[i], stops, mate', slack, n)
      {
        OnlyAtKid(t, stops, n, i, x, mate, mate');
        AllOnceFrame(t.kids[i], stops, x, mate, mate', slack, n);
      }
    }
  }

  /** Mates that change only elsewhere change nothing. */
  lemma AllOnceElsewhere(t: Tree, stops: set<int>, s: set<int>, mate: seq<int>, mate': seq<int>, slack: seq<real>,
                         n: nat)
    requires Shape(t, n) && AllOnce(t, stops, mate, slack, n) && MatesOutside(s, mate, mate') && Ids(t) !! s
    ensures AllOnce(t, stops, mate', slack, n)
  {
    KeptCovered(t, stops, n);
    hide AllOnce, Kept, Ids;
    AllOnceFrame(t, stops, Tree(-1, []), mate, mate', slack, n);
  }

  /** A tree whose remaining nodes are matched within, but for one matched to a node outside. */
  lemma OnceMade(t: Tree, partner: Tree, piece: Tree, stops: set<int>, mate: seq<int>, slack: seq<real>, n: nat)
    requires Shape(t, n) && Shape(partner, n) && Ids(t) !! Ids(partner)
    requires MatchedExcept(Kept(t, stops), piece, partner, mate, slack, n)
    ensures Once(t, stops, mate, slack, n)
  {
    LeavesDisjoint(t, partner, n, mate[piece.id]);
    assert OnceBy(t, stops, piece, mate, slack, n);
  }

  lemma LeavesDisjoint(s: Tree, t: Tree, n: nat, x: int)
    requires Shape(s, n) && Shape(t, n) && Ids(s) !! Ids(t)
    ensures !(x in Leaves(s) && x in Leaves(t))
  {
    LeafIffId(s, n, x);
    LeafIffId(t, n, x);
  }

  /** The first of a pair keeps the property while the second is expanded. */
  lemma PairOnce(s: Tree, t: Tree, x: Tree, y: Tree, stops: set<int>, n: nat, mate1: seq<int>, mate2: seq<int>,
                 slack: seq<real>)
    requires Shape(s, n) && Shape(t, n) && Ids(s) !! Ids(t) && AllOnce(s, stops, mate1, slack, n)
    requires MatchedExcept(Kept(s, stops), x, t, mate1, slack, n)
    requires MatchedExcept(Kept(t, stops), y, x, mate2, slack, n)
    requires MatesOutside(Ids(t) + {x.id}, mate1, mate2)
    ensures AllOnce(s, stops, mate2, slack, n)
  {
    KeptCovered(s, stops, n);
    KeptSplits(s, stops, n);
    KeptLeaves(t, stops, n, y, mate2[x.id]);
    LeavesDisjoint(s, t, n, mate1[x.id]);
    LeavesDisjoint(s, t, n, mate2[x.id]);
    forall k | k in Kept(s, stops) && k != x && 0 <= k.id < |mate1|
      ensures mate2[k.id] == mate1[k.id]
    {
      IdInTree(k);
      IdInTree(x);
      assert Ids(k) !! Ids(x);
    }
    hide AllOnce, Kept, Ids, Shape, Leaves;
    AllOnceFrame(s, stops, x, mate1, mate2, slack, n);
  }

  lemma ClosedOnce(t: Tree, partner: Tree, stops: set<int>, mate: seq<int>, slack: seq<real>, n: nat)
    requires Shape(t, n) && Shape(partner, n) && Ids(t) !! Ids(partner) && (t.id < n || t.id in stops)
    requires MatchedExcept({t}, t, partner, mate, slack, n)
    ensures AllOnce(t, stops, mate, slack, n)
  {
    StaysClosed(t, stops, n);
    OnceMade(t, partner, t, stops, mate, slack, n);
  }

  lemma AllOnceMade(t: Tree, partner: Tree, piece: Tree, stops: set<int>, mate: seq<int>, slack: seq<real>, n: nat)
    requires Shape(t, n) && Shape(partner, n) && Ids(t) !! Ids(partner)
    requires MatchedExcept(Kept(t, stops), piece, partner, mate, slack, n)
    requires forall i :: 0 <= i < |t.kids| ==> AllOnce(t.kids[i], stops, mate, slack, n)
    ensures AllOnce(t, stops, mate, slack, n)
  {
    OnceMade(t, partner, piece, stops, mate, slack, n);
  }

  lemma OnceSoFar(r: seq<Tree>, i: int, n: nat, stops: set<int>, mate1: seq<int>, mate2: seq<int>, slack: seq<real>)
    requires AllShape(r, n) && 1 <= i && i + 1 < |r| && MatesOutside(Ids(r[i]) + Ids(r[i + 1]), mate1, mate2)
    requires forall j :: 0 <= j < i ==> AllOnce(r[j], stops, mate1, slack, n)
    ensures forall j :: 0 <= j < i ==> AllOnce(r[j], stops, mate2, slack, n)
  {
    hide AllOnce;
    forall j | 0 <= j < i
      ensures AllOnce(r[j], stops, mate2, slack, n)
    {
      KidShape(r, n, j);
      KidsDisjoint(r, n, j, i);
      KidsDisjoint(r, n, j, i + 1);
      AllOnceElsewhere(r[j], stops, Ids(r[i]) + Ids(r[i + 1]), mate1, mate2, slack, n);
    }
  }

  lemma TurnedOnce(ks: seq<Tree>, k: int, stops: set<int>, mate: seq<int>, slack: seq<real>, n: nat)
    requires 0 <= k < |ks| && forall j :: 0 <= j < |ks| ==> AllOnce(Turned(ks, k)[j], stops, mate, slack, n)
    ensures forall i :: 0 <= i < |ks| ==> AllOnce(ks[i], stops, mate, slack, n)
  {
    hide AllOnce;
    TurnedAt(ks, k);
    forall i | 0 <= i < |ks|
      ensures AllOnce(ks[i], stops, mate, slack, n)
    {
      var j := if i >= k then i - k else i - k + |ks|;
      assert Turned(ks, k)[j] == ks[i];
    }
  }
}
