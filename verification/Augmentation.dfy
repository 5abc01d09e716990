/** Turning the matching along the nodes of an alternating path: the state in the middle and at the end. */
module Augmentation {
  import opened BlossomTree
  import opened BlossomFamily
  import opened BlossomMates
  import opened MatchingFacts
  import opened BlossomExpand
  import opened BlossomRetrieve
  import opened MatchingStart
  import opened FreshBlossoms

  /** The used trees are opened and what is left of them is matched within; nothing else has changed. */
  ghost predicate Flipped(family0: set<Tree>, used: set<Tree>, family: set<Tree>, stops: set<int>, n: nat,
                          mate0: seq<int>, mate: seq<int>, outer0: seq<int>, outer: seq<int>, slack: seq<real>)
  {
    && used <= family0 && family == family0 - used + KeptOf(used, stops)
    && MatchedWithin(KeptOf(used, stops), mate, slack, n)
    && MatesOutside(Covered(used), mate0, mate) && Untouched(Covered(used), n, outer0, outer)
  }

  lemma FlipStart(family0: set<Tree>, stops: set<int>, n: nat, mate: seq<int>, outer: seq<int>, slack: seq<real>)
    requires |outer| == 2 * n
    ensures Flipped(family0, {}, family0, stops, n, mate, mate, outer, outer, slack)
  {
    assert KeptOf({}, stops) == {};
    assert family0 - {} + {} == family0;
  }

  lemma FlippedFacts(family0: set<Tree>, used: set<Tree>, family: set<Tree>, stops: set<int>, n: nat,
                     mate0: seq<int>, mate: seq<int>, outer0: seq<int>, outer: seq<int>, slack: seq<real>)
    requires Flipped(family0, used, family, stops, n, mate0, mate, outer0, outer, slack)
    ensures used <= family0 && family == family0 - used + KeptOf(used, stops)
    ensures MatchedWithin(KeptOf(used, stops), mate, slack, n)
    ensures MatesOutside(Covered(used), mate0, mate) && Untouched(Covered(used), n, outer0, outer)
  {
    hide *;
    FlippedParts(family0, used, family, stops, n, mate0, mate, outer0, outer, slack);
  }

  lemma FlippedParts(family0: set<Tree>, used: set<Tree>, family: set<Tree>, stops: set<int>, n: nat,
                     mate0: seq<int>, mate: seq<int>, outer0: seq<int>, outer: seq<int>, slack: seq<real>)
    requires Flipped(family0, used, family, stops, n, mate0, mate, outer0, outer, slack)
    ensures used <= family0 && family == family0 - used + KeptOf(used, stops)
    ensures MatchedWithin(KeptOf(used, stops), mate, slack, n)
    ensures MatesOutside(Covered(used), mate0, mate) && Untouched(Covered(used), n, outer0, outer)
  {
  }

  lemma MakeFlipped(family0: set<Tree>, used: set<Tree>, family: set<Tree>, stops: set<int>, n: nat,
                    mate0: seq<int>, mate: seq<int>, outer0: seq<int>, outer: seq<int>, slack: seq<real>)
    requires used <= family0 && family == family0 - used + KeptOf(used, stops)
    requires MatchedWithin(KeptOf(used, stops), mate, slack, n)
    requires MatesOutside(Covered(used), mate0, mate) && Untouched(Covered(used), n, outer0, outer)
    ensures Flipped(family0, used, family, stops, n, mate0, mate, outer0, outer, slack)
  {
  }

  lemma KeptOfUnion(a: set<Tree>, b: set<Tree>, stops: set<int>)
    ensures KeptOf(a + b, stops) == KeptOf(a, stops) + KeptOf(b, stops)
  {
    hide Kept;
    forall k
      ensures k in KeptOf(a + b, stops) <==> k in KeptOf(a, stops) + KeptOf(b, stops)
    {
      if k in KeptOf(a, stops) {
        var t := OwnerOf(a, stops, k);
        InKeptOf(a + b, stops, t, k);
      }
      if k in KeptOf(b, stops) {
        var t := OwnerOf(b, stops, k);
        InKeptOf(a + b, stops, t, k);
      }
    }
  }

  /** The covers and remains of one more pair. */
  lemma MoreUsed(used: set<Tree>, s: Tree, t: Tree, stops: set<int>)
    ensures Covered(used + {s, t}) == Covered(used) + (Ids(s) + Ids(t))
    ensures KeptOf(used + {s, t}, stops) == KeptOf(used, stops) + (Kept(s, stops) + Kept(t, stops))
  {
    hide *;
    assert {s, t} == {s} + {t};
    CoveredUnion(used, {s, t});
    CoveredUnion({s}, {t});
    CoveredOne(s);
    CoveredOne(t);
    KeptOfUnion(used, {s, t}, stops);
    KeptOfUnion({s}, {t}, stops);
    MoreUsedOne(s, stops);
    MoreUsedOne(t, stops);
  }

  /** Kept trees of used trees lie within what those cover. */
  lemma KeptOfInside(used: set<Tree>, stops: set<int>, n: nat, family: set<Tree>, k: Tree)
    requires Laminar(family, {}, n) && used <= family && k in KeptOf(used, stops)
    ensures k.id in Covered(used) && 0 <= k.id < 2 * n
  {
    var t := OwnerOf(used, stops, k);
    KeptCovered(t, stops, n);
    InCovered(used, t);
  }

  lemma UnusedApart(family: set<Tree>, used: set<Tree>, n: nat, t: Tree)
    requires Laminar(family, {}, n) && used <= family && t in family && t !in used
    ensures Ids(t) !! Covered(used)
  {
    forall x | x in Covered(used)
      ensures x !in Ids(t)
    {
      var s :| s in used && x in Ids(s);
      assert s != t;
    }
  }

  lemma PairUsedSets<T>(family0: set<T>, used: set<T>, kept: set<T>, s: T, t: T, ks: set<T>, kt: set<T>)
    requires s in family0 && t in family0 && s !in used && t !in used && s != t && s !in kept && t !in kept && t !in ks
    ensures family0 - used + kept - {s} + ks - {t} + kt == family0 - (used + {s, t}) + (kept + (ks + kt))
  {
  }

  /** What two expansions make of two neighbours on the path. */
  lemma FlipStep(family0: set<Tree>, used: set<Tree>, family1: set<Tree>, family2: set<Tree>, stops: set<int>, n: nat,
                 mate0: seq<int>, mate1: seq<int>, mate2: seq<int>, outer0: seq<int>, outer1: seq<int>,
                 outer2: seq<int>, slack: seq<real>,
                 s: Tree, t: Tree)
    requires Laminar(family0, {}, n) && Flipped(family0, used, family1, stops, n, mate0, mate1, outer0, outer1, slack)
    requires s in family0 && t in family0 && s != t && s !in used && t !in used
    requires family2 == family1 - {s} + Kept(s, stops) - {t} + Kept(t, stops)
    requires Untouched(Ids(s) + Ids(t), n, outer1, outer2) && MatesOutside(Ids(s) + Ids(t), mate1, mate2)
    requires MatchedWithin(Kept(s, stops) + Kept(t, stops), mate2, slack, n)
    ensures Flipped(family0, used + {s, t}, family2, stops, n, mate0, mate2, outer0, outer2, slack)
  {
    hide *;
    FlippedFacts(family0, used, family1, stops, n, mate0, mate1, outer0, outer1, slack);
    MoreUsed(used, s, t, stops);
    OuterTrans(Covered(used), Ids(s) + Ids(t), n, outer0, outer1, outer2);
    MatesTrans(Covered(used), Ids(s) + Ids(t), mate0, mate1, mate2);
    NotKept(family0, used, stops, n, s);
    NotKept(family0, used, stops, n, t);
    NotKept(family0, {s}, stops, n, t);
    MoreUsedOne(s, stops);
    PairUsedSets(family0, used, KeptOf(used, stops), s, t, Kept(s, stops), Kept(t, stops));
    SameElsewhere(family0, used, stops, n, s, t, mate1, mate2);
    MatchedFrame(KeptOf(used, stops), mate1, mate2, slack, n);
    MatchedUnion(KeptOf(used, stops), Kept(s, stops) + Kept(t, stops), mate2, slack, n);
    MakeFlipped(family0, used + {s, t}, family2, stops, n, mate0, mate2, outer0, outer2, slack);
  }

  lemma MoreUsedOne(s: Tree, stops: set<int>)
    ensures KeptOf({s}, stops) == Kept(s, stops)
  {
    forall k
      ensures k in KeptOf({s}, stops) <==> k in Kept(s, stops)
    {
      assert s in {s};
    }
  }

  lemma NotKept(family: set<Tree>, used: set<Tree>, stops: set<int>, n: nat, t: Tree)
    requires Laminar(family, {}, n) && used <= family && t in family && t !in used
    ensures t !in KeptOf(used, stops)
  {
    if t in KeptOf(used, stops) {
      KeptOfInside(used, stops, n, family, t);
      UnusedApart(family, used, n, t);
      IdInTree(t);
    }
  }

  lemma SameElsewhere(family: set<Tree>, used: set<Tree>, stops: set<int>, n: nat, s: Tree, t: Tree, mate: seq<int>,
                      mate': seq<int>)
    requires Laminar(family, {}, n) && used <= family && s in family && t in family && s !in used && t !in used
    requires MatesOutside(Ids(s) + Ids(t), mate, mate')
    ensures SameMates(KeptOf(used, stops), mate, mate')
  {
    hide Laminar, Ids, Covered, Kept;
    forall k | k in KeptOf(used, stops) && 0 <= k.id < |mate|
      ensures mate'[k.id] == mate[k.id]
    {
      KeptOfInside(used, stops, n, family, k);
      UnusedApart(family, used, n, s);
      UnusedApart(family, used, n, t);
    }
  }

  // At the end of the path ----------------------------------------------------------------------------------

  /** Every used tree is unmatched or matched to a used tree. */
  ghost predicate ClosedUnderMates(used: set<Tree>, mate: seq<int>, slack: seq<real>, n: nat) {
    PartlyMatched(used, mate, slack, n)
  }

  /** What a reset would leave is the same before and after. */
  lemma FlipBase(family0: set<Tree>, used: set<Tree>, stops: set<int>)
    requires used <= family0
    ensures KeptOf(family0 - used + KeptOf(used, stops), stops) == KeptOf(family0, stops)
  {
    var more := family0 - used + KeptOf(used, stops);
    hide Kept;
    forall k
      ensures k in KeptOf(more, stops) <==> k in KeptOf(family0, stops)
    {
      if k in KeptOf(more, stops) {
        var s := OwnerOf(more, stops, k);
        if s in KeptOf(used, stops) {
          var t := OwnerOf(used, stops, s);
          KeptStable(t, stops, s);
          InKeptOf(family0, stops, t, k);
        } else {
          InKeptOf(family0, stops, s, k);
        }
      }
      if k in KeptOf(family0, stops) {
        var s := OwnerOf(family0, stops, k);
        if s in used {
          InKeptOf(used, stops, s, k);
          KeptStable(s, stops, k);
          InKeptOf(more, stops, k, k);
        } else {
          InKeptOf(more, stops, s, k);
        }
      }
    }
  }

  /** Outside the path mates and pieces are as they were. */
  lemma UnusedSame(family0: set<Tree>, used: set<Tree>, stops: set<int>, n: nat, mate0: seq<int>, mate: seq<int>,
                   t: Tree)
    requires Laminar(family0, {}, n) && used <= family0 && t in family0 && t !in used
    requires MatesOutside(Covered(used), mate0, mate)
    ensures SameMates(Kept(t, stops), mate0, mate) && (0 <= t.id < |mate0| ==> mate[t.id] == mate0[t.id])
  {
    UnusedApart(family0, used, n, t);
    KeptCovered(t, stops, n);
    IdInTree(t);
    FamilyShape(family0, n, t);
    hide Laminar, Covered, Kept, Ids;
  }

  /** A node left of an unused tree is unmatched or matched as before. */
  lemma UnusedMatched(family0: set<Tree>, used: set<Tree>, stops: set<int>, n: nat, mate0: seq<int>, mate: seq<int>,
                      slack: seq<real>,
                      t: Tree, k: Tree)
    requires Laminar(family0, {}, n) && used <= family0 && t in family0 && t !in used && k in Kept(t, stops)
    requires Good(family0, stops, mate0, slack, n) && MatesOutside(Covered(used), mate0, mate)
    requires ClosedUnderMates(used, mate0, slack, n) && 0 <= k.id < |mate0|
    ensures |mate| == |mate0| && mate[k.id] == mate0[k.id]
    ensures mate0[k.id] == -1 || HasMate(KeptOf(family0, stops), k, mate, slack, n)
  {
    hide *;
    UnusedSame(family0, used, stops, n, mate0, mate, t);
    SameMatesAt(Kept(t, stops), k, mate0, mate);
    if mate0[k.id] != -1 {
      var p := GoodFacts(family0, stops, mate0, slack, n, t);
      PieceFacts(t, p, stops, mate0, slack, n);
      if k != p {
        var r := MatchedHas(Kept(t, stops) - {p}, k, mate0, slack, n);
        MutualLeaves(k, r, mate0, slack, n);
        SameMatesAt(Kept(t, stops), r, mate0, mate);
        MutualFrame(k, r, mate0, mate, slack, n);
        InKeptOf(family0, stops, t, r);
        HasMateBy(KeptOf(family0, stops), k, r, mate, slack, n);
      } else {
        var s, r := PiecePartner(family0, stops, mate0, slack, n, t, p);
        PieceFacts(s, r, stops, mate0, slack, n);
        PartnerUnused(family0, used, n, mate0, slack, t, s);
        UnusedSame(family0, used, stops, n, mate0, mate, s);
        SameMatesAt(Kept(s, stops), r, mate0, mate);
        MutualFrame(k, r, mate0, mate, slack, n);
        InKeptOf(family0, stops, s, r);
        MutualLeaves(k, r, mate0, slack, n);
        OtherPiece(family0, n, stops, t, s, k, r);
        HasMateBy(KeptOf(family0, stops), k, r, mate, slack, n);
      }
    }
  }

  lemma OtherPiece(family: set<Tree>, n: nat, stops: set<int>, t: Tree, s: Tree, k: Tree, r: Tree)
    requires Laminar(family, {}, n) && s in family && t in family && s != t && k in Kept(t, stops)
    requires r in Kept(s, stops)
    ensures k != r
  {
    KeptCovered(s, stops, n);
    KeptCovered(t, stops, n);
  }

  /** The partner of an unused tree is not used. */
  lemma PartnerUnused(family: set<Tree>, used: set<Tree>, n: nat, mate: seq<int>, slack: seq<real>, t: Tree, s: Tree)
    requires Laminar(family, {}, n) && used <= family && t in family && t !in used && s in family
    requires Mutual(t, s, mate, slack, n)
    requires ClosedUnderMates(used, mate, slack, n)
    ensures s !in used
  {
    if s in used {
      MutualLeaves(t, s, mate, slack, n);
      FamilyShape(family, n, s);
      RootsApart(family, n, s);
      var r := PartlyHas(used, s, mate, slack, n);
      MutualLeaves(s, r, mate, slack, n);
      LeavesOnce(family, n, r, t, mate[s.id]);
    }
  }

  lemma UsedPiece(used: set<Tree>, stops: set<int>, mate: seq<int>, slack: seq<real>, n: nat, family: set<Tree>,
                  k: Tree)
    requires Laminar(family, {}, n) && used <= family && k in KeptOf(used, stops) && |mate| == 2 * n
    ensures HasPiece(k, stops, mate, slack, n)
  {
    hide Loose, MatchedWithin, Laminar;
    var t := OwnerOf(used, stops, k);
    KeptStable(t, stops, k);
    KeptOfInside(used, stops, n, family, k);
    ClosedPiece(k, stops, mate, slack, n);
  }

  lemma UnusedPiece(family0: set<Tree>, used: set<Tree>, stops: set<int>, n: nat, mate0: seq<int>, mate: seq<int>,
                    slack: seq<real>, t: Tree)
    requires Laminar(family0, {}, n) && used <= family0 && t in family0 && t !in used
    requires Good(family0, stops, mate0, slack, n)
    requires MatesOutside(Covered(used), mate0, mate)
    ensures HasPiece(t, stops, mate, slack, n)
  {
    hide Laminar, Good, Kept, Loose, Covered, MatesOutside, SameMates;
    var p := GoodFacts(family0, stops, mate0, slack, n, t);
    PieceFacts(t, p, stops, mate0, slack, n);
    UnusedSame(family0, used, stops, n, mate0, mate, t);
    LooseFrame(t, p, stops, mate0, mate, slack, n);
  }

  /** After the whole path the state is good again; nodes that were matched still are, and the used ones all are. */
  lemma FlipEnd(family0: set<Tree>, used: set<Tree>, family: set<Tree>, stops: set<int>, n: nat,
                mate0: seq<int>, mate: seq<int>, outer0: seq<int>, outer: seq<int>, slack: seq<real>)
    requires Laminar(family0, {}, n) && Flipped(family0, used, family, stops, n, mate0, mate, outer0, outer, slack)
    requires Good(family0, stops, mate0, slack, n) && ClosedUnderMates(used, mate0, slack, n)
    ensures KeptOf(family, stops) == KeptOf(family0, stops) && Good(family, stops, mate, slack, n)
    ensures |mate| == |mate0| == 2 * n
    ensures forall k :: k in KeptOf(family0, stops) && 0 <= k.id < 2 * n && mate[k.id] == -1 ==> mate0[k.id] == -1
    ensures forall k :: k in KeptOf(used, stops) && 0 <= k.id < 2 * n ==> mate[k.id] != -1
  {
    hide *;
    FlippedFacts(family0, used, family, stops, n, mate0, mate, outer0, outer, slack);
    FlipBase(family0, used, stops);
    GoodPartly(family0, stops, mate0, slack, n);
    MatesSize(Covered(used), mate0, mate);
    var base := KeptOf(family0, stops);
    forall k | k in KeptOf(used, stops) && 0 <= k.id < 2 * n
      ensures mate[k.id] != -1 && HasMate(base, k, mate, slack, n)
    {
      var r := MatchedHas(KeptOf(used, stops), k, mate, slack, n);
      MutualLeaves(k, r, mate, slack, n);
      KeptOfPart(family0, used, stops);
      HasMateBy(base, k, r, mate, slack, n);
    }
    forall k | k in base && 0 <= k.id < 2 * n
      ensures mate[k.id] == -1 ==> mate0[k.id] == -1
      ensures mate[k.id] == -1 || HasMate(base, k, mate, slack, n)
    {
      var t := OwnerOf(family0, stops, k);
      if t in used {
        InKeptOf(used, stops, t, k);
      } else {
        UnusedMatched(family0, used, stops, n, mate0, mate, slack, t, k);
      }
    }
    MakePartly(base, mate, slack, n);
    forall t | t in family
      ensures HasPiece(t, stops, mate, slack, n)
    {
      if t in KeptOf(used, stops) {
        UsedPiece(used, stops, mate, slack, n, family0, t);
      } else {
        UnusedPiece(family0, used, stops, n, mate0, mate, slack, t);
      }
    }
    MakeGood(family, stops, mate, slack, n);
  }

  lemma MatesSize(s: set<int>, mate: seq<int>, mate': seq<int>)
    requires MatesOutside(s, mate, mate')
    ensures |mate'| == |mate|
  {
  }

  lemma KeptOfPart(family: set<Tree>, used: set<Tree>, stops: set<int>)
    requires used <= family
    ensures KeptOf(used, stops) <= KeptOf(family, stops)
  {
  }

  lemma MakePartly(s: set<Tree>, mate: seq<int>, slack: seq<real>, n: nat)
    requires |mate| == 2 * n
    requires forall k :: k in s && 0 <= k.id < 2 * n ==> mate[k.id] == -1 || HasMate(s, k, mate, slack, n)
    ensures PartlyMatched(s, mate, slack, n)
  {
  }

  /** Unused trees are still in the family. */
  lemma StillThere(family0: set<Tree>, used: set<Tree>, family: set<Tree>, stops: set<int>, n: nat,
                   mate0: seq<int>, mate: seq<int>, outer0: seq<int>, outer: seq<int>, slack: seq<real>, t: Tree)
    requires Flipped(family0, used, family, stops, n, mate0, mate, outer0, outer, slack) && t in family0 && t !in used
    ensures t in family
  {
  }

  lemma DifferentIds(family: set<Tree>, n: nat, s: Tree, t: Tree)
    requires Laminar(family, {}, n) && s in family && t in family && s != t
    ensures s.id != t.id && s.id in Ids(s) && t.id in Ids(t)
  {
    IdInTree(s);
    IdInTree(t);
  }

  /** First the two mates are set, then expansion changes mates inside the two trees. */
  lemma TwoMates(s: Tree, t: Tree, mate: seq<int>, p: int, q: int, mate': seq<int>)
    requires s.id == p && t.id == q && 0 <= p < |mate| && 0 <= q < |mate|
    requires MatesOutside(Ids(s) + Ids(t), mate[p := q][q := p], mate')
    ensures MatesOutside(Ids(s) + Ids(t), mate, mate')
  {
    IdInTree(s);
    IdInTree(t);
  }
}
