/** From one round of the solver to the next: what a step of the duals does to the matching. */
module DualRounds {
  import opened EdgeIndex
  import opened BlossomTree
  import opened BlossomFamily
  import opened BlossomPartition
  import opened BlossomCircuit
  import opened BlossomMates
  import opened MatchingFacts
  import opened BlossomExpand
  import opened BlossomDuals
  import opened BlossomUnblock
  import opened BlossomRetrieve
  import opened MatchingStart
  import opened FreshBlossoms
  import opened Augmentation
  import opened AlternatingForest
  import opened AugmentingPath
  import opened ForestGrowth

  /** A blossom that is about to be opened is matched. */
  ghost predicate OpensMatched(family: set<Tree>, settled: set<int>, n: nat, blocked: seq<bool>, dual: seq<real>,
                               mate: seq<int>) {
    |blocked| == 2 * n && |dual| == 2 * n && |mate| == 2 * n &&
    forall t :: t in family && n <= t.id < 2 * n && t.id !in settled && blocked[t.id] && !(dual[t.id] > 0.0) ==>
      mate[t.id] != -1
  }

  ghost predicate InactiveOpen(n: nat, active: seq<bool>, blocked: seq<bool>) {
    |active| == 2 * n && |blocked| == 2 * n && forall j :: n <= j < 2 * n && !active[j] ==> !blocked[j]
  }

  /** No node became unmatched. */
  ghost predicate FewerExposed(family0: set<Tree>, mate0: seq<int>, family: set<Tree>, mate: seq<int>, n: nat) {
    |mate0| == 2 * n && |mate| == 2 * n &&
    forall t :: t in family && 0 <= t.id < 2 * n && mate[t.id] == -1 ==> t in family0 && mate0[t.id] == -1
  }

  /** New outermost nodes are vertices or blocked. */
  ghost predicate LeftOver(family0: set<Tree>, family: set<Tree>, n: nat, blocked: seq<bool>) {
    |blocked| == 2 * n && forall t :: t in family && n <= t.id < 2 * n ==> t in family0 || blocked[t.id]
  }

  /** The matching while blossoms are opened. */
  ghost predicate Strong(family0: set<Tree>, mate0: seq<int>, family: set<Tree>, settled: set<int>, n: nat,
                         active: seq<bool>, blocked: seq<bool>,
                         dual: seq<real>, mate: seq<int>, slack: seq<real>)
  {
    && PartlyMatched(family, mate, slack, n) && OpensMatched(family, settled, n, blocked, dual, mate) && InactiveOpen(n,
      active, blocked)
    && FewerExposed(family0, mate0, family, mate, n) && LeftOver(family0, family, n, blocked) && TightFamily(family,
      slack, n)
  }

  lemma StrongParts(family0: set<Tree>, mate0: seq<int>, family: set<Tree>, settled: set<int>, n: nat,
                    active: seq<bool>, blocked: seq<bool>,
                    dual: seq<real>, mate: seq<int>, slack: seq<real>)
    requires Strong(family0, mate0, family, settled, n, active, blocked, dual, mate, slack)
    ensures PartlyMatched(family, mate, slack, n) && OpensMatched(family, settled, n, blocked, dual, mate)
    ensures InactiveOpen(n, active, blocked)
    ensures FewerExposed(family0, mate0, family, mate, n) && LeftOver(family0, family, n, blocked)
    ensures TightFamily(family, slack, n)
    ensures |mate| == 2 * n && |blocked| == 2 * n && |dual| == 2 * n && |active| == 2 * n
  {
  }

  lemma MakeStrong(family0: set<Tree>, mate0: seq<int>, family: set<Tree>, settled: set<int>, n: nat, active: seq<bool>,
                   blocked: seq<bool>,
                   dual: seq<real>, mate: seq<int>, slack: seq<real>)
    requires PartlyMatched(family, mate, slack, n) && OpensMatched(family, settled, n, blocked, dual, mate)
    requires InactiveOpen(n, active, blocked)
    requires FewerExposed(family0, mate0, family, mate, n) && LeftOver(family0, family, n, blocked)
    requires TightFamily(family, slack, n)
    ensures Strong(family0, mate0, family, settled, n, active, blocked, dual, mate, slack)
  {
  }

  /** One more number is settled without opening anything. */
  lemma StrongOn(family0: set<Tree>, mate0: seq<int>, family: set<Tree>, settled: set<int>, n: nat, active: seq<bool>,
                 blocked: seq<bool>,
                 dual: seq<real>, mate: seq<int>, slack: seq<real>, i: int, outer: seq<int>)
    requires Strong(family0, mate0, family, settled, n, active, blocked, dual, mate, slack) && n <= i < 2 * n
    requires Settled(settled, n, outer, active, blocked, dual)
    ensures dual[i] > 0.0 ==>
      Strong(family0, mate0, family, settled + {i}, n, active, blocked[i := true], dual, mate, slack)
    ensures Strong(family0, mate0, family, settled + {i}, n, active, blocked, dual, mate, slack)
  {
    hide PartlyMatched, TightFamily;
  }

  lemma StrongMatched(family0: set<Tree>, mate0: seq<int>, family: set<Tree>, settled: set<int>, n: nat,
                      active: seq<bool>, blocked: seq<bool>,
                      dual: seq<real>, mate: seq<int>, slack: seq<real>, t: Tree)
    requires Strong(family0, mate0, family, settled, n, active, blocked, dual, mate, slack) && t in family
    requires n <= t.id < 2 * n
    requires t.id !in settled && blocked[t.id] && !(dual[t.id] > 0.0)
    ensures mate[t.id] != -1
  {
    hide PartlyMatched, TightFamily;
  }

  /** Where a node of the new family comes from, and what its mate is. */
  lemma ExpandMatched(family: set<Tree>, family': set<Tree>, n: nat, mate: seq<int>, mate': seq<int>, slack: seq<real>,
                      t: Tree, partner: Tree, piece: Tree, stops: set<int>, s: Tree)
    requires Laminar(family, {}, n) && t in family && partner in family && partner != t && |mate| == 2 * n
    requires |mate'| == 2 * n
    requires PartlyMatched(family, mate, slack, n) && Mutual(t, partner, mate, slack, n)
    requires family' == family - {t} + Kept(t, stops)
    requires MatesOutside(Ids(t) + {partner.id}, mate, mate')
    requires MatchedExcept(Kept(t, stops), piece, partner, mate', slack, n) && piece != partner
    requires s in family' && 0 <= s.id < 2 * n
    ensures mate'[s.id] == -1 || HasMate(family', s, mate', slack, n)
    ensures mate'[s.id] == -1 ==> s in family && s != t && s != partner && mate[s.id] == -1
    ensures s in family && s != t ==> (mate'[s.id] == mate[s.id] || s == partner)
  {
    hide *;
    PieceIn(Kept(t, stops), piece, partner, mate', slack, n);
    MutualBack(piece, partner, mate', slack, n);
    if s == partner {
      HasMateBy(family', s, piece, mate', slack, n);
      MutualLeaves(partner, piece, mate', slack, n);
      PartnerStays(family, family', n, t, stops, partner);
    } else if s in Kept(t, stops) {
      if s == piece {
        HasMateBy(family', s, partner, mate', slack, n);
        MutualLeaves(piece, partner, mate', slack, n);
      } else {
        var r := InnerMate(Kept(t, stops), piece, partner, mate', slack, n, s);
        HasMateBy(family', s, r, mate', slack, n);
        MutualLeaves(s, r, mate', slack, n);
      }
      KeptNotOther(family, n, t, stops, s);
    } else {
      PartlyAt(family, mate, slack, n, s);
      OtherStaysMatched(family, family', n, mate, mate', slack, t, partner, s);
      OutsideBoth(family, n, t, partner, s, mate, mate');
    }
  }

  lemma KeptNotOther(family: set<Tree>, n: nat, t: Tree, stops: set<int>, s: Tree)
    requires Laminar(family, {}, n) && t in family && s in Kept(t, stops)
    ensures s in family ==> s == t
  {
    KeptCovered(t, stops, n);
    IdInTree(s);
  }

  lemma PartnerStays(family: set<Tree>, family': set<Tree>, n: nat, t: Tree, stops: set<int>, partner: Tree)
    requires family' == family - {t} + Kept(t, stops) && partner in family && partner != t
    ensures partner in family'
  {
  }

  lemma InnerMate(s: set<Tree>, piece: Tree, partner: Tree, mate: seq<int>, slack: seq<real>, n: nat,
                  k: Tree) returns (r: Tree)
    requires MatchedExcept(s, piece, partner, mate, slack, n) && k in s && k != piece
    ensures r in s && r != k && Mutual(k, r, mate, slack, n)
  {
    r := MatchedHas(s - {piece}, k, mate, slack, n);
  }

  lemma PartlyAt(family: set<Tree>, mate: seq<int>, slack: seq<real>, n: nat, s: Tree)
    requires PartlyMatched(family, mate, slack, n) && s in family && 0 <= s.id < 2 * n
    ensures |mate| == 2 * n && (mate[s.id] == -1 || HasMate(family, s, mate, slack, n))
  {
  }

  lemma OutsideBoth(family: set<Tree>, n: nat, t: Tree, partner: Tree, s: Tree, mate: seq<int>, mate': seq<int>)
    requires Laminar(family, {}, n) && t in family && partner in family && s in family && s != t && s != partner
    requires MatesOutside(Ids(t) + {partner.id}, mate, mate') && 0 <= s.id < |mate|
    ensures |mate'| == |mate| && mate'[s.id] == mate[s.id]
  {
    IdInTree(s);
    IdInTree(partner);
    RootOutside(s, Ids(t) + {partner.id}, mate, mate');
  }

  /** After a matched blossom was expanded. */
  lemma StrongExpand(family0: set<Tree>, mate0: seq<int>, family: set<Tree>, settled: set<int>, n: nat,
                     active: seq<bool>, blocked: seq<bool>,
                     dual: seq<real>, mate: seq<int>, slack: seq<real>, t: Tree, partner: Tree, piece: Tree,
                     stops: set<int>,
                     family': set<Tree>, active': seq<bool>, blocked': seq<bool>, mate': seq<int>)
    requires Strong(family0, mate0, family, settled, n, active, blocked, dual, mate, slack) && Laminar(family, {}, n)
    requires t in family && partner in family && partner != t && n <= t.id < 2 * n && Mutual(t, partner, mate, slack, n)
    requires |blocked| == 2 * n && blocked' == blocked[t.id := false] && stops == BlockedOnes(n, blocked')
    requires |active'| == 2 * n && |active| == 2 * n
    requires family' == family - {t} + Kept(t, stops) && MatesOutside(Ids(t) + {partner.id}, mate, mate')
    requires MatchedExcept(Kept(t, stops), piece, partner, mate', slack, n) && piece != partner
    requires forall k :: k in Kept(t, stops) ==> k.id < n || k.id in settled
    requires forall j :: 0 <= j < 2 * n ==> (active'[j] <==> active[j] && j !in Opened(t, stops))
    ensures Strong(family0, mate0, family', settled + {t.id}, n, active', blocked', dual, mate', slack)
  {
    hide *;
    StrongParts(family0, mate0, family, settled, n, active, blocked, dual, mate, slack);
    MatesSize(Ids(t) + {partner.id}, mate, mate');
    forall s | s in family' && 0 <= s.id < 2 * n
      ensures mate'[s.id] == -1 || HasMate(family', s, mate', slack, n)
      ensures mate'[s.id] == -1 ==> s in family && s != t && s != partner && mate[s.id] == -1
    {
      ExpandMatched(family, family', n, mate, mate', slack, t, partner, piece, stops, s);
    }
    MakePartly(family', mate', slack, n);
    StillOpensMatched(family, settled, n, blocked, dual, mate, t, stops, family', blocked', mate');
    StillInactiveOpen(n, active, blocked, t, stops, active', blocked', family);
    StillFewer(family0, mate0, family, mate, n, family', mate');
    FamilyShape(family, n, t);
    RootsApart(family, n, t);
    StillLeftOver(family0, family, n, blocked, t, stops, family', blocked');
    ExpandTight(family, t, stops, slack, n);
    MakeStrong(family0, mate0, family', settled + {t.id}, n, active', blocked', dual, mate', slack);
  }

  lemma StillOpensMatched(family: set<Tree>, settled: set<int>, n: nat, blocked: seq<bool>, dual: seq<real>,
                          mate: seq<int>, t: Tree, stops: set<int>,
                          family': set<Tree>, blocked': seq<bool>, mate': seq<int>)
    requires OpensMatched(family, settled, n, blocked, dual, mate) && n <= t.id < 2 * n && |mate'| == 2 * n
    requires |blocked| == 2 * n && blocked' == blocked[t.id := false] && family' == family - {t} + Kept(t, stops)
    requires forall k :: k in Kept(t, stops) ==> k.id < n || k.id in settled
    requires forall s :: s in family' && 0 <= s.id < 2 * n ==> mate'[s.id] == -1 ==> s in family && mate[s.id] == -1
    ensures OpensMatched(family', settled + {t.id}, n, blocked', dual, mate')
  {
    hide Kept;
  }

  lemma StillInactiveOpen(n: nat, active: seq<bool>, blocked: seq<bool>, t: Tree, stops: set<int>, active': seq<bool>,
                          blocked': seq<bool>, family: set<Tree>)
    requires InactiveOpen(n, active, blocked) && n <= t.id < 2 * n && Laminar(family, {}, n) && t in family
    requires |blocked| == 2 * n && |active| == 2 * n && |active'| == 2 * n && blocked' == blocked[t.id := false]
    requires stops == BlockedOnes(n, blocked')
    requires forall j :: 0 <= j < 2 * n ==> (active'[j] <==> active[j] && j !in Opened(t, stops))
    ensures InactiveOpen(n, active', blocked')
  {
    FamilyShape(family, n, t);
    hide Laminar, Shape;
    forall j | n <= j < 2 * n && !active'[j]
      ensures !blocked'[j]
    {
      if j in Opened(t, stops) {
        OpenedNotStops(t, stops, j);
      }
    }
  }

  lemma StillFewer(family0: set<Tree>, mate0: seq<int>, family: set<Tree>, mate: seq<int>, n: nat, family': set<Tree>,
                   mate': seq<int>)
    requires FewerExposed(family0, mate0, family, mate, n) && |mate'| == 2 * n && |mate| == 2 * n
    requires forall s :: s in family' && 0 <= s.id < 2 * n ==> mate'[s.id] == -1 ==> s in family && mate[s.id] == -1
    ensures FewerExposed(family0, mate0, family', mate', n)
  {
  }

  lemma StillLeftOver(family0: set<Tree>, family: set<Tree>, n: nat, blocked: seq<bool>, t: Tree, stops: set<int>,
                      family': set<Tree>, blocked': seq<bool>)
    requires LeftOver(family0, family, n, blocked) && n <= t.id < 2 * n && Shape(t, n)
    requires (forall s :: s in family && s != t ==> s.id != t.id)
    requires |blocked| == 2 * n && blocked' == blocked[t.id := false] && stops == BlockedOnes(n, blocked')
    requires family' == family - {t} + Kept(t, stops)
    ensures LeftOver(family0, family', n, blocked')
  {
    forall s | s in family' && n <= s.id < 2 * n
      ensures s in family0 || blocked'[s.id]
    {
      if s in Kept(t, stops) {
        KeptStops(t, stops, n, s);
      }
    }
  }

  lemma StrongMore(family0: set<Tree>, mate0: seq<int>, family: set<Tree>, settled: set<int>, more: set<int>, n: nat,
                   active: seq<bool>, blocked: seq<bool>,
                   dual: seq<real>, mate: seq<int>, slack: seq<real>)
    requires Strong(family0, mate0, family, settled, n, active, blocked, dual, mate, slack) && Upto(n, 2 * n) <= settled
    requires more == Upto(n, 2 * n)
    ensures Strong(family0, mate0, family, more, n, active, blocked, dual, mate, slack)
  {
    hide PartlyMatched, TightFamily;
  }

  lemma NoDual(settled: set<int>, n: nat, outer: seq<int>, active: seq<bool>, blocked: seq<bool>, dual: seq<real>,
               i: int)
    requires Settled(settled, n, outer, active, blocked, dual) && n <= i < 2 * n && !(dual[i] > 0.0)
    ensures dual[i] == 0.0
  {
  }

  lemma VerticesActive(family: set<Tree>, n: nat, active: seq<bool>, free: seq<int>, deep: seq<seq<int>>,
                       shallow: seq<seq<int>>, outer: seq<int>)
    requires Whole(family, {}, n, active, free, deep, shallow, outer)
    ensures |active| == 2 * n && forall v :: 0 <= v < n ==> active[v]
  {
  }

  lemma ExpandTight(family: set<Tree>, t: Tree, stops: set<int>, slack: seq<real>, n: nat)
    requires TightFamily(family, slack, n) && t in family
    ensures TightFamily(family - {t} + Kept(t, stops), slack, n)
  {
    hide TightTree, Kept;
    forall k | k in Kept(t, stops)
      ensures TightTree(k, slack, n)
    {
      KeptTight(t, stops, slack, n, k);
    }
  }

  // Before the blossoms are opened ------------------------------------------------------------------------

  /** Every matched node has a mate with which its changes cancel. */
  lemma ForestBalanced(family: set<Tree>, stops: set<int>, n: nat, active: seq<bool>, free: seq<int>,
                       deep: seq<seq<int>>, shallow: seq<seq<int>>, outer: seq<int>,
                       forest: seq<int>, kind: seq<int>, root: seq<int>, mate: seq<int>, slack: seq<real>, t: Tree)
    requires Whole(family, {}, n, active, free, deep, shallow, outer) && PartlyMatched(family, mate, slack, n)
    requires t in family
    requires IsForest(family, stops, n, outer, forest, kind, root, mate, deep, slack) && |kind| == 2 * n
    requires |mate| == 2 * n
    requires 0 <= t.id < 2 * n && mate[t.id] != -1
    ensures HasOpposite(family, t, n, kind, mate, slack)
  {
    hide *;
    if kind[t.id] != UNLABELED {
      ForestOpposite(family, stops, n, active, free, deep, shallow, outer, forest, kind, root, mate, slack, t);
    } else {
      ForestParts(family, stops, n, outer, forest, kind, root, mate, deep, slack);
      var r := FreshPair(family, n, active, free, deep, shallow, outer, forest, kind, root, mate, slack, t);
      PlainOpposite(family, t, r, n, kind, mate, slack);
    }
  }

  lemma PlainOpposite(family: set<Tree>, t: Tree, r: Tree, n: nat, kind: seq<int>, mate: seq<int>, slack: seq<real>)
    requires r in family && r != t && Mutual(t, r, mate, slack, n) && 0 <= t.id < |kind| && 0 <= r.id < |kind|
    requires kind[t.id] == UNLABELED && kind[r.id] == UNLABELED
    ensures HasOpposite(family, t, n, kind, mate, slack)
  {
    assert Sign(UNLABELED) == 0.0;
  }

  lemma OppositeOf(family: set<Tree>, t: Tree, n: nat, kind: seq<int>, mate: seq<int>,
                   slack: seq<real>) returns (r: Tree)
    requires HasOpposite(family, t, n, kind, mate, slack)
    ensures r in family && r != t && Mutual(t, r, mate, slack, n) && 0 <= t.id < |kind| && 0 <= r.id < |kind|
    ensures Sign(kind[t.id]) + Sign(kind[r.id]) == 0.0
  {
    r :| r in family && r != t && Mutual(t, r, mate, slack,
      n) && 0 <= t.id < |kind| && 0 <= r.id < |kind| && Sign(kind[t.id]) + Sign(kind[r.id]) == 0.0;
  }

  ghost predicate AllMoved(n: nat, outer: seq<int>, kind: seq<int>, slack: seq<real>, slack': seq<real>, e: real) {
    forall u, v :: 0 <= u < v < n ==> Moved(u, v, n, outer, kind, slack, slack', e)
  }

  /** Matched nodes stay matched without slack. */
  lemma StepMatched(family: set<Tree>, stops: set<int>, n: nat, active: seq<bool>, free: seq<int>, deep: seq<seq<int>>,
                    shallow: seq<seq<int>>, outer: seq<int>,
                    forest: seq<int>, kind: seq<int>, root: seq<int>, mate: seq<int>, slack: seq<real>,
                    slack': seq<real>, e: real)
    requires Whole(family, {}, n, active, free, deep, shallow, outer) && PartlyMatched(family, mate, slack, n)
    requires IsForest(family, stops, n, outer, forest, kind, root, mate, deep, slack) && |kind| == 2 * n
    requires |mate| == 2 * n
    requires AllMoved(n, outer, kind, slack, slack', e) && |slack'| == EdgeCount(n) && |outer| == 2 * n
    ensures PartlyMatched(family, mate, slack', n)
  {
    hide Whole, PartlyMatched, IsForest, Moved, Mutual, EdgeCount, HasOpposite, Leaves;
    forall t | t in family && 0 <= t.id < 2 * n
      ensures mate[t.id] == -1 || HasMate(family, t, mate, slack', n)
    {
      if mate[t.id] != -1 {
        ForestBalanced(family, stops, n, active, free, deep, shallow, outer, forest, kind, root, mate, slack, t);
        var r := OppositeOf(family, t, n, kind, mate, slack);
        TreeFacts(family, n, active, free, deep, shallow, outer, t);
        TreeFacts(family, n, active, free, deep, shallow, outer, r);
        MutualStays(t, r, n, outer, kind, mate, slack, slack', e);
        HasMateBy(family, t, r, mate, slack', n);
      }
    }
    MakePartly(family, mate, slack', n);
  }

  lemma StepTight(family: set<Tree>, n: nat, active: seq<bool>, free: seq<int>, deep: seq<seq<int>>,
                  shallow: seq<seq<int>>, outer: seq<int>,
                  kind: seq<int>, slack: seq<real>, slack': seq<real>, e: real)
    requires Whole(family, {}, n, active, free, deep, shallow, outer) && TightFamily(family, slack, n)
    requires AllMoved(n, outer, kind, slack, slack', e) && |slack'| == EdgeCount(n) && |outer| == 2 * n
    requires |kind| == 2 * n
    ensures TightFamily(family, slack', n)
  {
    hide Whole, Moved, EdgeCount, TightTree, Leaves;
    forall t | t in family
      ensures TightTree(t, slack', n)
    {
      TreeFacts(family, n, active, free, deep, shallow, outer, t);
      TreeStaysTight(t, n, outer, kind, slack, slack', e, t.id);
    }
  }

  /** A blossom whose dual is gone was odd, so it is matched. */
  lemma StepOpensMatched(family: set<Tree>, n: nat, active: seq<bool>, outer: seq<int>, kind: seq<int>, root: seq<int>,
                         mate: seq<int>,
                         blocked: seq<bool>, dual: seq<real>, dual': seq<real>, e: real)
    requires Labelling(family, n, outer, kind, root, mate) && Blocking(n, active, blocked, dual) && |dual'| == 2 * n
    requires e >= 0.0
    requires |outer| == 2 * n && |kind| == 2 * n && |mate| == 2 * n
    requires forall j :: 0 <= j < 2 * n ==> dual'[j] == dual[j] + DualChange(j, outer, active, kind, e)
    ensures OpensMatched(family, Unlabelled(n, outer, kind), n, blocked, dual', mate)
  {
    forall t | t in family && n <= t.id < 2 * n && t.id !in Unlabelled(n, outer, kind) && blocked[t.id] &&
      !(dual'[t.id] > 0.0)
      ensures mate[t.id] != -1
    {
      LabelFacts(family, n, outer, kind, root, mate, t);
      assert dual'[t.id] == dual[t.id] + DualChange(t.id, outer, active, kind, e);
    }
  }

  lemma StrongStart(family: set<Tree>, base: set<Tree>, stops: set<int>, n: nat, active: seq<bool>, free: seq<int>,
                    deep: seq<seq<int>>, shallow: seq<seq<int>>,
                    outer: seq<int>, forest: seq<int>, kind: seq<int>, root: seq<int>, mate: seq<int>, slack: seq<real>,
                    blocked: seq<bool>,
                    dual: seq<real>, slack': seq<real>, dual': seq<real>, e: real)
    requires Whole(family, {}, n, active, free, deep, shallow, outer)
    requires IsReady(family, base, stops, n, active, blocked, dual, mate, slack)
    requires IsForest(family, stops, n, outer, forest, kind, root, mate, deep, slack) && |kind| == 2 * n
    requires |mate| == 2 * n && |outer| == 2 * n
    requires AllMoved(n, outer, kind, slack, slack', e) && |slack'| == EdgeCount(n) && |dual'| == 2 * n
    requires |dual| == 2 * n && e >= 0.0
    requires forall j :: 0 <= j < 2 * n ==> dual'[j] == dual[j] + DualChange(j, outer, active, kind, e)
    ensures Strong(family, mate, family, Unlabelled(n, outer, kind), n, active, blocked, dual', mate, slack')
  {
    hide Whole, IsReady, IsForest, AllMoved, EdgeCount, Good, KeptOf, TightFamily, FullBlossoms, Labelling, EvensClimb,
      Labels, FreshAreEven,
      PartlyMatched, OpensMatched, Unlabelled, Laminar, DualChange;
    ReadyParts(family, base, stops, n, active, blocked, dual, mate, slack);
    ForestParts(family, stops, n, outer, forest, kind, root, mate, deep, slack);
    LaminarOf(family, n, active, free, deep, shallow, outer);
    GoodIsPartly(family, stops, mate, slack, n);
    StepMatched(family, stops, n, active, free, deep, shallow, outer, forest, kind, root, mate, slack, slack', e);
    StepTight(family, n, active, free, deep, shallow, outer, kind, slack, slack', e);
    StepOpensMatched(family, n, active, outer, kind, root, mate, blocked, dual, dual', e);
    MakeStrong(family, mate, family, Unlabelled(n, outer, kind), n, active, blocked, dual', mate, slack');
  }

  // After they are opened ---------------------------------------------------------------------------------

  lemma StrongBlocking(family0: set<Tree>, mate0: seq<int>, family: set<Tree>, n: nat, outer: seq<int>,
                       active: seq<bool>, blocked: seq<bool>,
                       dual: seq<real>, mate: seq<int>, slack: seq<real>)
    requires Strong(family0, mate0, family, Upto(n, 2 * n), n, active, blocked, dual, mate, slack)
    requires Settled(Upto(n, 2 * n), n, outer, active, blocked, dual)
    ensures Blocking(n, active, blocked, dual)
  {
    StrongParts(family0, mate0, family, Upto(n, 2 * n), n, active, blocked, dual, mate, slack);
    hide Strong;
  }

  /** If the step was positive every outermost blossom that is left has a dual. */
  lemma AllHaveDuals(family0: set<Tree>, stops0: set<int>, family: set<Tree>, n: nat, active0: seq<bool>,
                     active: seq<bool>, outer0: seq<int>, kind: seq<int>,
                     blocked0: seq<bool>, blocked: seq<bool>, dual0: seq<real>, dual: seq<real>, e: real, t: Tree)
    requires LeftOver(family0, family, n, blocked) && Blocking(n, active, blocked, dual)
    requires Blocking(n, active0, blocked0, dual0) && e > 0.0
    requires stops0 == FullBlossoms(n, blocked0, dual0) && FreshAreEven(family0, stops0, kind, n) && |outer0| == 2 * n
    requires |kind| == 2 * n
    requires forall j :: 0 <= j < 2 * n ==> dual[j] == dual0[j] + DualChange(j, outer0, active0, kind, e)
    requires forall j :: n <= j < 2 * n && active0[j] && blocked0[j] && !(dual[j] > 0.0) ==> !active[j]
    requires t in family && n <= t.id < 2 * n && active[t.id]
    requires (t in family0 ==> active0[t.id] && outer0[t.id] == t.id)
    ensures t.id in FullBlossoms(n, blocked, dual)
  {
    if t in family0 && t.id !in stops0 {
      assert dual[t.id] == dual0[t.id] + DualChange(t.id, outer0, active0, kind, e);
    }
  }

  lemma ActiveTree(family: set<Tree>, n: nat, active: seq<bool>, free: seq<int>, deep: seq<seq<int>>,
                   shallow: seq<seq<int>>, outer: seq<int>, t: Tree)
    requires Whole(family, {}, n, active, free, deep, shallow, outer) && t in family
    ensures |active| == 2 * n && 0 <= t.id < 2 * n && active[t.id] && |outer| == 2 * n && outer[t.id] == t.id
    ensures (t.kids == [] <==> t.id < n)
  {
    ActiveIds(family, n, active, free, deep, shallow, outer, t);
    TreeFacts(family, n, active, free, deep, shallow, outer, t);
  }

  /** With a positive step: everything outermost is closed. */
  lemma PositiveRound(family0: set<Tree>, base0: set<Tree>, stops0: set<int>, n: nat, active0: seq<bool>,
                      free0: seq<int>, deep: seq<seq<int>>,
                      shallow0: seq<seq<int>>, outer0: seq<int>, kind: seq<int>, mate0: seq<int>, blocked0: seq<bool>,
                      dual0: seq<real>, slack0: seq<real>, e: real,
                      family: set<Tree>, active: seq<bool>, free: seq<int>, shallow: seq<seq<int>>, outer: seq<int>,
                      blocked: seq<bool>, dual: seq<real>,
                      mate: seq<int>, slack: seq<real>)
    requires Whole(family0, {}, n, active0, free0, deep, shallow0, outer0)
    requires Whole(family, {}, n, active, free, deep, shallow, outer)
    requires IsReady(family0, base0, stops0, n, active0, blocked0, dual0, mate0, slack0)
    requires FreshAreEven(family0, stops0, kind, n) && e > 0.0
    requires Strong(family0, mate0, family, Upto(n, 2 * n), n, active, blocked, dual, mate, slack)
    requires Settled(Upto(n, 2 * n), n, outer, active, blocked, dual)
    requires |outer0| == 2 * n && |active0| == 2 * n && |kind| == 2 * n && |dual0| == 2 * n && |dual| == 2 * n
    requires |blocked0| == 2 * n && |active| == 2 * n && |blocked| == 2 * n
    requires forall j :: 0 <= j < 2 * n ==> dual[j] == dual0[j] + DualChange(j, outer0, active0, kind, e)
    requires forall j :: n <= j < 2 * n && active0[j] && blocked0[j] && !(dual[j] > 0.0) ==> !active[j]
    ensures IsReady(family, KeptOf(family, FullBlossoms(n, blocked, dual)), FullBlossoms(n, blocked, dual), n, active,
      blocked, dual, mate, slack)
  {
    hide *;
    var stops := FullBlossoms(n, blocked, dual);
    ReadyParts(family0, base0, stops0, n, active0, blocked0, dual0, mate0, slack0);
    StrongParts(family0, mate0, family, Upto(n, 2 * n), n, active, blocked, dual, mate, slack);
    StrongBlocking(family0, mate0, family, n, outer, active, blocked, dual, mate, slack);
    forall t | t in family
      ensures t.kids == [] || t.id in stops
    {
      ActiveTree(family, n, active, free, deep, shallow, outer, t);
      if t.kids != [] {
        if t in family0 {
          ActiveTree(family0, n, active0, free0, deep, shallow0, outer0, t);
        }
        AllHaveDuals(family0, stops0, family, n, active0, active, outer0, kind, blocked0, blocked, dual0, dual, e, t);
      }
    }
    KeptOfDone(family, stops);
    LaminarOf(family, n, active, free, deep, shallow, outer);
    ClosedFamily(family, stops, mate, slack, n);
    MakeReady(family, KeptOf(family, stops), stops, n, active, blocked, dual, mate, slack);
  }

  /** With a step of zero nothing has changed. */
  lemma SameSlacks(n: nat, outer: seq<int>, kind: seq<int>, slack: seq<real>, slack': seq<real>)
    requires AllMoved(n, outer, kind, slack, slack', 0.0) && |slack| == EdgeCount(n) && |slack'| == EdgeCount(n)
    ensures slack' == slack
  {
    hide EdgeCount;
    forall i | 0 <= i < |slack|
      ensures slack'[i] == slack[i]
    {
      var u, v := IndexOnto(n, i);
      assert Moved(u, v, n, outer, kind, slack, slack', 0.0);
    }
  }

  lemma ZeroRound(family0: set<Tree>, base0: set<Tree>, stops0: set<int>, n: nat, active0: seq<bool>, outer0: seq<int>,
                  kind: seq<int>, mate0: seq<int>,
                  blocked0: seq<bool>, dual0: seq<real>, slack0: seq<real>, family: set<Tree>, outer: seq<int>,
                  active: seq<bool>, blocked: seq<bool>, dual: seq<real>,
                  mate: seq<int>, slack: seq<real>)
    requires IsReady(family0, base0, stops0, n, active0, blocked0, dual0, mate0, slack0)
    requires Strong(family0, mate0, family, Upto(n, 2 * n), n, active, blocked, dual, mate, slack)
    requires Settled(Upto(n, 2 * n), n, outer, active, blocked, dual)
    requires |dual0| == 2 * n && |dual| == 2 * n && |blocked0| == 2 * n && |blocked| == 2 * n && |active0| == 2 * n
    requires forall j :: 0 <= j < 2 * n ==> dual[j] == dual0[j] + DualChange(j, outer0, active0, kind, 0.0)
    requires AllMoved(n, outer0, kind, slack0, slack, 0.0) && |slack0| == EdgeCount(n) && |slack| == EdgeCount(n)
    requires (forall j :: n <= j < 2 * n && active0[j] && blocked0[j] ==> dual[j] > 0.0) ==>
      family == family0 && mate == mate0 && active == active0
    requires forall j :: 0 <= j < n ==> blocked[j] == blocked0[j]
    ensures IsReady(family, KeptOf(family, FullBlossoms(n, blocked, dual)), FullBlossoms(n, blocked, dual), n, active,
      blocked, dual, mate, slack)
  {
    hide Good, KeptOf, TightFamily, Strong, Settled, EdgeCount, Upto, AllMoved;
    StrongBlocking(family0, mate0, family, n, outer, active, blocked, dual, mate, slack);
    SameSlacks(n, outer0, kind, slack0, slack);
    assert dual == dual0;
    assert family == family0 && mate == mate0 && active == active0;
    assert FullBlossoms(n, blocked, dual) == stops0;
  }

  /** After the round everything is ready for the next reset, and no node became unmatched. */
  lemma RoundReady(family0: set<Tree>, base0: set<Tree>, stops0: set<int>, n: nat, active0: seq<bool>, free0: seq<int>,
                   deep: seq<seq<int>>,
                   shallow0: seq<seq<int>>, outer0: seq<int>, forest: seq<int>, kind: seq<int>, root: seq<int>,
                   mate0: seq<int>, blocked0: seq<bool>,
                   dual0: seq<real>, slack0: seq<real>, e: real,
                   family: set<Tree>, active: seq<bool>, free: seq<int>, shallow: seq<seq<int>>, outer: seq<int>,
                   blocked: seq<bool>, dual: seq<real>,
                   mate: seq<int>, slack: seq<real>)
    requires Whole(family0, {}, n, active0, free0, deep, shallow0, outer0)
    requires Whole(family, {}, n, active, free, deep, shallow, outer)
    requires IsReady(family0, base0, stops0, n, active0, blocked0, dual0, mate0, slack0) && e >= 0.0
    requires IsForest(family0, stops0, n, outer0, forest, kind, root, mate0, deep, slack0)
    requires Strong(family0, mate0, family, Upto(n, 2 * n), n, active, blocked, dual, mate, slack)
    requires Settled(Upto(n, 2 * n), n, outer, active, blocked, dual)
    requires |outer0| == 2 * n && |active0| == 2 * n && |kind| == 2 * n && |dual0| == 2 * n && |dual| == 2 * n
    requires |blocked0| == 2 * n && |active| == 2 * n && |blocked| == 2 * n
    requires |slack0| == EdgeCount(n) && |slack| == EdgeCount(n) && AllMoved(n, outer0, kind, slack0, slack, e)
    requires forall j :: 0 <= j < 2 * n ==> dual[j] == dual0[j] + DualChange(j, outer0, active0, kind, e)
    requires forall j :: n <= j < 2 * n && active0[j] && blocked0[j] && !(dual[j] > 0.0) ==> !active[j]
    requires (forall j :: n <= j < 2 * n && active0[j] && blocked0[j] ==> dual[j] > 0.0) ==>
      family == family0 && mate == mate0 && active == active0
    requires forall j :: 0 <= j < n ==> blocked[j] == blocked0[j]
    ensures IsReady(family, KeptOf(family, FullBlossoms(n, blocked, dual)), FullBlossoms(n, blocked, dual), n, active,
      blocked, dual, mate, slack)
    ensures FewerExposed(family0, mate0, family, mate, n)
  {
    hide *;
    StrongParts(family0, mate0, family, Upto(n, 2 * n), n, active, blocked, dual, mate, slack);
    ForestParts(family0, stops0, n, outer0, forest, kind, root, mate0, deep, slack0);
    if e > 0.0 {
      PositiveRound(family0, base0, stops0, n, active0, free0, deep, shallow0, outer0, kind, mate0, blocked0, dual0,
        slack0, e,
        family, active, free, shallow, outer, blocked, dual, mate, slack);
    } else {
      ZeroRound(family0, base0, stops0, n, active0, outer0, kind, mate0, blocked0, dual0, slack0, family, outer, active,
        blocked, dual, mate, slack);
    }
  }

  // From round to round -----------------------------------------------------------------------------------

  lemma StillPerfect(family0: set<Tree>, mate0: seq<int>, family: set<Tree>, mate: seq<int>, n: nat)
    requires FewerExposed(family0, mate0, family, mate, n) && |mate0| == 2 * n && |mate| == 2 * n
    ensures (forall t :: t in family0 && 0 <= t.id < 2 * n ==> mate0[t.id] != -1) ==>
      forall t :: t in family && 0 <= t.id < 2 * n ==> mate[t.id] != -1
  {
  }

  /** If no outermost node is exposed, a reset shows none either. */
  lemma NoneExposed(family: set<Tree>, base: set<Tree>, stops: set<int>, mate: seq<int>, slack: seq<real>, n: nat)
    requires Laminar(family, {}, n) && Good(family, stops, mate, slack, n) && base == KeptOf(family, stops)
    requires |mate| == 2 * n
    requires forall t :: t in family && 0 <= t.id < 2 * n ==> mate[t.id] != -1
    ensures Exposed(base, mate) == {}
  {
    hide Laminar, Good, KeptOf, Loose, Kept;
    forall k | k in base && 0 <= k.id < |mate|
      ensures mate[k.id] != -1
    {
      var t := OwnerOf(family, stops, k);
      var p := GoodFacts(family, stops, mate, slack, n, t);
      PieceFacts(t, p, stops, mate, slack, n);
      if k != p {
        var r := MatchedHas(Kept(t, stops) - {p}, k, mate, slack, n);
        MutualLeaves(k, r, mate, slack, n);
      } else {
        FamilyShape(family, n, t);
      }
    }
  }

  lemma PerfectlyMatched(family: set<Tree>, mate: seq<int>, slack: seq<real>, n: nat)
    requires Laminar(family, {}, n) && PartlyMatched(family, mate, slack, n) && Exposed(family, mate) == {}
    ensures MatchedWithin(family, mate, slack, n)
  {
    hide Laminar, HasMate;
    forall t | t in family
      ensures HasMate(family, t, mate, slack, n)
    {
      FamilyShape(family, n, t);
      ShapeId(t, n);
      assert t !in Exposed(family, mate);
    }
  }

  lemma ShapeId(t: Tree, n: nat)
    requires Shape(t, n)
    ensures 0 <= t.id < 2 * n
  {
  }

  lemma InactiveNoDual(n: nat, active: seq<bool>, blocked: seq<bool>, dual: seq<real>)
    requires Blocking(n, active, blocked, dual)
    ensures |active| == 2 * n && |dual| == 2 * n && forall j :: n <= j < 2 * n && !active[j] ==> dual[j] == 0.0
  {
  }

  lemma StartBlocking(n: nat, active: seq<bool>, blocked: seq<bool>, dual: seq<real>)
    requires |active| == 2 * n && blocked == seq(2 * n, _ => false) && dual == seq(2 * n, _ => 0.0)
    ensures Blocking(n, active, blocked, dual)
  {
  }

  /** At the start there are only unmatched vertices. */
  lemma StartReady(n: nat, stops: set<int>, active: seq<bool>, blocked: seq<bool>, dual: seq<real>, mate: seq<int>,
                   slack: seq<real>)
    requires Blocking(n, active, blocked, dual) && |blocked| == 2 * n && |dual| == 2 * n
    requires stops == FullBlossoms(n, blocked, dual)
    requires mate == seq(2 * n, _ => -1) && TightFamily(Vertices(n), slack, n) && Laminar(Vertices(n), {}, n)
    ensures IsReady(Vertices(n), Vertices(n), stops, n, active, blocked, dual, mate, slack)
  {
    hide Blocking, TightFamily, Laminar, FullBlossoms, HasMate;
    KeptOfDone(Vertices(n), stops);
    MakePartly(Vertices(n), mate, slack, n);
    hide Vertices;
    ClosedFamily(Vertices(n), stops, mate, slack, n);
    MakeReady(Vertices(n), Vertices(n), stops, n, active, blocked, dual, mate, slack);
  }
}
