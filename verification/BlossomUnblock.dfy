/** Opening the blossoms whose duals have dropped to zero. */
module BlossomUnblock {
  import opened EdgeIndex
  import opened BlossomTree
  import opened BlossomFamily
  import opened BlossomPartition
  import opened BlossomCircuit
  import opened BlossomMates
  import opened MatchingFacts
  import opened BlossomExpand
  import opened BlossomDuals

  /** Nested blossoms are settled; settled blossoms are blocked exactly when they have a dual; inactive
      blossoms have none. */
  ghost predicate Settled(settled: set<int>, n: nat, outer: seq<int>, active: seq<bool>, blocked: seq<bool>,
                          dual: seq<real>) {
    && |outer| == 2 * n && |active| == 2 * n && |blocked| == 2 * n && |dual| == 2 * n
    && (forall j :: n <= j < 2 * n && active[j] ==> outer[j] == j || j in settled)
    && (forall j :: n <= j < 2 * n && j in settled && active[j] ==> (blocked[j] <==> dual[j] > 0.0))
    && (forall j :: n <= j < 2 * n && !active[j] ==> dual[j] == 0.0)
    && (forall j :: n <= j < 2 * n ==> dual[j] >= 0.0)
  }

  /** An outermost blossom that is not settled can be opened: it is unmatched or matched without slack. */
  ghost predicate CanOpen(family: set<Tree>, settled: set<int>, n: nat, mate: seq<int>, slack: seq<real>) {
    |mate| == 2 * n &&
    forall t :: t in family && n <= t.id < 2 * n && t.id !in settled ==>
      TightTree(t, slack, n) && (mate[t.id] == -1 || HasMate(family, t, mate, slack, n))
  }

  lemma SettleOne(settled: set<int>, i: int, n: nat, outer: seq<int>, active: seq<bool>, blocked: seq<bool>,
                  dual: seq<real>)
    requires Settled(settled, n, outer, active, blocked, dual) && n <= i < 2 * n
    ensures dual[i] > 0.0 ==> Settled(settled + {i}, n, outer, active, blocked[i := true], dual)
    ensures !(dual[i] > 0.0) && !(active[i] && blocked[i]) ==> Settled(settled + {i}, n, outer, active, blocked, dual)
    ensures !(dual[i] > 0.0) && active[i] && blocked[i] ==> i !in settled && outer[i] == i
  {
  }

  lemma CanOpenMore(family: set<Tree>, settled: set<int>, more: set<int>, n: nat, mate: seq<int>, slack: seq<real>)
    requires CanOpen(family, settled, n, mate, slack) && settled <= more
    ensures CanOpen(family, more, n, mate, slack)
  {
    hide TightTree, HasMate;
  }

  lemma Opens(family: set<Tree>, settled: set<int>, n: nat, mate: seq<int>, slack: seq<real>, t: Tree)
    requires CanOpen(family, settled, n, mate, slack) && t in family && n <= t.id < 2 * n && t.id !in settled
    ensures TightTree(t, slack, n) && (mate[t.id] == -1 || HasMate(family, t, mate, slack, n))
  {
  }

  /** The blossoms at which opening stops are those blocked with a dual, inside a settled tree. */
  lemma StopsSettled(settled: set<int>, t: Tree, stops: set<int>, n: nat, deep: seq<seq<int>>, shallow: seq<seq<int>>,
                     outer: seq<int>, active: seq<bool>, blocked: seq<bool>, dual: seq<real>, x: int)
    requires Settled(settled, n, outer, active, blocked, dual) && Shape(t, n) && Fits(t, deep, shallow, outer)
    requires (forall j :: j in Ids(t) && 0 <= j < 2 * n ==> active[j]) && x in AllIds(t.kids) && x >= n
    ensures x < 2 * n && x in settled && active[x] && (blocked[x] <==> dual[x] > 0.0)
  {
    LeafIffId(t, n, x);
    NestedOuter(t, n, deep, shallow, outer, x);
  }

  lemma {:induction false} OpenedInIds(t: Tree, stops: set<int>, n: nat, x: int)
    requires Shape(t, n) && x in Opened(t, stops)
    ensures n <= x < 2 * n && (x == t.id || x in AllIds(t.kids)) && x !in stops
  {
    KeptSplits(t, stops, n);
    OpenedNotStops(t, stops, x);
  }

  lemma ActiveIds(family: set<Tree>, n: nat, active: seq<bool>, free: seq<int>, deep: seq<seq<int>>,
                  shallow: seq<seq<int>>, outer: seq<int>, t: Tree)
    requires Whole(family, {}, n, active, free, deep, shallow, outer) && t in family
    ensures forall j :: j in Ids(t) && 0 <= j < 2 * n ==> active[j]
    ensures Shape(t, n) && Fits(t, deep, shallow, outer)
  {
    InCovered(family, t);
    assert Outermost(t, deep, shallow, outer);
  }

  /** Only numbers that were opened become inactive. */
  lemma StillActive(family: set<Tree>, family': set<Tree>, n: nat, active: seq<bool>, active': seq<bool>, t: Tree,
                    stops: set<int>)
    requires Laminar(family, {}, n) && Accounted(family, {}, active, n) && Accounted(family', {}, active', n)
    requires t in family
    requires family' == family - {t} + Kept(t, stops)
    ensures forall j :: 0 <= j < 2 * n ==> (active'[j] <==> active[j] && j !in Opened(t, stops))
  {
    KeptSplits(t, stops, n);
    CoveredSplit(family, {t}, n);
    CoveredOne(t);
    CoveredUnion(family - {t}, Kept(t, stops));
    hide Covered, Laminar, Ids, Kept, Opened;
  }

  /** After a tree is opened everything outside it is as before, and its nested blossoms were settled. */
  lemma SettledAfter(settled: set<int>, i: int, family: set<Tree>, n: nat, free: seq<int>, deep: seq<seq<int>>,
                     shallow: seq<seq<int>>,
                     t: Tree, stops: set<int>, outer: seq<int>, active: seq<bool>, blocked: seq<bool>, dual: seq<real>,
                     outer': seq<int>, active': seq<bool>, blocked': seq<bool>)
    requires Settled(settled, n, outer, active, blocked, dual)
    requires Whole(family, {}, n, active, free, deep, shallow, outer) && t in family
    requires n <= i < 2 * n && t.id == i && dual[i] == 0.0 && i in Opened(t, stops) && |active'| == 2 * n
    requires |blocked'| == 2 * n
    requires Untouched(Ids(t), n, outer, outer')
    requires forall j :: 0 <= j < 2 * n ==> (active'[j] <==> active[j] && j !in Opened(t, stops))
    requires forall j :: 0 <= j < 2 * n && active'[j] ==> blocked'[j] == blocked[j]
    requires forall j :: j in AllIds(t.kids) && n <= j < 2 * n && blocked[j] && dual[j] > 0.0 ==> j in stops
    ensures Settled(settled + {i}, n, outer', active', blocked', dual)
  {
    ActiveIds(family, n, active, free, deep, shallow, outer, t);
    forall j | n <= j < 2 * n
      ensures active'[j] ==> outer'[j] == j || j in settled + {i}
      ensures !active'[j] ==> dual[j] == 0.0
    {
      if j in Opened(t, stops) {
        OpenedInIds(t, stops, n, j);
        if j != i {
          StopsSettled(settled, t, stops, n, deep, shallow, outer, active, blocked, dual, j);
        }
      } else if j in Ids(t) && j != i {
        StopsSettled(settled, t, stops, n, deep, shallow, outer, active, blocked, dual, j);
      }
    }
    hide Ids, AllIds, Opened, Whole;
  }

  /** The nodes that remain of an opened tree are settled or vertices. */
  lemma KeptSettled(settled: set<int>, n: nat, free: seq<int>, deep: seq<seq<int>>, shallow: seq<seq<int>>,
                    family: set<Tree>,
                    t: Tree, stops: set<int>, outer: seq<int>, active: seq<bool>, blocked: seq<bool>, dual: seq<real>)
    requires Settled(settled, n, outer, active, blocked, dual)
    requires Whole(family, {}, n, active, free, deep, shallow, outer) && t in family
    requires t.id in Opened(t, stops)
    ensures forall k :: k in Kept(t, stops) ==> k.id < n || k.id in settled
  {
    ActiveIds(family, n, active, free, deep, shallow, outer, t);
    KeptSplits(t, stops, n);
    KeptCovered(t, stops, n);
    forall k | k in Kept(t, stops)
      ensures k.id < n || k.id in settled
    {
      InCovered(Kept(t, stops), k);
      IdInTree(k);
      assert k.id !in Opened(t, stops);
      if k.id >= n {
        StopsSettled(settled, t, stops, n, deep, shallow, outer, active, blocked, dual, k.id);
      }
    }
  }

  lemma LeavesApart(family: set<Tree>, n: nat, s: Tree, t: Tree, x: int)
    requires Laminar(family, {}, n) && s in family && t in family && x in Leaves(s) && x in Leaves(t)
    ensures s == t
  {
    LeafIffId(s, n, x);
    LeafIffId(t, n, x);
  }

  /** Blossoms that can be opened still can after an unmatched one is destroyed. */
  lemma CanOpenAfterDestroy(family: set<Tree>, family': set<Tree>, settled: set<int>, n: nat, mate: seq<int>,
                            mate': seq<int>, slack: seq<real>,
                            t: Tree, stops: set<int>)
    requires CanOpen(family, settled, n, mate, slack) && Laminar(family, {}, n) && t in family && 0 <= t.id < 2 * n
    requires mate[t.id] == -1
    requires family' == family - {t} + Kept(t, stops) && MatesOutside(Ids(t), mate, mate')
    requires forall k :: k in Kept(t, stops) ==> k.id < n || k.id in settled
    ensures CanOpen(family', settled, n, mate', slack)
  {
    hide TightTree, Shape, Kept, Ids;
    forall s | s in family' && n <= s.id < 2 * n && s.id !in settled
      ensures TightTree(s, slack, n) && (mate'[s.id] == -1 || HasMate(family', s, mate', slack, n))
    {
      IdInTree(s);
      RootOutside(s, Ids(t), mate, mate');
      if mate[s.id] != -1 {
        assert HasMate(family, s, mate, slack, n);
        var r :| r in family && r != s && Mutual(s, r, mate, slack, n);
        LeavesInArray(s, n);
        IdInTree(r);
        RootOutside(r, Ids(t), mate, mate');
        MutualFrame(s, r, mate, mate', slack, n);
      }
    }
  }

  /** Blossoms that can be opened still can after one is expanded with its partner. */
  lemma CanOpenAfterExpand(family: set<Tree>, family': set<Tree>, settled: set<int>, n: nat, mate: seq<int>,
                           mate': seq<int>, slack: seq<real>,
                           t: Tree, partner: Tree, piece: Tree, stops: set<int>)
    requires CanOpen(family, settled, n, mate, slack) && Laminar(family, {}, n) && t in family && partner in family
    requires t != partner
    requires Mutual(t, partner, mate, slack, n) && family' == family - {t} + Kept(t, stops)
    requires MatesOutside(Ids(t) + {partner.id}, mate, mate')
    requires MatchedExcept(Kept(t, stops), piece, partner, mate', slack, n)
    requires forall k :: k in Kept(t, stops) ==> k.id < n || k.id in settled
    requires piece != partner
    ensures CanOpen(family', settled, n, mate', slack)
  {
    PieceIn(Kept(t, stops), piece, partner, mate', slack, n);
    MutualBack(piece, partner, mate', slack, n);
    hide TightTree, Shape, Kept, Ids, MatchedExcept;
    forall s | s in family' && n <= s.id < 2 * n && s.id !in settled
      ensures TightTree(s, slack, n) && (mate'[s.id] == -1 || HasMate(family', s, mate', slack, n))
    {
      if s == partner {
        assert piece in family' && piece != s && Mutual(s, piece, mate', slack, n);
      } else {
        OtherStaysMatched(family, family', n, mate, mate', slack, t, partner, s);
      }
    }
  }

  lemma OtherStaysMatched(family: set<Tree>, family': set<Tree>, n: nat, mate: seq<int>, mate': seq<int>,
                          slack: seq<real>,
                          t: Tree, partner: Tree, s: Tree)
    requires Laminar(family, {}, n) && t in family && partner in family && s in family && s != t && s != partner
    requires family - {t} <= family' && Mutual(t, partner, mate, slack, n)
    requires MatesOutside(Ids(t) + {partner.id}, mate, mate')
    requires 0 <= s.id < |mate| && (mate[s.id] == -1 || HasMate(family, s, mate, slack, n))
    ensures mate'[s.id] == -1 || HasMate(family', s, mate', slack, n)
  {
    IdInTree(s);
    IdInTree(partner);
    hide Shape, Ids;
    assert s.id != partner.id && s.id !in Ids(t);
    RootOutside(s, Ids(t) + {partner.id}, mate, mate');
    if mate[s.id] != -1 {
      var r :| r in family && r != s && Mutual(s, r, mate, slack, n);
      if r == t {
        LeavesApart(family, n, s, partner, mate[t.id]);
      }
      if r == partner {
        LeavesApart(family, n, s, t, mate[partner.id]);
      }
      IdInTree(r);
      assert r.id != partner.id && r.id !in Ids(t);
      RootOutside(r, Ids(t) + {partner.id}, mate, mate');
      MutualFrame(s, r, mate, mate', slack, n);
    }
  }

  lemma UptoNext(n: nat, i: nat)
    requires n <= i
    ensures Upto(n, i + 1) == Upto(n, i) + {i}
  {
  }

  lemma AllSettled(settled: set<int>, n: nat, outer: seq<int>, active: seq<bool>, blocked: seq<bool>, dual: seq<real>)
    requires Settled(settled, n, outer, active, blocked, dual) && Upto(n, 2 * n) <= settled
    ensures Settled(Upto(n, 2 * n), n, outer, active, blocked, dual)
  {
  }

  /** The blocked blossoms with a dual. */
  ghost function FullBlossoms(n: nat, blocked: seq<bool>, dual: seq<real>): set<int>
    requires |blocked| == 2 * n && |dual| == 2 * n
  {
    set j | 0 <= j < 2 * n && blocked[j] && dual[j] > 0.0
  }

  lemma FullAgrees(n: nat, blocked: seq<bool>, dual: seq<real>, s: set<int>)
    requires |blocked| == 2 * n && |dual| == 2 * n
    ensures Agrees(FullBlossoms(n, blocked, dual), s, blocked, dual, n)
    ensures forall j :: 0 <= j < 2 * n && blocked[j] && dual[j] > 0.0 ==> j in FullBlossoms(n, blocked, dual)
    ensures forall j :: j in FullBlossoms(n, blocked, dual) ==> 0 <= j < 2 * n && dual[j] > 0.0
  {
  }

  /** An outermost blossom that is not a stop is opened itself. */
  lemma OpensAt(family: set<Tree>, n: nat, active: seq<bool>, free: seq<int>, deep: seq<seq<int>>,
                shallow: seq<seq<int>>, outer: seq<int>,
                t: Tree, stops: set<int>)
    requires Whole(family, {}, n, active, free, deep, shallow, outer) && t in family && t.id >= n && t.id !in stops
    ensures t.id in Opened(t, stops) && Laminar(family, {}, n)
  {
  }

  /** What destruction changed, in the form the bookkeeping needs. */
  lemma DestroyedFacts(family: set<Tree>, family': set<Tree>, n: nat, active: seq<bool>, active': seq<bool>, t: Tree,
                       stops: set<int>,
                       blocked: seq<bool>, blocked': seq<bool>, mate: seq<int>, mate': seq<int>, free: seq<int>,
                       free': seq<int>,
                       deep: seq<seq<int>>, shallow: seq<seq<int>>, outer: seq<int>, outer': seq<int>)
    requires Whole(family, {}, n, active, free, deep, shallow, outer) && t in family
    requires Whole(family', {}, n, active', free', deep, shallow, outer') && family' == family - {t} + Kept(t, stops)
    requires Destroyed(Opened(t, stops), n, active, blocked, mate, active', blocked', mate')
    ensures |active'| == 2 * n && |blocked'| == 2 * n && |active| == 2 * n && |blocked| == 2 * n
    ensures forall j :: 0 <= j < 2 * n ==> (active'[j] <==> active[j] && j !in Opened(t, stops))
    ensures forall j :: 0 <= j < 2 * n && active'[j] ==> blocked'[j] == blocked[j]
    ensures MatesOutside(Ids(t), mate, mate')
  {
    StillActive(family, family', n, active, active', t, stops);
    KeptSplits(t, stops, n);
    hide Opened, Kept, Ids, Laminar, Arrays;
  }

  /** No number becomes active, and active ones keep their blocks. */
  ghost predicate OnlyCloses(n: nat, active: seq<bool>, blocked: seq<bool>, active': seq<bool>, blocked': seq<bool>) {
    && |active| == 2 * n && |blocked| == 2 * n && |active'| == 2 * n && |blocked'| == 2 * n
    && forall j :: 0 <= j < 2 * n && active'[j] ==> active[j] && blocked'[j] == blocked[j]
  }

  ghost function BlockedOnes(n: nat, blocked: seq<bool>): set<int>
    requires |blocked| == 2 * n
  {
    set j | 0 <= j < 2 * n && blocked[j]
  }

  lemma BlockedBlocks(n: nat, blocked: seq<bool>, s: set<int>)
    requires |blocked| == 2 * n
    ensures Blocks(BlockedOnes(n, blocked), s, blocked, false, n)
    ensures forall j :: j in BlockedOnes(n, blocked) <==> 0 <= j < 2 * n && blocked[j]
  {
  }

  /** The partner of a matched blossom, found through the arrays. */
  lemma PartnerOf(family: set<Tree>, n: nat, active: seq<bool>, free: seq<int>, deep: seq<seq<int>>,
                  shallow: seq<seq<int>>, outer: seq<int>,
                  mate: seq<int>, slack: seq<real>, t: Tree) returns (partner: Tree)
    requires Whole(family, {}, n, active, free, deep, shallow, outer) && t in family
    requires HasMate(family, t, mate, slack, n)
    ensures partner in family && partner != t && Mutual(t, partner, mate, slack, n)
    ensures 0 <= t.id < |mate| && 0 <= mate[t.id] < 2 * n && |outer| == 2 * n && outer[mate[t.id]] == partner.id
    ensures Linked(slack, n, Leaves(t), Leaves(partner))
  {
    partner :| partner in family && partner != t && Mutual(t, partner, mate, slack, n);
    MutualBack(t, partner, mate, slack, n);
    MutualFacts(family, n, active, free, deep, shallow, outer, mate, slack, partner, t);
  }

  lemma ExpandedFacts(family: set<Tree>, family': set<Tree>, n: nat, active: seq<bool>, active': seq<bool>, t: Tree,
                      partner: Tree, piece: Tree,
                      stops: set<int>, free: seq<int>, free': seq<int>, deep: seq<seq<int>>, shallow: seq<seq<int>>,
                      shallow': seq<seq<int>>,
                      outer: seq<int>, outer': seq<int>, mate: seq<int>, slack: seq<real>)
    requires Whole(family, {}, n, active, free, deep, shallow, outer) && t in family && partner in family
    requires partner != t
    requires Whole(family', {}, n, active', free', deep, shallow', outer') && family' == family - {t} + Kept(t, stops)
    requires MatchedExcept(Kept(t, stops), piece, partner, mate, slack, n)
    ensures |active'| == 2 * n && |active| == 2 * n && Laminar(family, {}, n) && piece != partner
    ensures forall j :: 0 <= j < 2 * n ==> (active'[j] <==> active[j] && j !in Opened(t, stops))
  {
    StillActive(family, family', n, active, active', t, stops);
    KeptCovered(t, stops, n);
    IdInTree(partner);
    assert piece.id in Ids(t) && partner.id in Ids(partner);
  }

  /** Inside a tree whose blossoms are settled, the blocked ones are the ones with a dual. */
  lemma NestedStops(settled: set<int>, n: nat, family: set<Tree>, free: seq<int>, deep: seq<seq<int>>,
                    shallow: seq<seq<int>>, outer: seq<int>,
                    active: seq<bool>, blocked: seq<bool>, blocked': seq<bool>, dual: seq<real>, t: Tree,
                    stops: set<int>)
    requires Settled(settled, n, outer, active, blocked, dual)
    requires Whole(family, {}, n, active, free, deep, shallow, outer) && t in family
    requires n <= t.id < 2 * n && blocked' == blocked[t.id := false] && stops == BlockedOnes(n, blocked')
    ensures forall j :: j in AllIds(t.kids) && n <= j < 2 * n && blocked[j] && dual[j] > 0.0 ==> j in stops
    ensures forall j :: 0 <= j < 2 * n && j != t.id ==> blocked'[j] == blocked[j]
  {
    assert Shape(t, n);
  }

  // From the step to the opening -----------------------------------------------------------------------------

  /** A labelled outermost blossom is unmatched or matched to a node with the opposite label. */
  ghost predicate OppositeMates(family: set<Tree>, n: nat, kind: seq<int>, mate: seq<int>, slack: seq<real>) {
    |kind| == 2 * n && |mate| == 2 * n &&
    forall t :: t in family && n <= t.id < 2 * n && kind[t.id] != UNLABELED ==>
      mate[t.id] == -1 || HasOpposite(family, t, n, kind, mate, slack)
  }

  ghost predicate HasOpposite(family: set<Tree>, t: Tree, n: nat, kind: seq<int>, mate: seq<int>, slack: seq<real>) {
    exists r :: r in family && r != t && Mutual(t, r, mate, slack, n) && 0 <= t.id < |kind| && 0 <= r.id < |kind| &&
      Sign(kind[t.id]) + Sign(kind[r.id]) == 0.0
  }

  lemma CertifiedFacts(n: nat, costs: seq<real>, slack: seq<real>, dual: seq<real>, deep: seq<seq<int>>)
    requires Certified(n, costs, slack, dual, deep)
    ensures |slack| == EdgeCount(n) && |dual| == 2 * n && |deep| == 2 * n
    ensures forall a, b :: 0 <= a < b < n ==> SlackOf(slack, n, a, b) >= 0.0
    ensures forall j :: n <= j < 2 * n ==> dual[j] >= 0.0
  {
  }

  lemma AllAllowed(family: set<Tree>, n: nat, active: seq<bool>, free: seq<int>, deep: seq<seq<int>>,
                   shallow: seq<seq<int>>, outer: seq<int>,
                   kind: seq<int>, slack: seq<real>, dual: seq<real>, e: real)
    requires Whole(family, {}, n, active, free, deep, shallow, outer) && Labels(kind, n) && |slack| == EdgeCount(n)
    requires |dual| == 2 * n
    requires IsStep(e, n, outer, active, kind, slack, dual)
    requires forall a, b :: 0 <= a < b < n ==> SlackOf(slack, n, a, b) >= 0.0
    ensures forall u, v :: 0 <= u < v < n ==> Allowed(u, v, n, outer, kind, slack, e)
    ensures e >= 0.0 && forall j :: n <= j < 2 * n && active[j] && j == outer[j] && kind[j] == ODD ==> e <= dual[j]
  {
    OuterInRange(family, n, active, free, deep, shallow, outer);
    hide Whole, EdgeCount, SlackOf, Allowed;
    forall u, v | 0 <= u < v < n
      ensures Allowed(u, v, n, outer, kind, slack, e)
    {
      StepAllowed(e, n, outer, active, kind, slack, dual, u, v);
    }
  }

  /** The blossoms that the step leaves alone: nested ones and those without a label. */
  ghost function Unlabelled(n: nat, outer: seq<int>, kind: seq<int>): set<int>
    requires |outer| == 2 * n && |kind| == 2 * n
  {
    set j | n <= j < 2 * n && (outer[j] != j || kind[j] == UNLABELED)
  }

  lemma SettledStep(n: nat, outer: seq<int>, active: seq<bool>, blocked: seq<bool>, kind: seq<int>, costs: seq<real>,
                    slack': seq<real>,
                    dual: seq<real>, dual': seq<real>, deep: seq<seq<int>>, e: real)
    requires |outer| == 2 * n && |kind| == 2 * n && Settled(Upto(n, 2 * n), n, outer, active, blocked, dual)
    requires Certified(n, costs, slack', dual', deep)
    requires forall j :: 0 <= j < 2 * n ==> dual'[j] == dual[j] + DualChange(j, outer, active, kind, e)
    ensures Settled(Unlabelled(n, outer, kind), n, outer, active, blocked, dual')
  {
    CertifiedFacts(n, costs, slack', dual', deep);
    hide Certified;
    forall j | n <= j < 2 * n && (j in Unlabelled(n, outer, kind) || !active[j])
      ensures dual'[j] == dual[j]
    {
      assert DualChange(j, outer, active, kind, e) == 0.0;
    }
  }

  lemma CanOpenStep(family: set<Tree>, n: nat, active: seq<bool>, free: seq<int>, deep: seq<seq<int>>,
                    shallow: seq<seq<int>>, outer: seq<int>,
                    kind: seq<int>, mate: seq<int>, slack: seq<real>, slack': seq<real>, e: real)
    requires Whole(family, {}, n, active, free, deep, shallow, outer) && |slack'| == EdgeCount(n)
    requires TightFamily(family, slack, n) && OppositeMates(family, n, kind, mate, slack)
    requires forall u, v :: 0 <= u < v < n ==> Moved(u, v, n, outer, kind, slack, slack', e)
    ensures |outer| == 2 * n && |kind| == 2 * n && CanOpen(family, Unlabelled(n, outer, kind), n, mate, slack')
  {
    WholeSizes(family, {}, n, active, free, deep, shallow, outer);
    hide Whole, EdgeCount, Moved, Mutual, TightTree, Leaves;
    var settled := Unlabelled(n, outer, kind);
    forall t | t in family && n <= t.id < 2 * n && t.id !in settled
      ensures TightTree(t, slack', n) && (mate[t.id] == -1 || HasMate(family, t, mate, slack', n))
    {
      TreeFacts(family, n, active, free, deep, shallow, outer, t);
      TreeStaysTight(t, n, outer, kind, slack, slack', e, t.id);
      if mate[t.id] != -1 {
        assert HasOpposite(family, t, n, kind, mate, slack);
        var r :| r in family && r != t && Mutual(t, r, mate, slack, n) && Sign(kind[t.id]) + Sign(kind[r.id]) == 0.0;
        TreeFacts(family, n, active, free, deep, shallow, outer, r);
        MutualStays(t, r, n, outer, kind, mate, slack, slack', e);
      }
    }
  }

  lemma MutualStays(t: Tree, r: Tree, n: nat, outer: seq<int>, kind: seq<int>, mate: seq<int>, slack: seq<real>,
                    slack': seq<real>, e: real)
    requires Mutual(t, r, mate, slack, n) && |outer| == 2 * n && |kind| == 2 * n && |slack'| == EdgeCount(n)
    requires 0 <= t.id < 2 * n && 0 <= r.id < 2 * n && Sign(kind[t.id]) + Sign(kind[r.id]) == 0.0
    requires (forall v :: v in Leaves(t) ==> 0 <= v < n && outer[v] == t.id)
    requires forall v :: v in Leaves(r) ==> 0 <= v < n && outer[v] == r.id
    requires forall u, v :: 0 <= u < v < n ==> Moved(u, v, n, outer, kind, slack, slack', e)
    ensures Mutual(t, r, mate, slack', n)
  {
    TightStays(mate[r.id], mate[t.id], n, outer, kind, slack, slack', e);
  }
}
