/** The state while the forest grows, between two resets. */
module ForestGrowth {
  import opened EdgeIndex
  import opened Duality
  import opened Sums
  import opened BlossomTree
  import opened BlossomFamily
  import opened BlossomPartition
  import opened BlossomCircuit
  import opened BlossomMates
  import opened MatchingFacts
  import opened BlossomExpand
  import opened BlossomDuals
  import opened BlossomUnblock
  import opened BlossomRetrieve
  import opened MatchingStart
  import opened FreshBlossoms
  import opened Augmentation
  import opened AlternatingForest
  import opened ForestContraction
  import opened AugmentingPath

  /** Between two phases: what a reset would leave is `base`, partly matched, and blocks agree with duals. */
  ghost predicate IsReady(family: set<Tree>, base: set<Tree>, stops: set<int>, n: nat, active: seq<bool>,
                          blocked: seq<bool>, dual: seq<real>,
                          mate: seq<int>, slack: seq<real>)
  {
    && Good(family, stops, mate, slack, n) && KeptOf(family, stops) == base && TightFamily(family, slack, n)
    && Blocking(n, active, blocked, dual) && stops == FullBlossoms(n, blocked, dual)
  }

  /** Every outermost blossom without a dual is even: it was contracted in this phase. */
  ghost predicate FreshAreEven(family: set<Tree>, stops: set<int>, kind: seq<int>, n: nat) {
    |kind| == 2 * n && forall t :: t in family && n <= t.id < 2 * n && t.id !in stops ==> kind[t.id] == EVEN
  }

  /** The labels form an alternating forest. */
  ghost predicate IsForest(family: set<Tree>, stops: set<int>, n: nat, outer: seq<int>, forest: seq<int>,
                           kind: seq<int>, root: seq<int>, mate: seq<int>,
                           deep: seq<seq<int>>, slack: seq<real>)
  {
    && |forest| == 2 * n && Labels(kind, n) && EvensClimb(family, n, outer, forest, kind, root, mate, deep, slack)
    && Labelling(family, n, outer, kind, root, mate) && FreshAreEven(family, stops, kind, n)
  }

  /** The work list names numbers inside even trees. */
  ghost predicate IsWork(list: seq<int>, family: set<Tree>, kind: seq<int>) {
    forall x :: x in list ==> InEven(x, family, kind)
  }

  ghost predicate InEven(x: int, family: set<Tree>, kind: seq<int>) {
    exists t :: t in family && x in Ids(t) && 0 <= t.id < |kind| && kind[t.id] == EVEN
  }

  // Numbers inside a tree ---------------------------------------------------------------------------------

  /** The deep list of a number inside a tree names leaves of the tree. */
  lemma {:induction false} DeepInside(t: Tree, n: nat, deep: seq<seq<int>>, shallow: seq<seq<int>>, outer: seq<int>,
                                      x: int, y: int)
    requires Shape(t, n) && Fits(t, deep, shallow, outer) && x in Ids(t) && 0 <= x < |deep| && y in deep[x]
    ensures y in Leaves(t)
    decreases t
  {
    if x != t.id {
      IdOfKid(t.kids, x);
      var i :| 0 <= i < |t.kids| && x in Ids(t.kids[i]);
      KidShape(t.kids, n, i);
      KidFits(t.kids, t.id, deep, shallow, outer, i);
      DeepInside(t.kids[i], n, deep, shallow, outer, x, y);
      KidLeaves(t.kids, i);
    }
  }

  /** What an entry of the work list leads to lies in the same tree. */
  lemma OuterInside(family: set<Tree>, n: nat, active: seq<bool>, free: seq<int>, deep: seq<seq<int>>,
                    shallow: seq<seq<int>>, outer: seq<int>,
                    t: Tree, x: int)
    requires Whole(family, {}, n, active, free, deep, shallow, outer) && t in family && x in Ids(t)
    ensures |outer| == 2 * n && 0 <= x < 2 * n && outer[x] in Ids(t) && 0 <= outer[x] < 2 * n
  {
    TreeFacts(family, n, active, free, deep, shallow, outer, t);
    LeafIffId(t, n, x);
    if x >= n && x != t.id {
      ActiveIds(family, n, active, free, deep, shallow, outer, t);
      NestedOuter(t, n, deep, shallow, outer, x);
    }
    LeafIffId(t, n, outer[x]);
  }

  /** So everything that is explored from it lies in an even tree. */
  lemma WorkIsEven(family: set<Tree>, n: nat, active: seq<bool>, free: seq<int>, deep: seq<seq<int>>,
                   shallow: seq<seq<int>>, outer: seq<int>,
                   kind: seq<int>, x: int)
    requires Whole(family, {}, n, active, free, deep, shallow, outer) && InEven(x, family, kind) && |kind| == 2 * n
    ensures |outer| == 2 * n && |deep| == 2 * n && 0 <= x < 2 * n && 0 <= outer[x] < 2 * n
    ensures forall y :: y in deep[outer[x]] ==> 0 <= y < n && 0 <= outer[y] < 2 * n && kind[outer[y]] == EVEN
  {
    hide Whole, Ids, Leaves;
    WholeSizes(family, {}, n, active, free, deep, shallow, outer);
    var t :| t in family && x in Ids(t) && 0 <= t.id < |kind| && kind[t.id] == EVEN;
    OuterInside(family, n, active, free, deep, shallow, outer, t, x);
    TreeFacts(family, n, active, free, deep, shallow, outer, t);
    ActiveIds(family, n, active, free, deep, shallow, outer, t);
    forall y | y in deep[outer[x]]
      ensures 0 <= y < n && 0 <= outer[y] < 2 * n && kind[outer[y]] == EVEN
    {
      DeepInside(t, n, deep, shallow, outer, outer[x], y);
    }
  }

  // After a reset -----------------------------------------------------------------------------------------

  lemma BaseClosed(family: set<Tree>, stops: set<int>)
    ensures KeptOf(KeptOf(family, stops), stops) == KeptOf(family, stops)
  {
    FlipBase(family, family, stops);
    assert family - family + KeptOf(family, stops) == KeptOf(family, stops);
  }

  lemma {:induction false} KeptTight(t: Tree, stops: set<int>, slack: seq<real>, n: nat, k: Tree)
    requires TightTree(t, slack, n) && k in Kept(t, stops)
    ensures TightTree(k, slack, n)
    decreases t
  {
    if t.kids != [] && t.id !in stops {
      KeptOfKid(t.kids, stops, k);
      var i :| 0 <= i < |t.kids| && k in Kept(t.kids[i], stops);
      KidTight(t.kids, slack, n, i);
      KeptTight(t.kids[i], stops, slack, n, k);
    }
  }

  lemma BaseTight(family: set<Tree>, stops: set<int>, slack: seq<real>, n: nat)
    requires TightFamily(family, slack, n)
    ensures TightFamily(KeptOf(family, stops), slack, n)
  {
    hide TightTree, Kept;
    forall k | k in KeptOf(family, stops)
      ensures TightTree(k, slack, n)
    {
      var t := OwnerOf(family, stops, k);
      KeptTight(t, stops, slack, n, k);
    }
  }

  lemma ReadyParts(family: set<Tree>, base: set<Tree>, stops: set<int>, n: nat, active: seq<bool>, blocked: seq<bool>,
                   dual: seq<real>,
                   mate: seq<int>, slack: seq<real>)
    requires IsReady(family, base, stops, n, active, blocked, dual, mate, slack)
    ensures Good(family, stops, mate, slack, n) && KeptOf(family, stops) == base && TightFamily(family, slack, n)
    ensures Blocking(n, active, blocked, dual) && stops == FullBlossoms(n, blocked, dual)
    ensures |blocked| == 2 * n && |dual| == 2 * n && |mate| == 2 * n
  {
  }

  lemma MakeReady(family: set<Tree>, base: set<Tree>, stops: set<int>, n: nat, active: seq<bool>, blocked: seq<bool>,
                  dual: seq<real>,
                  mate: seq<int>, slack: seq<real>)
    requires Good(family, stops, mate, slack, n) && KeptOf(family, stops) == base && TightFamily(family, slack, n)
    requires Blocking(n, active, blocked, dual) && stops == FullBlossoms(n, blocked, dual)
    ensures IsReady(family, base, stops, n, active, blocked, dual, mate, slack)
  {
  }

  /** Destroyed blossoms lose their blocks, which they did not have. */
  lemma BlockingReset(n: nat, active: seq<bool>, blocked: seq<bool>, blocked': seq<bool>, dual: seq<real>,
                      stops: set<int>)
    requires Blocking(n, active, blocked, dual) && stops == FullBlossoms(n, blocked, dual) && |blocked'| == 2 * n
    requires Agrees(stops, Upto(0, 2 * n), blocked', dual, n)
    requires forall j :: 0 <= j < 2 * n && blocked'[j] ==> blocked[j]
    ensures Blocking(n, active, blocked', dual) && stops == FullBlossoms(n, blocked', dual)
  {
    forall j | n <= j < 2 * n
      ensures blocked'[j] <==> blocked[j]
    {
      assert j in Upto(0, 2 * n);
    }
    forall j
      ensures j in FullBlossoms(n, blocked', dual) <==> j in stops
    {
      if 0 <= j < 2 * n {
        assert j in Upto(0, 2 * n);
      }
    }
  }

  lemma LaminarAccounted(family: set<Tree>, n: nat, active: seq<bool>, free: seq<int>, deep: seq<seq<int>>,
                         shallow: seq<seq<int>>, outer: seq<int>)
    requires Whole(family, {}, n, active, free, deep, shallow, outer)
    ensures Laminar(family, {}, n) && Accounted(family, {}, active, n)
  {
  }

  lemma ResetMates(base: set<Tree>, n: nat, active: seq<bool>, mate: seq<int>, mate': seq<int>)
    requires Laminar(base, {}, n) && Accounted(base, {}, active, n) && |mate| == 2 * n && |mate'| == 2 * n
    requires forall i :: 0 <= i < 2 * n ==> mate'[i] == mate[i] || (i >= n && !active[i] && mate'[i] == -1)
    ensures SameMates(base, mate, mate')
  {
    hide Ids, Shape;
    forall t | t in base && 0 <= t.id < |mate|
      ensures mate'[t.id] == mate[t.id]
    {
      IdInTree(t);
      InCovered(base, t);
    }
  }

  /** A reset leaves the base, ready for the next phase. */
  lemma ResetReady(family: set<Tree>, base: set<Tree>, stops: set<int>, n: nat, active: seq<bool>, blocked: seq<bool>,
                   dual: seq<real>,
                   mate: seq<int>, slack: seq<real>, active': seq<bool>, blocked': seq<bool>, mate': seq<int>)
    requires Laminar(family, {}, n) && Accounted(family, {}, active, n) && Laminar(base, {}, n)
    requires Accounted(base, {}, active', n)
    requires IsReady(family, base, stops, n, active, blocked, dual, mate, slack) && |mate'| == 2 * n
    requires |blocked'| == 2 * n && |active'| == 2 * n
    requires |mate| == 2 * n && |blocked| == 2 * n
    requires Agrees(stops, Upto(0, 2 * n), blocked', dual, n)
    requires forall j :: 0 <= j < 2 * n && blocked'[j] ==> blocked[j]
    requires forall i :: 0 <= i < 2 * n ==> mate'[i] == mate[i] || (i >= n && !active'[i] && mate'[i] == -1)
    ensures IsReady(base, base, stops, n, active', blocked', dual, mate', slack) && SameMates(base, mate, mate')
  {
    hide *;
    ReadyParts(family, base, stops, n, active, blocked, dual, mate, slack);
    BaseClosed(family, stops);
    BaseTight(family, stops, slack, n);
    assert base == family - family + KeptOf(family, stops);
    BlockingAfter(family, family, base, n, active, active', blocked, dual, stops);
    BlockingReset(n, active', blocked, blocked', dual, stops);
    GoodPartly(family, stops, mate, slack, n);
    ResetMates(base, n, active', mate, mate');
    PartlyFrame(base, mate, mate', slack, n);
    ClosedFamily(base, stops, mate', slack, n);
    MakeReady(base, base, stops, n, active', blocked', dual, mate', slack);
  }

  /** Right after a reset every unmatched node is a tree of the forest by itself. */
  lemma LoneClimb(t: int, n: nat, outer: seq<int>, forest: seq<int>, kind: seq<int>, root: seq<int>, mate: seq<int>,
                  deep: seq<seq<int>>, slack: seq<real>)
    requires 0 <= t < 2 * n && |outer| == 2 * n && |forest| == 2 * n && |kind| == 2 * n && |root| == 2 * n
    requires |mate| == 2 * n
    requires forest[t] == -1 && kind[t] == EVEN && mate[t] == -1
    ensures HasClimb(t, n, outer, forest, kind, root, mate, deep, slack)
  {
    assert Climbs([t], t, n, outer, forest, kind, root, mate, deep, slack);
  }

  lemma NodeLabel(family: set<Tree>, n: nat, active: seq<bool>, free: seq<int>, deep: seq<seq<int>>,
                  shallow: seq<seq<int>>, outer: seq<int>,
                  kind: seq<int>, mate: seq<int>, t: Tree)
    requires Whole(family, {}, n, active, free, deep, shallow, outer) && Labelled(n, n, outer, mate, kind)
    requires t in family
    ensures 0 <= t.id < 2 * n && |mate| == 2 * n && |kind| == 2 * n &&
      kind[t.id] == if mate[t.id] == -1 then EVEN else UNLABELED
  {
    hide Whole;
    TreeFacts(family, n, active, free, deep, shallow, outer, t);
    LeavesDistinct(t, n);
    var v := Leaves(t)[0];
    assert v in Leaves(t);
    assert 0 <= v < n && outer[v] == t.id;
    assert kind[outer[v]] == if mate[outer[v]] == -1 then EVEN else UNLABELED;
  }

  lemma BaseStops(family: set<Tree>, stops: set<int>, n: nat, t: Tree)
    requires Laminar(family, {}, n) && t in KeptOf(family, stops)
    ensures t.id < n || t.id in stops
  {
    var s := OwnerOf(family, stops, t);
    FamilyShape(family, n, s);
    KeptStops(s, stops, n, t);
  }

  lemma ResetForest(base: set<Tree>, stops: set<int>, n: nat, active: seq<bool>, free: seq<int>, deep: seq<seq<int>>,
                    shallow: seq<seq<int>>, outer: seq<int>,
                    forest: seq<int>, kind: seq<int>, root: seq<int>, mate: seq<int>, slack: seq<real>, list: seq<int>)
    requires Whole(base, {}, n, active, free, deep, shallow, outer) && Labelled(n, n, outer, mate, kind)
    requires Labels(kind, n) && KeptOf(base, stops) == base
    requires |forest| == 2 * n && |root| == 2 * n && (forall i :: 0 <= i < 2 * n ==> forest[i] == -1 && root[i] == i)
    requires IsWorkList(list, n, outer, mate)
    ensures IsForest(base, stops, n, outer, forest, kind, root, mate, deep, slack) && IsWork(list, base, kind)
  {
    hide Whole, HasClimb, MateIs, KeptOf, Labels, Ids;
    SortsDiffer();
    WholeSizes(base, {}, n, active, free, deep, shallow, outer);
    LaminarOf(base, n, active, free, deep, shallow, outer);
    forall t | t in base
      ensures 0 <= t.id < 2 * n && |mate| == 2 * n && |kind| == 2 * n &&
        kind[t.id] == if mate[t.id] == -1 then EVEN else UNLABELED
      ensures kind[t.id] == EVEN ==> HasClimb(t.id, n, outer, forest, kind, root, mate, deep, slack)
      ensures t.id < n || t.id in stops
    {
      NodeLabel(base, n, active, free, deep, shallow, outer, kind, mate, t);
      BaseStops(base, stops, n, t);
      if kind[t.id] == EVEN {
        LoneClimb(t.id, n, outer, forest, kind, root, mate, deep, slack);
      }
    }
    assert EvensClimb(base, n, outer, forest, kind, root, mate, deep, slack);
    assert |kind| == 2 * n by { LabelSize(kind, n); }
    forall x | x in list
      ensures InEven(x, base, kind)
    {
      var k :| 0 <= k < |list| && list[k] == x;
      var t := VertexTree(base, n, active, free, deep, shallow, outer, x);
      NodeLabel(base, n, active, free, deep, shallow, outer, kind, mate, t);
      LeafInIds(base, n, t, x);
    }
  }

  lemma LabelSize(kind: seq<int>, n: nat)
    requires Labels(kind, n)
    ensures |kind| == 2 * n
  {
  }

  lemma ForestParts(family: set<Tree>, stops: set<int>, n: nat, outer: seq<int>, forest: seq<int>, kind: seq<int>,
                    root: seq<int>, mate: seq<int>,
                    deep: seq<seq<int>>, slack: seq<real>)
    requires IsForest(family, stops, n, outer, forest, kind, root, mate, deep, slack)
    ensures |forest| == 2 * n && Labels(kind, n) && EvensClimb(family, n, outer, forest, kind, root, mate, deep, slack)
    ensures Labelling(family, n, outer, kind, root, mate) && FreshAreEven(family, stops, kind, n)
    ensures |kind| == 2 * n && |root| == 2 * n && |mate| == 2 * n && |outer| == 2 * n
  {
  }

  lemma MakeForest(family: set<Tree>, stops: set<int>, n: nat, outer: seq<int>, forest: seq<int>, kind: seq<int>,
                   root: seq<int>, mate: seq<int>,
                   deep: seq<seq<int>>, slack: seq<real>)
    requires |forest| == 2 * n && Labels(kind, n) && EvensClimb(family, n, outer, forest, kind, root, mate, deep, slack)
    requires Labelling(family, n, outer, kind, root, mate) && FreshAreEven(family, stops, kind, n)
    ensures IsForest(family, stops, n, outer, forest, kind, root, mate, deep, slack)
  {
  }

  // Contraction -------------------------------------------------------------------------------------------

  /** The two climbs from even nodes of one tree of the forest end at the same root. */
  lemma SameEnd(family: set<Tree>, n: nat, active: seq<bool>, free: seq<int>, deep: seq<seq<int>>,
                shallow: seq<seq<int>>, outer: seq<int>,
                forest: seq<int>, kind: seq<int>, root: seq<int>, mate: seq<int>, slack: seq<real>, up: seq<int>,
                vp: seq<int>, s: Tree, t: Tree)
    requires Whole(family, {}, n, active, free, deep, shallow, outer) && Labelling(family, n, outer, kind, root, mate)
    requires s in family && t in family
    requires Climbs(up, s.id, n, outer, forest, kind, root, mate, deep, slack)
    requires Climbs(vp, t.id, n, outer, forest, kind, root, mate, deep, slack)
    requires |root| == 2 * n && 0 <= s.id < 2 * n && 0 <= t.id < 2 * n && root[s.id] == root[t.id]
    ensures up != [] && vp != [] && up[|up| - 1] == vp[|vp| - 1]
  {
    hide *;
    ClimbParts(up, s.id, n, outer, forest, kind, root, mate, deep, slack);
    ClimbParts(vp, t.id, n, outer, forest, kind, root, mate, deep, slack);
    HasTreeBy(family, s);
    HasTreeBy(family, t);
    ClimbTrees(family, n, active, free, deep, shallow, outer, forest, up);
    ClimbTrees(family, n, active, free, deep, shallow, outer, forest, vp);
    TreeOn(family, up, |up| - 1);
    TreeOn(family, vp, |vp| - 1);
    var x := PickTree(family, up[|up| - 1]);
    var y := PickTree(family, vp[|vp| - 1]);
    if x.id != y.id {
      RootsDiffer(family, n, outer, kind, root, mate, x, y);
    }
  }

  /** The number of the new blossom was in no tree. */
  lemma NewNumber(family: set<Tree>, kids: seq<Tree>, t: int, n: nat)
    requires Laminar(family, {}, n) && Picked(family, kids) && Laminar(family - Members(kids) + {Tree(t, kids)}, {}, n)
    requires kids != []
    ensures t !in Covered(family) && 0 <= t < 2 * n
  {
    var more := family - Members(kids) + {Tree(t, kids)};
    PickedMembers(family, kids, n);
    FamilyShape(more, n, Tree(t, kids));
    assert 0 <= t < 2 * n && t !in AllIds(kids);
    hide Ids, AllIds, Laminar, Picked, Shape;
    forall s | s in family - Members(kids)
      ensures t !in Ids(s)
    {
      NotCrown(family, kids, t, n, s);
      CrownApart(more, n, s, t, kids);
    }
    NotInCovered(family - Members(kids), t);
  }

  lemma NotCrown(family: set<Tree>, kids: seq<Tree>, t: int, n: nat, s: Tree)
    requires Laminar(family, {}, n) && Picked(family, kids) && kids != [] && s in family - Members(kids)
    ensures s != Tree(t, kids)
  {
    if s == Tree(t, kids) {
      PickedIn(family, kids, 0);
      assert kids[0] in Members(kids);
      IdInTree(kids[0]);
      KidIds(kids, 0);
    }
  }

  lemma CrownApart(more: set<Tree>, n: nat, s: Tree, t: int, kids: seq<Tree>)
    requires Laminar(more, {}, n) && s in more && Tree(t, kids) in more && s != Tree(t, kids)
    ensures t !in Ids(s)
  {
    IdInTree(Tree(t, kids));
  }

  lemma NotInCovered(family: set<Tree>, x: int)
    requires forall s :: s in family ==> x !in Ids(s)
    ensures x !in Covered(family)
  {
  }

  lemma NotCoveredInactive(family: set<Tree>, n: nat, active: seq<bool>, blocked: seq<bool>, dual: seq<real>,
                           stops: set<int>, t: int)
    requires Accounted(family, {}, active, n) && Blocking(n, active, blocked, dual)
    requires stops == FullBlossoms(n, blocked, dual)
    requires t !in Covered(family) && n <= t < 2 * n
    ensures t !in stops && !active[t]
  {
  }

  /** Blossoms keep their blocks when more numbers are active. */
  lemma BlockingGrows(family: set<Tree>, kids: seq<Tree>, t: int, n: nat, active: seq<bool>, active': seq<bool>,
                      blocked: seq<bool>, dual: seq<real>)
    requires Laminar(family, {}, n) && Picked(family, kids) && Blocking(n, active, blocked, dual)
    requires Accounted(family, {}, active, n) && Accounted(family - Members(kids) + {Tree(t, kids)}, {}, active', n)
    ensures Blocking(n, active', blocked, dual)
  {
    PickedMembers(family, kids, n);
    CoveredUnion(family - Members(kids), {Tree(t, kids)});
    CoveredOne(Tree(t, kids));
    assert AllIds(kids) <= Ids(Tree(t, kids));
    hide Laminar, Picked, Covered, Ids, AllIds;
  }

  lemma FewerTrees(family: set<Tree>, kids: seq<Tree>, t: int)
    requires Picked(family, kids) && |kids| >= 3
    ensures |family - Members(kids) + {Tree(t, kids)}| < |family|
  {
    assert kids[0] != kids[1] && kids[0] in family && kids[1] in family;
    var less := family - {kids[0], kids[1]};
    assert less + {kids[0], kids[1]} == family && |{kids[0], kids[1]}| == 2;
    assert |family| == |less| + 2;
    SubsetSize(family - Members(kids) + {Tree(t, kids)}, less + {Tree(t, kids)});
  }

  lemma FreshGrow(family: set<Tree>, stops: set<int>, kind: seq<int>, n: nat, kids: seq<Tree>, t: int)
    requires FreshAreEven(family, stops, kind, n) && t !in Covered(family) && 0 <= t < 2 * n
    ensures FreshAreEven(family - Members(kids) + {Tree(t, kids)}, stops, kind[t := EVEN], n)
  {
    hide Ids, Covered;
    forall s | s in family - Members(kids)
      ensures s.id != t
    {
      IdInTree(s);
      InCovered(family, s);
    }
  }

  lemma LabelsCrown(kind: seq<int>, n: nat, t: int)
    requires Labels(kind, n) && 0 <= t < 2 * n
    ensures Labels(kind[t := EVEN], n)
  {
  }

  lemma WorkGrows(list: seq<int>, family: set<Tree>, kind: seq<int>, n: nat, kids: seq<Tree>, t: int)
    requires IsWork(list, family, kind) && Picked(family, kids) && t !in Covered(family) && 0 <= t < 2 * n
    requires |kind| == 2 * n
    ensures IsWork(list + [t], family - Members(kids) + {Tree(t, kids)}, kind[t := EVEN])
  {
    hide Ids, Covered, Picked;
    CrownIds(t, kids);
    var more := family - Members(kids) + {Tree(t, kids)};
    forall x | x in list + [t]
      ensures InEven(x, more, kind[t := EVEN])
    {
      if x in list {
        assert InEven(x, family, kind);
        var s :| s in family && x in Ids(s) && 0 <= s.id < |kind| && kind[s.id] == EVEN;
        if s in Members(kids) {
          var i :| 0 <= i < |kids| && kids[i] == s;
          KidIds(kids, i);
          assert Tree(t, kids) in more && x in Ids(Tree(t, kids));
        } else {
          IdInTree(s);
          InCovered(family, s);
          assert s in more;
        }
      } else {
        assert Tree(t, kids) in more && x in Ids(Tree(t, kids));
      }
    }
  }

  lemma CrownIds(t: int, kids: seq<Tree>)
    ensures t in Ids(Tree(t, kids)) && AllIds(kids) <= Ids(Tree(t, kids))
  {
  }

  lemma MakeMoves(c: seq<int>, tip: int, t: int, n: nat, link: seq<int>, link': seq<int>)
    requires |link| == 2 * n && 0 <= tip < 2 * n && 0 <= t < 2 * n && tip in c && link' == link[t := link[tip]]
    ensures Moves(c, tip, t, n, link, link')
  {
  }

  /** Contraction keeps the forest. */
  lemma ContractForest(family: set<Tree>, stops: set<int>, n: nat, active: seq<bool>, free: seq<int>,
                       deep: seq<seq<int>>, shallow: seq<seq<int>>, outer: seq<int>,
                       forest: seq<int>, kind: seq<int>, root: seq<int>, mate: seq<int>, slack: seq<real>, up: seq<int>,
                       a: int, vp: seq<int>, b: int,
                       kids: seq<Tree>, t: int, active': seq<bool>, free': seq<int>, deep': seq<seq<int>>,
                       shallow': seq<seq<int>>, outer': seq<int>,
                       s: Tree, r: Tree)
    requires Whole(family, {}, n, active, free, deep, shallow, outer) && PartlyMatched(family, mate, slack, n)
    requires IsForest(family, stops, n, outer, forest, kind, root, mate, deep, slack) && s in family && r in family
    requires Climbs(up, s.id, n, outer, forest, kind, root, mate, deep, slack)
    requires Climbs(vp, r.id, n, outer, forest, kind, root, mate, deep, slack)
    requires Meets(up, a, vp, b) && 0 <= a < |up| && 0 <= b < |vp| && Picked(family, kids)
    requires Roots(kids) == Circuit(up, a, vp, b)
    requires Whole(family - Members(kids) + {Tree(t, kids)}, {}, n, active', free', deep', shallow', outer')
    requires |forest| == 2 * n && |kind| == 2 * n && |root| == 2 * n && |mate| == 2 * n && 0 <= up[a] < 2 * n
    requires 0 <= t < 2 * n
    ensures IsForest(family - Members(kids) + {Tree(t, kids)}, stops, n, outer', forest[t := forest[up[a]]],
      kind[t := EVEN],
              root[t := root[up[a]]], mate[t := mate[up[a]]], deep', slack)
    ensures PairedAround(kids, mate, slack, n) && t !in Covered(family) && kids != [] && kids[0].id == up[a]
  {
    hide *;
    ForestParts(family, stops, n, outer, forest, kind, root, mate, deep, slack);
    ClimbParts(up, s.id, n, outer, forest, kind, root, mate, deep, slack);
    ClimbParts(vp, r.id, n, outer, forest, kind, root, mate, deep, slack);
    HasTreeBy(family, s);
    HasTreeBy(family, r);
    ClimbTrees(family, n, active, free, deep, shallow, outer, forest, up);
    ClimbTrees(family, n, active, free, deep, shallow, outer, forest, vp);
    TipIsEven(family, n, active, free, deep, shallow, outer, forest, kind, mate, slack, up, a, vp, b);
    MakeClosing(family, n, outer, forest, kind, mate, up, a, vp, b);
    CircuitAt(up, a, vp, b, 0);
    FirstKid(kids, up, a, vp, b);
    LaminarAccounted(family, n, active, free, deep, shallow, outer);
    LaminarAccounted(family - Members(kids) + {Tree(t, kids)}, n, active', free', deep', shallow', outer');
    NewNumber(family, kids, t, n);
    IsContracted(family, n, active, free, deep, shallow, outer, kids, t, active', free', deep', shallow', outer');
    LabelAt(up, n, kind, a);
    UpOnCircuit(up, a, vp, b, a);
    var forest', kind', root', mate' := forest[t := forest[up[a]]], kind[t := EVEN], root[t := root[up[a]]],
      mate[t := mate[up[a]]];
    MakeMoves(Roots(kids), up[a], t, n, forest, forest');
    MakeMoves(Roots(kids), up[a], t, n, kind, kind');
    MakeMoves(Roots(kids), up[a], t, n, root, root');
    MakeMoves(Roots(kids), up[a], t, n, mate, mate');
    EvensAfter(family, n, active, free, deep, shallow, outer, forest, kind, root, mate, slack, s.id, up, a, vp, b, kids,
      t, deep', outer',
      forest', kind', root', mate');
    PickedIn(family, kids, 0);
    LabellingAfter(family, n, active, free, deep, shallow, outer, kind, root, mate, slack, kids, t, kids[0], deep',
      outer', kind', root', mate');
    FreshGrow(family, stops, kind, n, kids, t);
    LabelsCrown(kind, n, t);
    MakeForest(family - Members(kids) + {Tree(t, kids)}, stops, n, outer', forest', kind', root', mate', deep', slack);
    CircuitPairs(family, n, active, free, deep, shallow, outer, mate, slack, up, a, vp, b, kids);
  }

  lemma MakeClosing(family: set<Tree>, n: nat, outer: seq<int>, forest: seq<int>, kind: seq<int>, mate: seq<int>,
                    up: seq<int>, a: int, vp: seq<int>, b: int)
    requires RootPath(up, n, outer, forest) && Alternates(up, n, kind) && Coupled(up, n, outer, mate)
    requires AllTrees(family, up)
    requires RootPath(vp, n, outer, forest) && Alternates(vp, n, kind) && Coupled(vp, n, outer, mate)
    requires AllTrees(family, vp)
    requires 0 <= a < |up| && 0 <= b < |vp| && a % 2 == 0 && b % 2 == 0 && Meets(up, a, vp, b)
    ensures Closing(family, n, outer, forest, kind, mate, up, a, vp, b)
  {
  }

  lemma FirstKid(kids: seq<Tree>, up: seq<int>, a: int, vp: seq<int>, b: int)
    requires 0 <= a < |up| && 0 <= b < |vp| && Roots(kids) == Circuit(up, a, vp, b)
    ensures kids != [] && kids[0].id == up[a] && |kids| == a + 1 + b
  {
    CircuitAt(up, a, vp, b, 0);
    assert |Roots(kids)| == |kids|;
    assert Roots(kids)[0] == kids[0].id;
  }

  /** Contraction keeps the rest of the state. */
  lemma ContractReady(family: set<Tree>, base: set<Tree>, stops: set<int>, n: nat, active: seq<bool>,
                      blocked: seq<bool>, dual: seq<real>,
                      mate: seq<int>, slack: seq<real>, kids: seq<Tree>, t: int, active': seq<bool>)
    requires Laminar(family, {}, n) && Accounted(family, {}, active, n)
    requires Accounted(family - Members(kids) + {Tree(t, kids)}, {}, active', n)
    requires IsReady(family, base, stops, n, active, blocked, dual, mate, slack)
    requires TightFamily(family - Members(kids) + {Tree(t, kids)}, slack, n)
    requires Picked(family, kids) && |kids| >= 3 && |kids| % 2 == 1 && PairedAround(kids, mate, slack, n)
    requires t !in Covered(family) && n <= t < 2 * n
    requires |mate| == 2 * n && 0 <= kids[0].id < 2 * n
    ensures IsReady(family - Members(kids) + {Tree(t, kids)}, base, stops, n, active', blocked, dual,
      mate[t := mate[kids[0].id]], slack)
    ensures |family - Members(kids) + {Tree(t, kids)}| < |family|
  {
    hide *;
    ReadyParts(family, base, stops, n, active, blocked, dual, mate, slack);
    NotCoveredInactive(family, n, active, blocked, dual, stops, t);
    ContractGood(family, stops, mate, slack, n, kids, t);
    BlockingGrows(family, kids, t, n, active, active', blocked, dual);
    FewerTrees(family, kids, t);
    MakeReady(family - Members(kids) + {Tree(t, kids)}, base, stops, n, active', blocked, dual,
      mate[t := mate[kids[0].id]], slack);
  }

  // Progress ----------------------------------------------------------------------------------------------

  /** The unmatched nodes that a reset would show. */
  ghost function Exposed(base: set<Tree>, mate: seq<int>): set<Tree> {
    set t | t in base && 0 <= t.id < |mate| && mate[t.id] == -1
  }

  /** The outermost nodes without a label. */
  ghost function Plain(family: set<Tree>, kind: seq<int>): set<Tree> {
    set t | t in family && 0 <= t.id < |kind| && kind[t.id] == UNLABELED
  }

  /** Augmenting comes before contracting, and contracting before growing. */
  ghost predicate Below(exposed: nat, trees: nat, plain: nat, exposed0: nat, trees0: nat, plain0: nat) {
    exposed < exposed0 || (exposed == exposed0 && (trees < trees0 || (trees == trees0 && plain < plain0)))
  }

  /** Nothing has happened, or something that counts. */
  ghost predicate Advanced(exposed: nat, trees: nat, plain: nat, list: seq<int>, exposed0: nat, trees0: nat,
                           plain0: nat, list0: seq<int>) {
    (exposed == exposed0 && trees == trees0 && plain == plain0 && list == list0) || Below(exposed, trees, plain,
      exposed0, trees0, plain0)
  }

  lemma {:induction false} ProperSize<T>(a: set<T>, b: set<T>, x: T)
    requires a <= b && x in b && x !in a
    ensures |a| < |b|
  {
    SubsetSize(a, b - {x});
  }

  lemma PlainShrinks(family: set<Tree>, kind: seq<int>, s: Tree, x: int, y: int)
    requires s in family && 0 <= s.id < |kind| && x == s.id && 0 <= y < |kind| && kind[x] == UNLABELED
    requires kind[y] == UNLABELED
    ensures |Plain(family, kind[x := ODD][y := EVEN])| < |Plain(family, kind)|
  {
    SortsDiffer();
    ProperSize(Plain(family, kind[x := ODD][y := EVEN]), Plain(family, kind), s);
  }

  lemma ExposedSame(base: set<Tree>, mate: seq<int>, mate': seq<int>)
    requires SameMates(base, mate, mate')
    ensures Exposed(base, mate') == Exposed(base, mate)
  {
  }

  lemma ExposedShrinks(base: set<Tree>, mate: seq<int>, mate': seq<int>, n: nat, k: Tree)
    requires |mate| == 2 * n && |mate'| == 2 * n && k in base && 0 <= k.id < 2 * n && mate[k.id] == -1
    requires mate'[k.id] != -1
    requires forall t :: t in base && 0 <= t.id < 2 * n && mate'[t.id] == -1 ==> mate[t.id] == -1
    ensures |Exposed(base, mate')| < |Exposed(base, mate)| && Exposed(base, mate') <= Exposed(base, mate)
  {
    ProperSize(Exposed(base, mate'), Exposed(base, mate), k);
  }

  // Growing by two nodes ----------------------------------------------------------------------------------

  lemma FreshStay(family: set<Tree>, stops: set<int>, kind: seq<int>, n: nat, x: int, y: int)
    requires FreshAreEven(family, stops, kind, n) && 0 <= x < 2 * n && 0 <= y < 2 * n && kind[x] == UNLABELED
    requires kind[y] == UNLABELED
    ensures FreshAreEven(family, stops, kind[x := ODD][y := EVEN], n)
  {
    SortsDiffer();
  }

  lemma WorkStays(list: seq<int>, family: set<Tree>, kind: seq<int>, kind': seq<int>)
    requires IsWork(list, family, kind) && |kind'| == |kind|
    requires forall i :: 0 <= i < |kind| && kind[i] == EVEN ==> kind'[i] == EVEN
    ensures IsWork(list, family, kind')
  {
    hide Ids;
    forall x | x in list
      ensures InEven(x, family, kind')
    {
      assert InEven(x, family, kind);
    }
  }

  lemma WorkMore(list: seq<int>, family: set<Tree>, kind: seq<int>, x: int)
    requires IsWork(list, family, kind) && InEven(x, family, kind)
    ensures IsWork(list + [x], family, kind)
  {
    hide InEven;
  }

  lemma WorkLess(list: seq<int>, family: set<Tree>, kind: seq<int>)
    requires IsWork(list, family, kind) && list != []
    ensures InEven(list[|list| - 1], family, kind) && IsWork(list[..|list| - 1], family, kind)
  {
    hide InEven;
  }

  lemma VertexInEven(family: set<Tree>, n: nat, active: seq<bool>, free: seq<int>, deep: seq<seq<int>>,
                     shallow: seq<seq<int>>, outer: seq<int>,
                     kind: seq<int>, x: int)
    requires Whole(family, {}, n, active, free, deep, shallow, outer) && 0 <= x < n && |kind| == 2 * n
    requires |outer| == 2 * n
    requires 0 <= outer[x] < 2 * n && kind[outer[x]] == EVEN
    ensures InEven(x, family, kind)
  {
    hide Whole, Leaves, Ids;
    var t := VertexTree(family, n, active, free, deep, shallow, outer, x);
    LaminarOf(family, n, active, free, deep, shallow, outer);
    LeafInIds(family, n, t, x);
  }

  /** Growing keeps the forest. */
  lemma GrowForest(family: set<Tree>, stops: set<int>, n: nat, active: seq<bool>, free: seq<int>, deep: seq<seq<int>>,
                   shallow: seq<seq<int>>, outer: seq<int>,
                   forest: seq<int>, kind: seq<int>, root: seq<int>, mate: seq<int>, slack: seq<real>, u: int, v: int)
    requires Whole(family, {}, n, active, free, deep, shallow, outer) && PartlyMatched(family, mate, slack, n)
    requires IsForest(family, stops, n, outer, forest, kind, root, mate, deep, slack)
    requires |kind| == 2 * n && |forest| == 2 * n && |root| == 2 * n && |mate| == 2 * n && 0 <= u < n && 0 <= v < n
    requires Tight(slack, n, u, v)
    requires |outer| == 2 * n && 0 <= outer[u] < 2 * n && 0 <= outer[v] < 2 * n && kind[outer[u]] == EVEN
    requires kind[outer[v]] == UNLABELED
    ensures 0 <= mate[outer[v]] < n && 0 <= outer[mate[outer[v]]] < 2 * n && kind[outer[mate[outer[v]]]] == UNLABELED
    ensures outer[mate[outer[v]]] != outer[v]
    ensures IsForest(family, stops, n, outer, forest[outer[v] := u][outer[mate[outer[v]]] := v],
      kind[outer[v] := ODD][outer[mate[outer[v]]] := EVEN],
              root[outer[v] := root[outer[u]]][outer[mate[outer[v]]] := root[outer[u]]], mate, deep, slack)
    ensures |Plain(family, kind[outer[v] := ODD][outer[mate[outer[v]]] := EVEN])| < |Plain(family, kind)|
  {
    hide *;
    ForestParts(family, stops, n, outer, forest, kind, root, mate, deep, slack);
    LabelTwo(family, n, active, free, deep, shallow, outer, forest, kind, root, mate, slack, u, v);
    FreshStay(family, stops, kind, n, outer[v], outer[mate[outer[v]]]);
    MakeForest(family, stops, n, outer, forest[outer[v] := u][outer[mate[outer[v]]] := v],
      kind[outer[v] := ODD][outer[mate[outer[v]]] := EVEN],
      root[outer[v] := root[outer[u]]][outer[mate[outer[v]]] := root[outer[u]]], mate, deep, slack);
    var s := VertexTree(family, n, active, free, deep, shallow, outer, v);
    PlainShrinks(family, kind, s, outer[v], outer[mate[outer[v]]]);
  }

  // Augmenting --------------------------------------------------------------------------------------------

  lemma HalfRoot(family: set<Tree>, n: nat, active: seq<bool>, free: seq<int>, deep: seq<seq<int>>,
                 shallow: seq<seq<int>>, outer: seq<int>,
                 forest: seq<int>, kind: seq<int>, mate: seq<int>, slack: seq<real>, path: seq<int>, ids: seq<int>,
                 stops: set<int>) returns (k: Tree)
    requires Whole(family, {}, n, active, free, deep, shallow, outer)
    requires HalfWay(family, n, outer, forest, kind, mate, deep, slack, path)
    requires Good(family, stops, mate, slack, n) && |mate| == 2 * n && forall x :: x in path ==> x in ids
    ensures k in KeptOf(TreesOf(family, ids), stops) && 0 <= k.id < 2 * n && mate[k.id] == -1
  {
    hide *;
    HalfParts(family, n, outer, forest, kind, mate, deep, slack, path);
    var r := PathNode(family, n, active, free, deep, shallow, outer, forest, kind, mate, slack, path, |path| - 1);
    IsTreeOf(family, ids, r);
    k := GoodFacts(family, stops, mate, slack, n, r);
    PieceFacts(r, k, stops, mate, slack, n);
    InKeptOf(TreesOf(family, ids), stops, r, k);
  }

  /** After the path is turned the state is ready, and fewer nodes are exposed. */
  lemma AugmentReady(family0: set<Tree>, base: set<Tree>, stops: set<int>, n: nat, active0: seq<bool>, free0: seq<int>,
                     deep: seq<seq<int>>,
                     shallow0: seq<seq<int>>, outer0: seq<int>, forest: seq<int>, kind: seq<int>, mate0: seq<int>,
                     slack: seq<real>,
                     up: seq<int>, vp: seq<int>, family: set<Tree>, active: seq<bool>, blocked: seq<bool>,
                     dual: seq<real>, mate: seq<int>, outer: seq<int>)
    requires Whole(family0, {}, n, active0, free0, deep, shallow0, outer0) && Accounted(family, {}, active, n)
    requires IsReady(family0, base, stops, n, active0, blocked, dual, mate0, slack)
    requires Augmenting(family0, n, outer0, forest, kind, mate0, deep, slack, up, vp)
    requires Flipped(family0, TreesOf(family0, up + vp), family, stops, n, mate0, mate, outer0, outer, slack)
    ensures IsReady(family, base, stops, n, active, blocked, dual, mate, slack)
    ensures |Exposed(base, mate)| < |Exposed(base, mate0)| && Exposed(base, mate) <= Exposed(base, mate0)
  {
    hide *;
    var used := TreesOf(family0, up + vp);
    LaminarAccounted(family0, n, active0, free0, deep, shallow0, outer0);
    ReadyParts(family0, base, stops, n, active0, blocked, dual, mate0, slack);
    GoodIsPartly(family0, stops, mate0, slack, n);
    PathsClosed(family0, n, active0, free0, deep, shallow0, outer0, forest, kind, mate0, slack, up, vp);
    FlipEnd(family0, used, family, stops, n, mate0, mate, outer0, outer, slack);
    FlippedFacts(family0, used, family, stops, n, mate0, mate, outer0, outer, slack);
    BlockingAfter(family0, used, family, n, active0, active, blocked, dual, stops);
    FlipTight(family0, used, family, stops, slack, n);
    AugmentingParts(family0, n, outer0, forest, kind, mate0, deep, slack, up, vp);
    var k := HalfRoot(family0, n, active0, free0, deep, shallow0, outer0, forest, kind, mate0, slack, up, up + vp,
      stops);
    KeptOfPart(family0, used, stops);
    ExposedShrinks(base, mate0, mate, n, k);
    MakeReady(family, base, stops, n, active, blocked, dual, mate, slack);
  }

  lemma FlipTight(family0: set<Tree>, used: set<Tree>, family: set<Tree>, stops: set<int>, slack: seq<real>, n: nat)
    requires TightFamily(family0, slack, n) && used <= family0 && family == family0 - used + KeptOf(used, stops)
    ensures TightFamily(family, slack, n)
  {
    hide TightTree, Kept;
    forall k | k in family
      ensures TightTree(k, slack, n)
    {
      if k in KeptOf(used, stops) {
        var t := OwnerOf(used, stops, k);
        KeptTight(t, stops, slack, n, k);
      }
    }
  }

  // Back to the duals -------------------------------------------------------------------------------------

  /** In the forest matched nodes with labels have opposite labels. */
  lemma ForestOpposite(family: set<Tree>, stops: set<int>, n: nat, active: seq<bool>, free: seq<int>,
                       deep: seq<seq<int>>, shallow: seq<seq<int>>, outer: seq<int>,
                       forest: seq<int>, kind: seq<int>, root: seq<int>, mate: seq<int>, slack: seq<real>, t: Tree)
    requires Whole(family, {}, n, active, free, deep, shallow, outer) && PartlyMatched(family, mate, slack, n)
    requires t in family
    requires IsForest(family, stops, n, outer, forest, kind, root, mate, deep, slack) && |kind| == 2 * n
    requires |mate| == 2 * n
    requires 0 <= t.id < 2 * n && kind[t.id] != UNLABELED && mate[t.id] != -1
    ensures HasOpposite(family, t, n, kind, mate, slack)
  {
    hide *;
    ForestParts(family, stops, n, outer, forest, kind, root, mate, deep, slack);
    LabelFacts(family, n, outer, kind, root, mate, t);
    LabelsAt(kind, n, t.id);
    var r := MateBack(family, n, active, free, deep, shallow, outer, mate, slack, t);
    LeadsFacts(t.id, r.id, n, outer, mate);
    if kind[t.id] == EVEN {
      var path := ClimbOf(family, t, n, outer, forest, kind, root, mate, deep, slack);
      EvenMate(path, t.id, n, outer, forest, kind, root, mate, deep, slack);
      MateLabel(t.id, r.id, ODD, n, outer, kind, mate);
    } else {
      MateLabel(t.id, r.id, EVEN, n, outer, kind, mate);
    }
    MakeOpposite(family, t, r, n, kind, mate, slack);
  }

  lemma MakeOpposite(family: set<Tree>, t: Tree, r: Tree, n: nat, kind: seq<int>, mate: seq<int>, slack: seq<real>)
    requires r in family && r != t && Mutual(t, r, mate, slack, n) && 0 <= t.id < |kind| && 0 <= r.id < |kind|
    requires (kind[t.id] == EVEN && kind[r.id] == ODD) || (kind[t.id] == ODD && kind[r.id] == EVEN)
    ensures HasOpposite(family, t, n, kind, mate, slack)
  {
  }

  lemma ForestMates(family: set<Tree>, stops: set<int>, n: nat, active: seq<bool>, free: seq<int>, deep: seq<seq<int>>,
                    shallow: seq<seq<int>>, outer: seq<int>,
                    forest: seq<int>, kind: seq<int>, root: seq<int>, mate: seq<int>, slack: seq<real>)
    requires Whole(family, {}, n, active, free, deep, shallow, outer) && PartlyMatched(family, mate, slack, n)
    requires IsForest(family, stops, n, outer, forest, kind, root, mate, deep, slack) && |kind| == 2 * n
    requires |mate| == 2 * n
    ensures OppositeMates(family, n, kind, mate, slack)
  {
    hide Whole, PartlyMatched, IsForest, HasOpposite;
    forall t | t in family && n <= t.id < 2 * n && kind[t.id] != UNLABELED && mate[t.id] != -1
      ensures HasOpposite(family, t, n, kind, mate, slack)
    {
      ForestOpposite(family, stops, n, active, free, deep, shallow, outer, forest, kind, root, mate, slack, t);
    }
  }

  lemma OddCircuit(up: seq<int>, a: int, vp: seq<int>, b: int, n: nat, outer: seq<int>, forest: seq<int>,
                   kind: seq<int>)
    requires RootPath(up, n, outer, forest) && RootPath(vp, n, outer, forest) && up[0] != vp[0]
    requires Alternates(up, n, kind) && Alternates(vp, n, kind) && Meets(up, a, vp, b)
    ensures 0 <= a < |up| && 0 <= b < |vp| && a + 1 + b >= 3 && (a + 1 + b) % 2 == 1
  {
    CircuitIsOdd(up, a, vp, b, n, outer, forest, kind);
    MeetBounds(up, a, vp, b);
    CircuitAt(up, a, vp, b, 0);
  }

  lemma KeptIsBase(family: set<Tree>, stops: set<int>, base: set<Tree>)
    requires KeptOf(family, stops) == base
    ensures base <= KeptOf(family, stops)
  {
  }

  lemma EvensStay(kind: seq<int>, x: int, y: int, n: nat)
    requires |kind| == 2 * n && 0 <= x < 2 * n && 0 <= y < 2 * n && kind[x] == UNLABELED && kind[y] == UNLABELED
    ensures forall i :: 0 <= i < 2 * n && kind[i] == EVEN ==> kind[x := ODD][y := EVEN][i] == EVEN
  {
    SortsDiffer();
  }

  /** The climbs from both ends of an edge inside one tree of the forest. */
  lemma TwoClimbs(family: set<Tree>, base: set<Tree>, stops: set<int>, n: nat, active: seq<bool>, free: seq<int>,
                  deep: seq<seq<int>>, shallow: seq<seq<int>>,
                  outer: seq<int>, forest: seq<int>, kind: seq<int>, root: seq<int>, mate: seq<int>, slack: seq<real>,
                  blocked: seq<bool>, dual: seq<real>,
                  u: int, v: int) returns (s: Tree, r: Tree, up: seq<int>, vp: seq<int>)
    requires Whole(family, {}, n, active, free, deep, shallow, outer)
    requires IsReady(family, base, stops, n, active, blocked, dual, mate, slack)
    requires IsForest(family, stops, n, outer, forest, kind, root, mate, deep, slack) && 0 <= u < n && 0 <= v < n
    requires |outer| == 2 * n && 0 <= outer[u] < 2 * n && 0 <= outer[v] < 2 * n && |kind| == 2 * n && |root| == 2 * n
    requires kind[outer[u]] == EVEN && kind[outer[v]] == EVEN && root[outer[u]] == root[outer[v]]
    ensures TightFamily(family, slack, n) && s in family && r in family && s.id == outer[u] && r.id == outer[v]
    ensures Climbs(up, s.id, n, outer, forest, kind, root, mate, deep, slack)
    ensures Climbs(vp, r.id, n, outer, forest, kind, root, mate, deep, slack)
    ensures RootPath(up, n, outer, forest) && Alternates(up, n, kind) && PathTight(up, deep, slack, n)
    ensures RootPath(vp, n, outer, forest) && Alternates(vp, n, kind) && PathTight(vp, deep, slack, n)
    ensures up != [] && vp != [] && up[0] == outer[u] && vp[0] == outer[v] && up[|up| - 1] == vp[|vp| - 1]
  {
    hide *;
    ReadyParts(family, base, stops, n, active, blocked, dual, mate, slack);
    ForestParts(family, stops, n, outer, forest, kind, root, mate, deep, slack);
    s := VertexTree(family, n, active, free, deep, shallow, outer, u);
    r := VertexTree(family, n, active, free, deep, shallow, outer, v);
    up := ClimbOf(family, s, n, outer, forest, kind, root, mate, deep, slack);
    vp := ClimbOf(family, r, n, outer, forest, kind, root, mate, deep, slack);
    ClimbParts(up, s.id, n, outer, forest, kind, root, mate, deep, slack);
    ClimbParts(vp, r.id, n, outer, forest, kind, root, mate, deep, slack);
    SameEnd(family, n, active, free, deep, shallow, outer, forest, kind, root, mate, slack, up, vp, s, r);
  }

  /** The sets change only where there is no dual. */
  ghost predicate DeepAgrees(n: nat, dual: seq<real>, deep: seq<seq<int>>, deep': seq<seq<int>>) {
    |dual| == 2 * n && |deep| == 2 * n && |deep'| == 2 * n && forall j :: 0 <= j < 2 * n ==>
      deep'[j] == deep[j] || dual[j] == 0.0
  }

  lemma NewHasNoDual(family: set<Tree>, base: set<Tree>, stops: set<int>, n: nat, active: seq<bool>, blocked: seq<bool>,
                     dual: seq<real>, mate: seq<int>,
                     slack: seq<real>, kids: seq<Tree>, t: int, free: seq<int>, deep: seq<seq<int>>,
                     shallow: seq<seq<int>>, outer: seq<int>,
                     active': seq<bool>, free': seq<int>, deep': seq<seq<int>>, shallow': seq<seq<int>>,
                     outer': seq<int>)
    requires Whole(family, {}, n, active, free, deep, shallow, outer)
    requires IsReady(family, base, stops, n, active, blocked, dual, mate, slack)
    requires Picked(family, kids) && kids != []
    requires Whole(family - Members(kids) + {Tree(t, kids)}, {}, n, active', free', deep', shallow', outer')
    requires n <= t < 2 * n && |deep| == 2 * n && |deep'| == 2 * n
    requires forall j :: 0 <= j < 2 * n && j != t ==> deep'[j] == deep[j]
    ensures DeepAgrees(n, dual, deep, deep')
  {
    hide Whole, IsReady, Picked, Members, Covered, Laminar, Good, KeptOf, TightFamily, FullBlossoms, Accounted;
    ReadyParts(family, base, stops, n, active, blocked, dual, mate, slack);
    LaminarAccounted(family, n, active, free, deep, shallow, outer);
    LaminarAccounted(family - Members(kids) + {Tree(t, kids)}, n, active', free', deep', shallow', outer');
    NewNumber(family, kids, t, n);
    NotCoveredInactive(family, n, active, blocked, dual, stops, t);
  }

  lemma SameDualSum(n: nat, dual: seq<real>, deep: seq<seq<int>>, deep': seq<seq<int>>, u: int, v: int)
    requires DeepAgrees(n, dual, deep, deep')
    ensures DualSum(dual, deep', u, v) == DualSum(dual, deep, u, v)
  {
    SumAtMost(Shares(dual, deep', u, v), Shares(dual, deep, u, v), |dual|);
    SumAtMost(Shares(dual, deep, u, v), Shares(dual, deep', u, v), |dual|);
  }

  /** So the certificate stays. */
  lemma CertifiedStays(n: nat, costs: seq<real>, slack: seq<real>, dual: seq<real>, deep: seq<seq<int>>,
                       deep': seq<seq<int>>)
    requires Certified(n, costs, slack, dual, deep) && DeepAgrees(n, dual, deep, deep')
    ensures Certified(n, costs, slack, dual, deep')
  {
    forall u, v | 0 <= u < v < n
      ensures DualSum(dual, deep', u, v) == DualSum(dual, deep, u, v)
    {
      SameDualSum(n, dual, deep, deep', u, v);
    }
    hide DualSum, DeepAgrees, EdgeCount;
  }

  /** Everything that contraction keeps. */
  lemma ContractAll(family: set<Tree>, base: set<Tree>, stops: set<int>, n: nat, active: seq<bool>, free: seq<int>,
                    deep: seq<seq<int>>, shallow: seq<seq<int>>,
                    outer: seq<int>, forest: seq<int>, kind: seq<int>, root: seq<int>, mate: seq<int>, slack: seq<real>,
                    blocked: seq<bool>, dual: seq<real>,
                    up: seq<int>, a: int, vp: seq<int>, b: int, kids: seq<Tree>, t: int, active': seq<bool>,
                    free': seq<int>, deep': seq<seq<int>>,
                    shallow': seq<seq<int>>, outer': seq<int>, s: Tree, r: Tree, list: seq<int>)
    requires Whole(family, {}, n, active, free, deep, shallow, outer)
    requires IsReady(family, base, stops, n, active, blocked, dual, mate, slack)
    requires IsForest(family, stops, n, outer, forest, kind, root, mate, deep, slack) && s in family && r in family
    requires IsWork(list, family, kind)
    requires Climbs(up, s.id, n, outer, forest, kind, root, mate, deep, slack)
    requires Climbs(vp, r.id, n, outer, forest, kind, root, mate, deep, slack)
    requires up != [] && vp != [] && up[0] != vp[0]
    requires Meets(up, a, vp, b) && 0 <= a < |up| && 0 <= b < |vp| && Picked(family, kids)
    requires Roots(kids) == Circuit(up, a, vp, b)
    requires Whole(family - Members(kids) + {Tree(t, kids)}, {}, n, active', free', deep', shallow', outer')
    requires TightFamily(family - Members(kids) + {Tree(t, kids)}, slack, n) && n <= t < 2 * n
    requires |forest| == 2 * n && |kind| == 2 * n && |root| == 2 * n && |mate| == 2 * n && 0 <= up[a] < 2 * n
    requires |deep| == 2 * n && |deep'| == 2 * n && forall j :: 0 <= j < 2 * n && j != t ==> deep'[j] == deep[j]
    ensures DeepAgrees(n, dual, deep, deep')
    ensures IsForest(family - Members(kids) + {Tree(t, kids)}, stops, n, outer', forest[t := forest[up[a]]],
      kind[t := EVEN],
              root[t := root[up[a]]], mate[t := mate[up[a]]], deep', slack)
    ensures IsReady(family - Members(kids) + {Tree(t, kids)}, base, stops, n, active', blocked, dual,
      mate[t := mate[up[a]]], slack)
    ensures Labels(kind[t := EVEN], n) && IsWork(list + [t], family - Members(kids) + {Tree(t, kids)}, kind[t := EVEN])
    ensures |family - Members(kids) + {Tree(t, kids)}| < |family|
    ensures Exposed(base, mate[t := mate[up[a]]]) == Exposed(base, mate)
  {
    hide *;
    ReadyParts(family, base, stops, n, active, blocked, dual, mate, slack);
    ForestParts(family, stops, n, outer, forest, kind, root, mate, deep, slack);
    LaminarAccounted(family, n, active, free, deep, shallow, outer);
    LaminarAccounted(family - Members(kids) + {Tree(t, kids)}, n, active', free', deep', shallow', outer');
    GoodIsPartly(family, stops, mate, slack, n);
    ClimbParts(up, s.id, n, outer, forest, kind, root, mate, deep, slack);
    ClimbParts(vp, r.id, n, outer, forest, kind, root, mate, deep, slack);
    MeetBounds(up, a, vp, b);
    ContractForest(family, stops, n, active, free, deep, shallow, outer, forest, kind, root, mate, slack, up, a, vp, b,
      kids, t, active', free', deep', shallow', outer', s, r);
    FirstKid(kids, up, a, vp, b);
    NewHasNoDual(family, base, stops, n, active, blocked, dual, mate, slack, kids, t, free, deep, shallow, outer,
      active', free', deep', shallow', outer');
    OddCircuit(up, a, vp, b, n, outer, forest, kind);
    ContractReady(family, base, stops, n, active, blocked, dual, mate, slack, kids, t, active');
    LabelsCrown(kind, n, t);
    WorkGrows(list, family, kind, n, kids, t);
    KeptIsBase(family, stops, base);
    NewMate(family, stops, mate, slack, n, t, mate[up[a]], base);
    ExposedSame(base, mate, mate[t := mate[up[a]]]);
  }

  lemma SomeLeaf(family: set<Tree>, n: nat, active: seq<bool>, free: seq<int>, deep: seq<seq<int>>,
                 shallow: seq<seq<int>>, outer: seq<int>, t: Tree)
    returns (v: int)
    requires Whole(family, {}, n, active, free, deep, shallow, outer) && t in family
    ensures 0 <= v < n && |outer| == 2 * n && outer[v] == t.id
  {
    hide Whole;
    WholeSizes(family, {}, n, active, free, deep, shallow, outer);
    TreeFacts(family, n, active, free, deep, shallow, outer, t);
    LeavesDistinct(t, n);
    v := Leaves(t)[0];
    assert v in Leaves(t);
  }
}
