/** The laminar family of outermost blossoms, and what opening blossoms leaves of it. */
module BlossomFamily {
  import opened BlossomTree

  /** The numbers in use by the trees. */
  ghost function Covered(family: set<Tree>): set<int> {
    set t, x | t in family && x in Ids(t) :: x
  }

  /** Disjoint well-shaped trees; `pending` are the numbers of trees that are being taken apart. */
  ghost predicate Laminar(family: set<Tree>, pending: set<int>, n: nat) {
    && (forall t :: t in family ==> Shape(t, n) && Ids(t) !! pending)
    && (forall s, t :: s in family && t in family && s != t ==> Ids(s) !! Ids(t))
    && (forall x :: x in pending ==> 0 <= x < 2 * n)
  }

  /** The active numbers are those of the trees, and the vertices are always active. */
  ghost predicate Accounted(family: set<Tree>, pending: set<int>, active: seq<bool>, n: nat) {
    && |active| == 2 * n
    && (forall i :: 0 <= i < 2 * n ==> (active[i] <==> i in Covered(family) + pending))
    && (forall v :: 0 <= v < n ==> active[v])
  }

  /** The free list holds the inactive blossom numbers, each once. */
  ghost predicate FreeList(free: seq<int>, active: seq<bool>, n: nat)
    requires |active| == 2 * n
  {
    Distinct(free) && forall i :: i in free <==> n <= i < 2 * n && !active[i]
  }

  ghost predicate Arrays(family: set<Tree>, deep: seq<seq<int>>, shallow: seq<seq<int>>, outer: seq<int>) {
    forall t :: t in family ==> Outermost(t, deep, shallow, outer)
  }

  // Moving trees in and out ------------------------------------------------------------------------------

  lemma CoveredOne(t: Tree)
    ensures Covered({t}) == Ids(t)
  {
    forall x
      ensures x in Covered({t}) <==> x in Ids(t)
    {
      assert t in {t};
    }
  }

  lemma CoveredUnion(a: set<Tree>, b: set<Tree>)
    ensures Covered(a + b) == Covered(a) + Covered(b)
  {
  }

  lemma InCovered(family: set<Tree>, t: Tree)
    requires t in family
    ensures Ids(t) <= Covered(family)
  {
    forall x | x in Ids(t)
      ensures x in Covered(family)
    {
      assert t in family && x in Ids(t);
    }
  }

  lemma IdInTree(t: Tree)
    ensures t.id in Ids(t)
  {
  }

  lemma Remove(family: set<Tree>, pending: set<int>, active: seq<bool>, n: nat, t: Tree)
    requires Laminar(family, pending, n) && t in family && Accounted(family, pending, active, n)
    ensures Laminar(family - {t}, pending + Ids(t), n) && Accounted(family - {t}, pending + Ids(t), active, n)
  {
    forall x | x in Ids(t)
      ensures 0 <= x < 2 * n
    {
      LeafIffId(t, n, x);
    }
    CoveredUnion(family - {t}, {t});
    CoveredOne(t);
    assert family - {t} + {t} == family;
  }

  lemma Adopt(family: set<Tree>, pending: set<int>, active: seq<bool>, n: nat, t: Tree)
    requires Laminar(family, pending, n) && Shape(t, n) && Ids(t) <= pending && Accounted(family, pending, active, n)
    ensures Laminar(family + {t}, pending - Ids(t), n) && Accounted(family + {t}, pending - Ids(t), active, n)
    ensures t !in family
  {
    IdInTree(t);
    hide Ids, Shape;
    CoveredUnion(family, {t});
    CoveredOne(t);
  }

  /** A pending number becomes inactive and free. */
  lemma Release(family: set<Tree>, pending: set<int>, active: seq<bool>, free: seq<int>, n: nat, x: int)
    requires Laminar(family, pending, n) && Accounted(family, pending, active, n) && FreeList(free, active, n)
    requires x in pending && n <= x < 2 * n
    ensures Laminar(family, pending - {x}, n) && Accounted(family, pending - {x}, active[x := false], n)
    ensures FreeList(free + [x], active[x := false], n)
  {
    var active', free' := active[x := false], free + [x];
    assert x in Covered(family) + pending && active[x] && x !in free;
    forall i
      ensures i in free' <==> n <= i < 2 * n && !active'[i]
    {
      assert i in free' <==> i in free || i == x;
    }
  }

  lemma ArraysFrame(family: set<Tree>, pending: set<int>, n: nat, deep: seq<seq<int>>, shallow: seq<seq<int>>,
                    outer: seq<int>,
                    deep': seq<seq<int>>, shallow': seq<seq<int>>, outer': seq<int>)
    requires Laminar(family, pending, n) && Arrays(family, deep, shallow, outer)
    requires |outer'| == |outer| && |deep'| == |deep| && |shallow'| == |shallow|
    requires forall x :: x in Covered(family) && 0 <= x < |outer| ==> outer'[x] == outer[x]
    requires forall x :: x in Covered(family) && 0 <= x < |deep| ==> deep'[x] == deep[x]
    requires forall x :: x in Covered(family) && 0 <= x < |shallow| ==> shallow'[x] == shallow[x]
    ensures Arrays(family, deep', shallow', outer')
  {
    forall t | t in family
      ensures Outermost(t, deep', shallow', outer')
    {
      forall x | x in Ids(t)
        ensures x in Covered(family)
      {
      }
      FitsFrame(t, n, deep, shallow, outer, deep', shallow', outer');
      IdInTree(t);
      forall v | v in Leaves(t)
        ensures 0 <= v < |outer'| && outer'[v] == t.id
      {
        LeafIffId(t, n, v);
      }
    }
  }

  // The free list never runs out -----------------------------------------------------------------------

  ghost function LeafSet(family: set<Tree>): set<int> {
    set t, x | t in family && x in Leaves(t) :: x
  }

  lemma {:induction false} SeqSize(s: seq<int>) returns (r: set<int>)
    requires Distinct(s)
    ensures r == (set x | x in s) && |r| == |s|
  {
    if s == [] {
      r := {};
    } else {
      var last := |s| - 1;
      r := SeqSize(s[..last]);
      r := r + {s[last]};
    }
  }

  lemma Apart(rest: set<Tree>, t: Tree, n: nat)
    requires Laminar(rest + {t}, {}, n) && t !in rest
    ensures Covered(rest) !! Ids(t)
    ensures forall x :: x in LeafSet(rest) ==> x !in Leaves(t)
  {
    hide Ids, Leaves, Shape;
    assert t in rest + {t};
    forall s | s in rest
      ensures Ids(s) !! Ids(t)
    {
      assert s in rest + {t};
    }
    forall s, x | s in rest && x in Leaves(s)
      ensures x !in Leaves(t)
    {
      LeafIffId(s, n, x);
      LeafIffId(t, n, x);
    }
  }

  lemma LeafSetPlus(rest: set<Tree>, t: Tree)
    ensures LeafSet(rest + {t}) == LeafSet(rest) + set x | x in Leaves(t)
  {
    hide Leaves;
    forall x
      ensures x in LeafSet(rest + {t}) <==> x in LeafSet(rest) || x in Leaves(t)
    {
      if x in Leaves(t) {
        assert t in rest + {t};
      } else if x in LeafSet(rest) {
        var s :| s in rest && x in Leaves(s);
        assert s in rest + {t};
      }
    }
  }

  lemma BlossomsPlus(a: set<int>, b: set<int>, n: nat)
    requires a !! b
    ensures |Blossoms(a + b, n)| == |Blossoms(a, n)| + |Blossoms(b, n)|
  {
    assert Blossoms(a + b, n) == Blossoms(a, n) + Blossoms(b, n);
  }

  lemma {:induction false} FamilyBound(family: set<Tree>, n: nat)
    requires Laminar(family, {}, n)
    ensures 2 * |Blossoms(Covered(family), n)| + |family| <= |LeafSet(family)|
  {
    hide Covered, LeafSet, Ids, Leaves, Shape, Blossoms;
    if family == {} {
      NoBlossoms(n);
    } else {
      var t :| t in family;
      var rest := family - {t};
      assert rest + {t} == family;
      FamilyBound(rest, n);
      FewBlossoms(t, n);
      LeavesDistinct(t, n);
      var own := SeqSize(Leaves(t));
      Apart(rest, t, n);
      LeafSetPlus(rest, t);
      CoveredUnion(rest, {t});
      CoveredOne(t);
      BlossomsPlus(Covered(rest), Ids(t), n);
    }
  }

  lemma NoBlossoms(n: nat)
    ensures Blossoms(Covered({}), n) == {} 
  {
  }

  ghost function Upto(lo: nat, hi: nat): (s: set<int>)
    requires lo <= hi
    ensures |s| == hi - lo && forall x :: x in s <==> lo <= x < hi
    decreases hi
  {
    if lo == hi then {} else Upto(lo, hi - 1) + {hi - 1}
  }

  lemma {:induction false} SubsetSize<T>(a: set<T>, b: set<T>)
    requires a <= b
    ensures |a| <= |b|
  {
    if a != {} {
      var x :| x in a;
      SubsetSize(a - {x}, b - {x});
    }
  }

  /** With every active number in a tree there is always a free blossom number. */
  lemma FreeNotEmpty(family: set<Tree>, active: seq<bool>, free: seq<int>, n: nat)
    requires n > 0 && Laminar(family, {}, n) && Accounted(family, {}, active, n) && FreeList(free, active, n)
    ensures free != []
  {
    FamilyBound(family, n);
    forall x | x in LeafSet(family)
      ensures x in Upto(0, n)
    {
      var t :| t in family && x in Leaves(t);
      LeafIffId(t, n, x);
    }
    SubsetSize(LeafSet(family), Upto(0, n));
    assert |Blossoms(Covered(family), n)| < n;
    if free == [] {
      forall x | x in Upto(n, 2 * n)
        ensures x in Blossoms(Covered(family), n)
      {
        assert x !in free;
        assert active[x];
      }
      SubsetSize(Upto(n, 2 * n), Blossoms(Covered(family), n));
    }
  }

  // Opening ----------------------------------------------------------------------------------------------

  /** What is left of a tree when its blossoms are opened from the top, except those in `stops`. */
  ghost function Kept(t: Tree, stops: set<int>): set<Tree>
    decreases t
  {
    if t.kids == [] || t.id in stops then {t} else AllKept(t.kids, stops)
  }

  ghost function AllKept(ks: seq<Tree>, stops: set<int>): set<Tree>
    decreases ks
  {
    if ks == [] then {} else AllKept(ks[..|ks| - 1], stops) + Kept(ks[|ks| - 1], stops)
  }

  /** The numbers of the blossoms that are opened. */
  ghost function Opened(t: Tree, stops: set<int>): set<int>
    decreases t
  {
    if t.kids == [] || t.id in stops then {} else {t.id} + AllOpened(t.kids, stops)
  }

  ghost function AllOpened(ks: seq<Tree>, stops: set<int>): set<int>
    decreases ks
  {
    if ks == [] then {} else AllOpened(ks[..|ks| - 1], stops) + Opened(ks[|ks| - 1], stops)
  }

  /** Opening only splits the numbers of a tree into those kept and those opened. */
  lemma {:induction false} KeptSplits(t: Tree, stops: set<int>, n: nat)
    requires Shape(t, n)
    ensures Covered(Kept(t, stops)) + Opened(t, stops) == Ids(t)
    ensures Covered(Kept(t, stops)) !! Opened(t, stops)
    ensures forall x :: x in Opened(t, stops) ==> n <= x < 2 * n
    ensures Laminar(Kept(t, stops), {}, n)
    decreases t
  {
    if t.kids == [] || t.id in stops {
      CoveredOne(t);
    } else {
      AllKeptSplits(t.kids, stops, n);
    }
  }

  lemma {:induction false} AllKeptSplits(ks: seq<Tree>, stops: set<int>, n: nat)
    requires AllShape(ks, n)
    ensures Covered(AllKept(ks, stops)) + AllOpened(ks, stops) == AllIds(ks)
    ensures Covered(AllKept(ks, stops)) !! AllOpened(ks, stops)
    ensures forall x :: x in AllOpened(ks, stops) ==> n <= x < 2 * n
    ensures Laminar(AllKept(ks, stops), {}, n)
    decreases ks
  {
    if ks != [] {
      var last := |ks| - 1;
      AllKeptSplits(ks[..last], stops, n);
      KeptSplits(ks[last], stops, n);
      var a, b := AllKept(ks[..last], stops), Kept(ks[last], stops);
      CoveredUnion(a, b);
      MergeLaminar(a, b, n);
    } else {
      assert Covered({}) == {};
    }
  }

  lemma MergeLaminar(a: set<Tree>, b: set<Tree>, n: nat)
    requires Laminar(a, {}, n) && Laminar(b, {}, n) && Covered(a) !! Covered(b)
    ensures Laminar(a + b, {}, n)
  {
    hide Ids, Shape;
    forall s, t | s in a && t in b
      ensures Ids(s) !! Ids(t)
    {
      InCovered(a, s);
      InCovered(b, t);
    }
  }

  lemma {:induction false} KeptOfKid(ks: seq<Tree>, stops: set<int>, t: Tree)
    ensures t in AllKept(ks, stops) <==> exists i :: 0 <= i < |ks| && t in Kept(ks[i], stops)
    decreases ks
  {
    if ks != [] {
      var last := |ks| - 1;
      KeptOfKid(ks[..last], stops, t);
      if i :| 0 <= i < last && t in Kept(ks[..last][i], stops) {
        assert t in Kept(ks[i], stops);
      }
      forall i | 0 <= i < |ks| && t in Kept(ks[i], stops)
        ensures t in AllKept(ks, stops)
      {
        if i < last {
          assert ks[..last][i] == ks[i];
        }
      }
    }
  }

  // The whole structure ----------------------------------------------------------------------------------

  ghost predicate Whole(family: set<Tree>, pending: set<int>, n: nat, active: seq<bool>, free: seq<int>,
                        deep: seq<seq<int>>, shallow: seq<seq<int>>, outer: seq<int>)
  {
    && |deep| == 2 * n && |shallow| == 2 * n && |outer| == 2 * n
    && Laminar(family, pending, n) && Accounted(family, pending, active, n) && FreeList(free, active, n)
    && Arrays(family, deep, shallow, outer)
  }

  /** outer leads from the root and the leaves of a tree to r, and is otherwise unchanged. */
  ghost predicate Pointed(t: Tree, r: int, outer: seq<int>, outer': seq<int>) {
    |outer'| == |outer| &&
    forall x :: 0 <= x < |outer| ==> outer'[x] == if x == t.id || x in Leaves(t) then r else outer[x]
  }

  /** The pending numbers while the children from k on are still to be handled. */
  ghost function StillPending(pending: set<int>, t: Tree, k: nat): set<int>
    requires k <= |t.kids|
  {
    pending + {t.id} + (AllIds(t.kids) - AllIds(t.kids[..k]))
  }

  lemma StartPending(pending: set<int>, t: Tree)
    ensures StillPending(pending, t, 0) == pending + Ids(t)
    ensures StillPending(pending, t, |t.kids|) == pending + {t.id}
  {
    assert t.kids[..|t.kids|] == t.kids;
  }

  lemma NextPending(pending: set<int>, t: Tree, n: nat, k: nat)
    requires Shape(t, n) && k < |t.kids| && pending !! Ids(t)
    ensures Ids(t.kids[k]) <= StillPending(pending, t, k)
    ensures StillPending(pending, t, k + 1) == StillPending(pending, t, k) - Ids(t.kids[k])
    ensures Shape(t.kids[k], n)
  {
    KidIds(t.kids, k);
    KidShape(t.kids, n, k);
    PrefixShape(t.kids, n, k + 1);
    assert t.kids[..k + 1][..k] == t.kids[..k];
  }

  lemma OutsideUnpointed(family: set<Tree>, pending: set<int>, n: nat, t: Tree, r: int, outer: seq<int>,
                         outer': seq<int>)
    requires Laminar(family, pending, n) && Shape(t, n) && Ids(t) <= pending && Pointed(t, r, outer, outer')
    ensures forall x :: x in Covered(family) && 0 <= x < |outer| ==> outer'[x] == outer[x]
  {
    forall x | x in Covered(family) && 0 <= x < |outer|
      ensures outer'[x] == outer[x]
    {
      LeafIffId(t, n, x);
      IdInTree(t);
      var s :| s in family && x in Ids(s);
    }
  }

  /** A pending tree joins the family as an outermost one. */
  lemma AdoptWhole(family: set<Tree>, pending: set<int>, n: nat, active: seq<bool>, free: seq<int>,
                   deep: seq<seq<int>>, shallow: seq<seq<int>>, outer: seq<int>, outer': seq<int>, t: Tree)
    requires Whole(family, pending, n, active, free, deep, shallow, outer) && Shape(t, n) && Ids(t) <= pending
    requires Fits(t, deep, shallow, outer) && Pointed(t, t.id, outer, outer')
    ensures Whole(family + {t}, pending - Ids(t), n, active, free, deep, shallow, outer') && t !in family
  {
    Adopt(family, pending, active, n, t);
    OutsideUnpointed(family, pending, n, t, t.id, outer, outer');
    ArraysFrame(family, pending, n, deep, shallow, outer, deep, shallow, outer');
    LeavesInArray(t, n);
    FitsPointed(t, n, deep, shallow, outer, outer');
    hide Laminar, Accounted, FreeList, Fits, Leaves, Ids, Shape;
  }

  lemma LeavesInArray(t: Tree, n: nat)
    requires Shape(t, n)
    ensures forall v :: v in Leaves(t) ==> 0 <= v < n
  {
    forall v | v in Leaves(t)
      ensures 0 <= v < n
    {
      LeafIffId(t, n, v);
    }
  }

  lemma FitsPointed(t: Tree, n: nat, deep: seq<seq<int>>, shallow: seq<seq<int>>, outer: seq<int>, outer': seq<int>)
    requires Shape(t, n) && Fits(t, deep, shallow, outer) && Pointed(t, t.id, outer, outer')
    ensures Fits(t, deep, shallow, outer')
  {
    LeavesInArray(t, n);
    FitsFrame(t, n, deep, shallow, outer, deep, shallow, outer');
  }

  /** A tree leaves the family to be taken apart. */
  lemma RemoveWhole(family: set<Tree>, pending: set<int>, n: nat, active: seq<bool>, free: seq<int>,
                    deep: seq<seq<int>>, shallow: seq<seq<int>>, outer: seq<int>, t: Tree)
    requires Whole(family, pending, n, active, free, deep, shallow, outer) && t in family
    ensures Whole(family - {t}, pending + Ids(t), n, active, free, deep, shallow, outer)
    ensures pending !! Ids(t) && Shape(t, n) && Outermost(t, deep, shallow, outer)
  {
    Remove(family, pending, active, n, t);
  }

  lemma ReleaseWhole(family: set<Tree>, pending: set<int>, n: nat, active: seq<bool>, free: seq<int>,
                     deep: seq<seq<int>>, shallow: seq<seq<int>>, outer: seq<int>, x: int)
    requires Whole(family, pending, n, active, free, deep, shallow, outer) && x in pending && n <= x < 2 * n
    ensures Whole(family, pending - {x}, n, active[x := false], free + [x], deep, shallow, outer)
  {
    Release(family, pending, active, free, n, x);
  }

  /** Children that still wait keep fitting the arrays when another child is made outermost. */
  lemma OtherKidFits(t: Tree, n: nat, deep: seq<seq<int>>, shallow: seq<seq<int>>, outer: seq<int>, outer': seq<int>,
                     k: nat, j: nat)
    requires Shape(t, n) && k < |t.kids| && j < |t.kids| && j != k && Fits(t.kids[j], deep, shallow, outer)
    requires |outer'| == |outer| && forall x :: 0 <= x < |outer| && x !in Ids(t.kids[k]) ==> outer'[x] == outer[x]
    ensures Fits(t.kids[j], deep, shallow, outer')
  {
    KidShape(t.kids, n, j);
    KidsDisjoint(t.kids, n, k, j);
    FitsFrame(t.kids[j], n, deep, shallow, outer, deep, shallow, outer');
  }

  /** The children of a tree that is taken apart fit the arrays. */
  lemma KidsFit(t: Tree, deep: seq<seq<int>>, shallow: seq<seq<int>>, outer: seq<int>)
    requires Fits(t, deep, shallow, outer)
    ensures |shallow[t.id]| == |t.kids| && forall i :: 0 <= i < |t.kids| ==> shallow[t.id][i] == t.kids[i].id
    ensures forall i :: 0 <= i < |t.kids| ==> Fits(t.kids[i], deep, shallow, outer)
  {
    forall i | 0 <= i < |t.kids|
      ensures Fits(t.kids[i], deep, shallow, outer)
    {
      KidFits(t.kids, t.id, deep, shallow, outer, i);
    }
  }

  lemma KidBounds(t: Tree, n: nat, k: nat)
    requires Shape(t, n) && k < |t.kids|
    ensures Shape(t.kids[k], n) && 0 <= t.kids[k].id < 2 * n && Ids(t.kids[k]) <= Ids(t) && t.kids[k].id in Ids(t)
    ensures forall v :: v in Leaves(t.kids[k]) ==> v in Ids(t.kids[k])
    ensures forall x :: x in Ids(t) ==> 0 <= x < 2 * n
  {
    KidShape(t.kids, n, k);
    KidIds(t.kids, k);
    IdInTree(t.kids[k]);
    forall v | v in Leaves(t.kids[k])
      ensures v in Ids(t.kids[k])
    {
      LeafIffId(t.kids[k], n, v);
    }
    forall x | x in Ids(t)
      ensures 0 <= x < 2 * n
    {
      LeafIffId(t, n, x);
    }
  }

  /** One more child opened. */
  lemma KeptNext(kids: seq<Tree>, k: nat, stops: set<int>)
    requires k < |kids|
    ensures AllKept(kids[..k + 1], stops) == AllKept(kids[..k], stops) + Kept(kids[k], stops)
    ensures AllOpened(kids[..k + 1], stops) == AllOpened(kids[..k], stops) + Opened(kids[k], stops)
  {
    assert kids[..k + 1][..k] == kids[..k];
  }

  /** The children opened so far have none of the numbers of a later child. */
  lemma OpenedBefore(t: Tree, n: nat, k: nat, stops: set<int>)
    requires Shape(t, n) && k < |t.kids|
    ensures AllOpened(t.kids[..k], stops) !! Ids(t.kids[k])
    ensures Opened(t.kids[k], stops) <= Ids(t.kids[k])
  {
    PrefixShape(t.kids, n, k + 1);
    PrefixShape(t.kids, n, k);
    KidShape(t.kids, n, k);
    assert t.kids[..k + 1][..k] == t.kids[..k];
    AllKeptSplits(t.kids[..k], stops, n);
    KeptSplits(t.kids[k], stops, n);
  }

  /** What is left of a family when all its blossoms are opened except those in stops. */
  ghost function KeptOf(family: set<Tree>, stops: set<int>): set<Tree> {
    set t, k | t in family && k in Kept(t, stops) :: k
  }

  lemma {:induction false} KeptStable(t: Tree, stops: set<int>, k: Tree)
    requires k in Kept(t, stops)
    ensures Kept(k, stops) == {k}
    decreases t
  {
    if t.kids != [] && t.id !in stops {
      KeptOfKid(t.kids, stops, k);
      var i :| 0 <= i < |t.kids| && k in Kept(t.kids[i], stops);
      KeptStable(t.kids[i], stops, k);
    }
  }

  /** Opening one tree first makes no difference to what opening everything leaves. */
  lemma KeptOfStep(family: set<Tree>, stops: set<int>, t: Tree)
    requires t in family
    ensures KeptOf(family - {t} + Kept(t, stops), stops) == KeptOf(family, stops)
  {
    var more := family - {t} + Kept(t, stops);
    forall k
      ensures k in KeptOf(more, stops) <==> k in KeptOf(family, stops)
    {
      if k in KeptOf(more, stops) {
        var s :| s in more && k in Kept(s, stops);
        if s in Kept(t, stops) {
          KeptStable(t, stops, s);
          assert t in family && k in Kept(t, stops);
        } else {
          assert s in family && k in Kept(s, stops);
        }
      }
      if k in KeptOf(family, stops) {
        var s :| s in family && k in Kept(s, stops);
        if s == t {
          KeptStable(t, stops, k);
          assert k in more && k in Kept(k, stops);
        } else {
          assert s in more && k in Kept(s, stops);
        }
      }
    }
  }

  lemma KeptOfDone(family: set<Tree>, stops: set<int>)
    requires forall t :: t in family ==> t.kids == [] || t.id in stops
    ensures KeptOf(family, stops) == family
  {
    forall k
      ensures k in KeptOf(family, stops) <==> k in family
    {
      if k in family {
        assert k in Kept(k, stops);
      }
    }
  }

  lemma WholeSizes(family: set<Tree>, pending: set<int>, n: nat, active: seq<bool>, free: seq<int>,
                   deep: seq<seq<int>>, shallow: seq<seq<int>>, outer: seq<int>)
    requires Whole(family, pending, n, active, free, deep, shallow, outer)
    ensures |deep| == 2 * n && |shallow| == 2 * n && |outer| == 2 * n && |active| == 2 * n
  {
  }
}
