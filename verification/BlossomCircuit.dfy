/** The odd circuit that two paths in the alternating forest close, and the blossom it becomes. */
module BlossomCircuit {
  import opened Sequences
  import opened EdgeIndex
  import opened BlossomTree
  import opened BlossomFamily

  const UNLABELED := 0
  const ODD := 1
  const EVEN := 2

  // Edges without slack ------------------------------------------------------------------------------------

  /** x and y are vertices joined by an edge without slack. */
  ghost predicate Tight(slack: seq<real>, n: nat, x: int, y: int) {
    0 <= x < n && 0 <= y < n && |slack| == EdgeCount(n) && IsAdjacent(slack, n, x, y)
  }

  /** Some edge without slack joins the two lists. */
  ghost predicate Linked(slack: seq<real>, n: nat, s: seq<int>, t: seq<int>) {
    exists x, y :: x in s && y in t && Tight(slack, n, x, y)
  }

  lemma LinkedBack(slack: seq<real>, n: nat, s: seq<int>, t: seq<int>)
    requires Linked(slack, n, s, t)
    ensures Linked(slack, n, t, s)
  {
    var x, y :| x in s && y in t && Tight(slack, n, x, y);
    assert Tight(slack, n, y, x);
  }

  /** The next place around a circuit. */
  ghost function After(i: int, length: int): int {
    if i + 1 == length then 0 else i + 1
  }

  /** Neighbours on the circuit are joined by edges without slack, the last to the first. */
  ghost predicate Ring(ks: seq<Tree>, slack: seq<real>, n: nat) {
    forall i :: 0 <= i < |ks| ==>
      0 <= After(i, |ks|) < |ks| && Linked(slack, n, Leaves(ks[i]), Leaves(ks[After(i, |ks|)]))
  }

  /** The circuits of a blossom and of the blossoms inside it have no slack. */
  ghost predicate TightTree(t: Tree, slack: seq<real>, n: nat)
    decreases t
  {
    Ring(t.kids, slack, n) && AllTight(t.kids, slack, n)
  }

  ghost predicate AllTight(ks: seq<Tree>, slack: seq<real>, n: nat)
    decreases ks
  {
    ks == [] || (AllTight(ks[..|ks| - 1], slack, n) && TightTree(ks[|ks| - 1], slack, n))
  }

  lemma {:induction false} KidTight(ks: seq<Tree>, slack: seq<real>, n: nat, i: int)
    requires AllTight(ks, slack, n) && 0 <= i < |ks|
    ensures TightTree(ks[i], slack, n)
  {
    if i < |ks| - 1 {
      KidTight(ks[..|ks| - 1], slack, n, i);
    }
  }

  lemma {:induction false} TightKids(ks: seq<Tree>, slack: seq<real>, n: nat)
    requires forall i :: 0 <= i < |ks| ==> TightTree(ks[i], slack, n)
    ensures AllTight(ks, slack, n)
  {
    if ks != [] {
      TightKids(ks[..|ks| - 1], slack, n);
    }
  }

  ghost predicate TightFamily(family: set<Tree>, slack: seq<real>, n: nat) {
    forall t :: t in family ==> TightTree(t, slack, n)
  }

  // Paths --------------------------------------------------------------------------------------------------

  /** The outermost nodes on the way from path[0] to the root of its tree in the alternating forest. */
  ghost predicate RootPath(path: seq<int>, n: nat, outer: seq<int>, forest: seq<int>) {
    && |outer| == 2 * n && |forest| == 2 * n && path != [] && Distinct(path)
    && (forall i :: 0 <= i < |path| ==> 0 <= path[i] < 2 * n)
    && (forall i :: 0 <= i < |path| - 1 ==> 0 <= forest[path[i]] < n && outer[forest[path[i]]] == path[i + 1])
    && forest[path[|path| - 1]] == -1
  }

  /** Even and odd nodes alternate. */
  ghost predicate Alternates(path: seq<int>, n: nat, kind: seq<int>) {
    |kind| == 2 * n &&
    forall i :: 0 <= i < |path| ==> 0 <= path[i] < 2 * n && kind[path[i]] == if i % 2 == 0 then EVEN else ODD
  }

  /** The two nodes are joined by an edge without slack. */
  ghost predicate Joined(deep: seq<seq<int>>, slack: seq<real>, n: nat, p: int, q: int) {
    0 <= p < |deep| && 0 <= q < |deep| && Linked(slack, n, deep[p], deep[q])
  }

  ghost predicate PathTight(path: seq<int>, deep: seq<seq<int>>, slack: seq<real>, n: nat) {
    forall i :: 0 <= i < |path| - 1 ==> Joined(deep, slack, n, path[i], path[i + 1])
  }

  /** vp meets up first at vp[b] == up[a]. */
  ghost predicate Meets(up: seq<int>, a: int, vp: seq<int>, b: int) {
    0 <= a < |up| && 0 <= b < |vp| && vp[b] == up[a] && forall j :: 0 <= j < b ==> vp[j] !in up
  }

  /** From the tip down to the end of one path and back up the other. */
  ghost function Circuit(up: seq<int>, a: int, vp: seq<int>, b: int): seq<int>
    requires 0 <= a < |up| && 0 <= b < |vp|
  {
    Reversed(up[..a + 1]) + vp[..b]
  }

  /** The circuit is odd, has at least three nodes and none twice. */
  lemma CircuitIsOdd(up: seq<int>, a: int, vp: seq<int>, b: int, n: nat, outer: seq<int>, forest: seq<int>,
                     kind: seq<int>)
    requires RootPath(up, n, outer, forest) && RootPath(vp, n, outer, forest) && up[0] != vp[0]
    requires Alternates(up, n, kind) && Alternates(vp, n, kind) && Meets(up, a, vp, b)
    ensures var c := Circuit(up, a, vp, b); |c| >= 3 && |c| % 2 == 1 && Distinct(c)
    ensures forall i :: 0 <= i < |Circuit(up, a, vp, b)| ==> 0 <= Circuit(up, a, vp, b)[i] < 2 * n
  {
    var c := Circuit(up, a, vp, b);
    assert kind[up[a]] == kind[vp[b]];
    assert a % 2 == b % 2;
    forall i, j | 0 <= i < j < |c|
      ensures c[i] != c[j]
    {
      if i <= a && j > a {
        assert c[i] == up[a - i] && c[j] == vp[j - a - 1];
      } else if j <= a {
        assert c[i] == up[a - i] && c[j] == up[a - j];
      } else {
        assert c[i] == vp[i - a - 1] && c[j] == vp[j - a - 1];
      }
    }
  }

  ghost predicate RingOf(c: seq<int>, deep: seq<seq<int>>, slack: seq<real>, n: nat) {
    forall i :: 0 <= i < |c| ==> 0 <= After(i, |c|) < |c| && Joined(deep, slack, n, c[i], c[After(i, |c|)])
  }

  lemma CircuitAt(up: seq<int>, a: int, vp: seq<int>, b: int, i: int)
    requires 0 <= a < |up| && 0 <= b < |vp| && 0 <= i < a + 1 + b
    ensures |Circuit(up, a, vp, b)| == a + 1 + b
    ensures Circuit(up, a, vp, b)[i] == if i <= a then up[a - i] else vp[i - a - 1]
  {
  }

  lemma JoinedBack(deep: seq<seq<int>>, slack: seq<real>, n: nat, p: int, q: int)
    requires Joined(deep, slack, n, p, q)
    ensures Joined(deep, slack, n, q, p)
  {
    LinkedBack(slack, n, deep[p], deep[q]);
  }

  lemma PathStep(path: seq<int>, deep: seq<seq<int>>, slack: seq<real>, n: nat, i: int)
    requires PathTight(path, deep, slack, n) && 0 <= i < |path| - 1
    ensures Joined(deep, slack, n, path[i], path[i + 1]) && Joined(deep, slack, n, path[i + 1], path[i])
  {
    JoinedBack(deep, slack, n, path[i], path[i + 1]);
  }

  /** All the way around the circuit neighbours are joined by edges without slack. */
  lemma CircuitIsTight(up: seq<int>, a: int, vp: seq<int>, b: int, deep: seq<seq<int>>, slack: seq<real>, n: nat)
    requires up != [] && vp != [] && up[0] != vp[0] && Meets(up, a, vp, b)
    requires PathTight(up, deep, slack, n) && PathTight(vp, deep, slack, n)
    requires Joined(deep, slack, n, up[0], vp[0])
    ensures RingOf(Circuit(up, a, vp, b), deep, slack, n)
  {
    hide Joined, PathTight, Circuit;
    var c := Circuit(up, a, vp, b);
    CircuitAt(up, a, vp, b, 0);
    forall i | 0 <= i < |c|
      ensures 0 <= After(i, |c|) < |c| && Joined(deep, slack, n, c[i], c[After(i, |c|)])
    {
      var k := After(i, |c|);
      CircuitAt(up, a, vp, b, i);
      CircuitAt(up, a, vp, b, k);
      if i < a {
        PathStep(up, deep, slack, n, a - i - 1);
      } else if i > a {
        PathStep(vp, deep, slack, n, i - a - 1);
      }
    }
  }

  // The new blossom ------------------------------------------------------------------------------------------

  ghost predicate HasTree(family: set<Tree>, id: int) {
    exists t :: t in family && t.id == id
  }

  /** The trees with the given numbers. */
  lemma {:induction false} PickTrees(family: set<Tree>, ids: seq<int>) returns (ks: seq<Tree>)
    requires forall i :: 0 <= i < |ids| ==> HasTree(family, ids[i])
    ensures |ks| == |ids| && forall i :: 0 <= i < |ids| ==> ks[i] in family && ks[i].id == ids[i]
  {
    ks := [];
    while |ks| < |ids|
      invariant |ks| <= |ids| && forall i :: 0 <= i < |ks| ==> ks[i] in family && ks[i].id == ids[i]
    {
      assert HasTree(family, ids[|ks|]);
      var t :| t in family && t.id == ids[|ks|];
      ks := ks + [t];
    }
  }

  /** Different trees of the family form a well-shaped list of children. */
  lemma {:induction false} PickedShape(family: set<Tree>, n: nat, ks: seq<Tree>)
    requires Laminar(family, {}, n) && (forall i :: 0 <= i < |ks| ==> ks[i] in family)
    requires forall i, j :: 0 <= i < j < |ks| ==> ks[i] != ks[j]
    ensures AllShape(ks, n)
    ensures forall x :: x in AllIds(ks) <==> exists i :: 0 <= i < |ks| && x in Ids(ks[i])
  {
    if ks != [] {
      var last := |ks| - 1;
      PickedShape(family, n, ks[..last]);
      forall x | x in AllIds(ks[..last])
        ensures x !in Ids(ks[last])
      {
        IdOfKid(ks[..last], x);
      }
      forall x
        ensures x in AllIds(ks) <==> exists i :: 0 <= i < |ks| && x in Ids(ks[i])
      {
        if x in AllIds(ks) {
          IdOfKid(ks, x);
        } else if i :| 0 <= i < |ks| && x in Ids(ks[i]) {
          KidIds(ks, i);
        }
      }
    }
  }

  ghost function Members(ks: seq<Tree>): set<Tree> {
    set k | k in ks
  }

  lemma CoveredMembers(ks: seq<Tree>)
    ensures Covered(Members(ks)) == AllIds(ks)
  {
    forall x
      ensures x in Covered(Members(ks)) <==> x in AllIds(ks)
    {
      if x in AllIds(ks) {
        IdOfKid(ks, x);
        var i :| 0 <= i < |ks| && x in Ids(ks[i]);
        assert ks[i] in Members(ks);
      }
      if x in Covered(Members(ks)) {
        var t :| t in Members(ks) && x in Ids(t);
        var i :| 0 <= i < |ks| && ks[i] == t;
        KidIds(ks, i);
      }
    }
  }

  /** Different trees of the family. */
  ghost predicate Picked(family: set<Tree>, ks: seq<Tree>) {
    (forall i :: 0 <= i < |ks| ==> ks[i] in family) && (forall i, j :: 0 <= i < j < |ks| ==> ks[i] != ks[j])
  }

  /** outer leads to t from the given trees and from their leaves; the rest is unchanged. */
  ghost predicate Led(ks: seq<Tree>, t: int, outer: seq<int>, outer': seq<int>) {
    |outer'| == |outer| &&
    (forall x :: 0 <= x < |outer| ==> outer'[x] == if x in Roots(ks) || x in AllLeaves(ks) then t else outer[x])
  }

  lemma {:induction false} AllFitFrom(ks: seq<Tree>, parent: int, deep: seq<seq<int>>, shallow: seq<seq<int>>,
                                      outer: seq<int>)
    requires forall i :: 0 <= i < |ks| ==>
      Fits(ks[i], deep, shallow, outer) && 0 <= ks[i].id < |outer| && outer[ks[i].id] == parent
    ensures AllFit(ks, parent, deep, shallow, outer)
  {
    if ks != [] {
      AllFitFrom(ks[..|ks| - 1], parent, deep, shallow, outer);
    }
  }

  /** Part of a laminar family covers nothing of the rest. */
  lemma CoveredSplit(family: set<Tree>, part: set<Tree>, n: nat)
    requires Laminar(family, {}, n) && part <= family
    ensures Covered(family - part) !! Covered(part) && Covered(family - part) + Covered(part) == Covered(family)
    ensures Laminar(family - part, {}, n)
  {
    hide Ids, Shape;
    CoveredUnion(family - part, part);
    assert family - part + part == family;
    forall x | x in Covered(family - part)
      ensures x !in Covered(part)
    {
      var s :| s in family - part && x in Ids(s);
    }
  }

  lemma PickedMembers(family: set<Tree>, ks: seq<Tree>, n: nat)
    requires Laminar(family, {}, n) && Picked(family, ks)
    ensures Members(ks) <= family && Covered(Members(ks)) == AllIds(ks) && AllShape(ks, n)
    ensures forall x :: x in AllIds(ks) ==> 0 <= x < 2 * n
    ensures Covered(family - Members(ks)) !! AllIds(ks) && Covered(family - Members(ks)) + AllIds(ks) == Covered(family)
    ensures Laminar(family - Members(ks), {}, n)
  {
    CoveredMembers(ks);
    PickedShape(family, n, ks);
    hide Ids, Shape, Covered, AllIds, AllShape;
    CoveredSplit(family, Members(ks), n);
    forall x | x in AllIds(ks)
      ensures 0 <= x < 2 * n
    {
      AllLeafIffId(ks, n, x);
    }
  }

  /** A tree whose numbers the family does not cover can be adopted. */
  lemma WithPending(family: set<Tree>, pending: set<int>, n: nat)
    requires Laminar(family, {}, n) && Covered(family) !! pending && forall x :: x in pending ==> 0 <= x < 2 * n
    ensures Laminar(family, pending, n)
  {
    hide Ids, Shape, Covered;
    forall t | t in family
      ensures Ids(t) !! pending
    {
      InCovered(family, t);
    }
  }

  /** The family after the contraction. */
  lemma MergeLaminar(family: set<Tree>, n: nat, active: seq<bool>, ks: seq<Tree>, t: int)
    requires Laminar(family, {}, n) && Accounted(family, {}, active, n) && Picked(family, ks)
    requires |ks| >= 3 && |ks| % 2 == 1 && n <= t < 2 * n && !active[t]
    ensures Shape(Tree(t, ks), n) && Laminar(family - Members(ks) + {Tree(t, ks)}, {}, n)
    ensures Accounted(family - Members(ks) + {Tree(t, ks)}, {}, active[t := true], n)
  {
    var tree := Tree(t, ks);
    var rest, pending, active' := family - Members(ks), {t} + AllIds(ks), active[t := true];
    PickedMembers(family, ks, n);
    assert t !in Covered(family);
    hide Covered, AllIds, AllShape, Laminar;
    WithPending(rest, pending, n);
    assert Covered(rest) + pending == Covered(family) + {t};
    Adopt(rest, pending, active', n, tree);
    assert pending - Ids(tree) == {};
  }

  lemma MergeFree(active: seq<bool>, free: seq<int>, n: nat, t: int)
    requires |active| == 2 * n && FreeList(free, active, n) && free != [] && t == free[|free| - 1]
    ensures n <= t < 2 * n && !active[t] && FreeList(free[..|free| - 1], active[t := true], n)
  {
    assert t in free;
    var less := free[..|free| - 1];
    forall i
      ensures i in less <==> n <= i < 2 * n && !active[t := true][i]
    {
      if i in free && i != t {
        var k :| 0 <= k < |free| && free[k] == i;
        assert less[k] == i;
      }
    }
  }

  lemma RootsAndLeavesInIds(ks: seq<Tree>, n: nat, x: int)
    requires AllShape(ks, n) && (x in Roots(ks) || x in AllLeaves(ks))
    ensures x in AllIds(ks)
  {
    if x in Roots(ks) {
      var i :| 0 <= i < |ks| && ks[i].id == x;
      IdInTree(ks[i]);
      KidIds(ks, i);
    } else {
      AllLeafIffId(ks, n, x);
    }
  }

  /** Nested blossoms are not led anew. */
  lemma NestedNotLed(ks: seq<Tree>, n: nat, i: int, x: int)
    requires AllShape(ks, n) && 0 <= i < |ks| && x in Ids(ks[i]) && x >= n && x != ks[i].id
    ensures x !in Roots(ks) && x !in AllLeaves(ks)
  {
    AllLeafIffId(ks, n, x);
    forall j | 0 <= j < |ks|
      ensures ks[j].id != x
    {
      IdInTree(ks[j]);
      if j != i {
        KidsDisjoint(ks, n, i, j);
      }
    }
  }

  lemma ChildFits(n: nat, deep: seq<seq<int>>, shallow: seq<seq<int>>, outer: seq<int>, ks: seq<Tree>, t: int,
                  outer': seq<int>, i: int)
    requires AllShape(ks, n) && 0 <= i < |ks| && Fits(ks[i], deep, shallow, outer) && Led(ks, t, outer, outer')
    requires |deep| == 2 * n && |shallow| == 2 * n && |outer| == 2 * n && n <= t < 2 * n && t !in AllIds(ks)
    ensures Fits(ks[i], deep[t := AllLeaves(ks)], shallow[t := Roots(ks)], outer'[t := t])
    ensures 0 <= ks[i].id < 2 * n && outer'[t := t][ks[i].id] == t
  {
    var kid := ks[i];
    KidShape(ks, n, i);
    KidIds(ks, i);
    IdInTree(kid);
    LeafIffId(kid, n, kid.id);
    assert Roots(ks)[i] == kid.id;
    forall x | x in Ids(kid) && n <= x < 2 * n && x != kid.id
      ensures outer'[t := t][x] == outer[x]
    {
      NestedNotLed(ks, n, i, x);
    }
    hide Ids, AllIds, AllShape, Shape, Fits, AllLeaves, Roots;
    FitsFrame(kid, n, deep, shallow, outer, deep[t := AllLeaves(ks)], shallow[t := Roots(ks)], outer'[t := t]);
  }

  lemma LedAt(ks: seq<Tree>, t: int, outer: seq<int>, outer': seq<int>, x: int)
    requires Led(ks, t, outer, outer') && 0 <= x < |outer|
    ensures |outer'| == |outer|
    ensures x in Roots(ks) || x in AllLeaves(ks) ==> outer'[x] == t
    ensures x !in Roots(ks) && x !in AllLeaves(ks) ==> outer'[x] == outer[x]
  {
  }

  lemma LedSize(ks: seq<Tree>, t: int, outer: seq<int>, outer': seq<int>)
    requires Led(ks, t, outer, outer')
    ensures |outer'| == |outer|
  {
  }

  lemma NewTreeFits(n: nat, deep: seq<seq<int>>, shallow: seq<seq<int>>, outer: seq<int>, ks: seq<Tree>, t: int,
                    outer': seq<int>)
    requires AllShape(ks, n) && Led(ks, t, outer, outer') && ks != []
    requires forall i :: 0 <= i < |ks| ==> Fits(ks[i], deep, shallow, outer)
    requires |deep| == 2 * n && |shallow| == 2 * n && |outer| == 2 * n && n <= t < 2 * n && t !in AllIds(ks)
    ensures Outermost(Tree(t, ks), deep[t := AllLeaves(ks)], shallow[t := Roots(ks)], outer'[t := t])
  {
    hide *;
    LedSize(ks, t, outer, outer');
    var deep', shallow', outer'' := deep[t := AllLeaves(ks)], shallow[t := Roots(ks)], outer'[t := t];
    forall i | 0 <= i < |ks|
      ensures Fits(ks[i], deep', shallow', outer'') && 0 <= ks[i].id < |outer''| && outer''[ks[i].id] == t
    {
      ChildFits(n, deep, shallow, outer, ks, t, outer', i);
    }
    AllFitFrom(ks, t, deep', shallow', outer'');
    forall v | v in AllLeaves(ks)
      ensures 0 <= v < |outer''| && outer''[v] == t
    {
      AllLeafIffId(ks, n, v);
      LedAt(ks, t, outer, outer', v);
    }
    NewTreeOf(deep', shallow', outer'', ks, t);
  }

  lemma NewTreeOf(deep: seq<seq<int>>, shallow: seq<seq<int>>, outer: seq<int>, ks: seq<Tree>, t: int)
    requires 0 <= t < |deep| && t < |shallow| && t < |outer| && ks != []
    requires deep[t] == AllLeaves(ks) && shallow[t] == Roots(ks) && outer[t] == t && AllFit(ks, t, deep, shallow, outer)
    requires forall v :: v in AllLeaves(ks) ==> 0 <= v < |outer| && outer[v] == t
    ensures Outermost(Tree(t, ks), deep, shallow, outer)
  {
  }

  lemma PickedFits(family: set<Tree>, deep: seq<seq<int>>, shallow: seq<seq<int>>, outer: seq<int>, ks: seq<Tree>)
    requires Arrays(family, deep, shallow, outer) && Picked(family, ks)
    ensures forall i :: 0 <= i < |ks| ==> Fits(ks[i], deep, shallow, outer)
  {
    hide Fits;
    forall i | 0 <= i < |ks|
      ensures Fits(ks[i], deep, shallow, outer)
    {
      assert Outermost(ks[i], deep, shallow, outer);
    }
  }

  lemma ArraysPlus(family: set<Tree>, t: Tree, deep: seq<seq<int>>, shallow: seq<seq<int>>, outer: seq<int>)
    requires Arrays(family, deep, shallow, outer) && Outermost(t, deep, shallow, outer)
    ensures Arrays(family + {t}, deep, shallow, outer)
  {
    hide Outermost;
  }

  lemma ArraysLess(family: set<Tree>, less: set<Tree>, deep: seq<seq<int>>, shallow: seq<seq<int>>, outer: seq<int>)
    requires Arrays(family, deep, shallow, outer)
    ensures Arrays(family - less, deep, shallow, outer)
  {
    hide Outermost;
  }

  lemma MergeArrays(family: set<Tree>, n: nat, deep: seq<seq<int>>, shallow: seq<seq<int>>, outer: seq<int>,
                    ks: seq<Tree>, t: int, outer': seq<int>)
    requires Laminar(family, {}, n) && Arrays(family, deep, shallow, outer) && Picked(family, ks) && ks != []
    requires |deep| == 2 * n && |shallow| == 2 * n && |outer| == 2 * n
    requires n <= t < 2 * n && t !in Covered(family) && Led(ks, t, outer, outer')
    ensures |outer'| == 2 * n
    ensures Arrays(family - Members(ks) + {Tree(t, ks)}, deep[t := AllLeaves(ks)], shallow[t := Roots(ks)],
      outer'[t := t])
  {
    hide *;
    LedSize(ks, t, outer, outer');
    var deep', shallow', outer'' := deep[t := AllLeaves(ks)], shallow[t := Roots(ks)], outer'[t := t];
    PickedMembers(family, ks, n);
    PickedFits(family, deep, shallow, outer, ks);
    var rest := family - Members(ks);
    RestNotLed(rest, ks, n, t, outer, outer');
    ArraysLess(family, Members(ks), deep, shallow, outer);
    ArraysFrame(rest, {}, n, deep, shallow, outer, deep', shallow', outer'');
    NewTreeFits(n, deep, shallow, outer, ks, t, outer');
    ArraysPlus(rest, Tree(t, ks), deep', shallow', outer'');
  }

  /** The arrays after the contraction describe the new family. */
  lemma MergeWhole(family: set<Tree>, n: nat, active: seq<bool>, free: seq<int>, deep: seq<seq<int>>,
                   shallow: seq<seq<int>>, outer: seq<int>,
                   ks: seq<Tree>, t: int, outer': seq<int>)
    requires Whole(family, {}, n, active, free, deep, shallow, outer) && Picked(family, ks)
    requires |ks| >= 3 && |ks| % 2 == 1 && free != [] && t == free[|free| - 1] && Led(ks, t, outer, outer')
    ensures n <= t < 2 * n && |outer'| == 2 * n
    ensures Whole(family - Members(ks) + {Tree(t, ks)}, {}, n, active[t := true], free[..|free| - 1],
      deep[t := AllLeaves(ks)], shallow[t := Roots(ks)], outer'[t := t])
  {
    MergeFree(active, free, n, t);
    MergeLaminar(family, n, active, ks, t);
    NotCovered(family, n, active, t);
    hide Ids, AllIds, AllShape, Shape, AllLeaves, Roots, Fits, Covered, Laminar, Accounted, FreeList, Led, Picked,
      Arrays, Members;
    MergeArrays(family, n, deep, shallow, outer, ks, t, outer');
  }

  lemma NotCovered(family: set<Tree>, n: nat, active: seq<bool>, t: int)
    requires Accounted(family, {}, active, n) && 0 <= t < 2 * n && !active[t]
    ensures t !in Covered(family)
  {
  }

  lemma RestNotLed(rest: set<Tree>, ks: seq<Tree>, n: nat, t: int, outer: seq<int>, outer': seq<int>)
    requires AllShape(ks, n) && Covered(rest) !! AllIds(ks) && t !in Covered(rest) && Led(ks, t, outer, outer')
    requires 0 <= t < |outer|
    ensures |outer'| == |outer|
    ensures forall x :: x in Covered(rest) ==> x != t && (0 <= x < |outer| ==> outer'[t := t][x] == outer[x])
  {
    hide *;
    LedSize(ks, t, outer, outer');
    forall x | x in Covered(rest)
      ensures x != t && (0 <= x < |outer| ==> outer'[t := t][x] == outer[x])
    {
      if x in Roots(ks) || x in AllLeaves(ks) {
        RootsAndLeavesInIds(ks, n, x);
      } else if 0 <= x < |outer| {
        LedAt(ks, t, outer, outer', x);
      }
    }
  }

  /** The circuit of the new blossom has no slack. */
  lemma NewTreeTight(ks: seq<Tree>, t: int, c: seq<int>, deep: seq<seq<int>>, slack: seq<real>, n: nat)
    requires |ks| == |c| && (forall i :: 0 <= i < |ks| ==> 0 <= c[i] < |deep| && deep[c[i]] == Leaves(ks[i]))
    requires RingOf(c, deep, slack, n) && forall i :: 0 <= i < |ks| ==> TightTree(ks[i], slack, n)
    ensures TightTree(Tree(t, ks), slack, n)
  {
    TightKids(ks, slack, n);
  }
}
