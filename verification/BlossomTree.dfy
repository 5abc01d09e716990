/** Nested blossoms as trees: the leaves are the original vertices. */
module BlossomTree {

  /** A vertex without children, or a blossom with its odd circuit. */
  datatype Tree = Tree(id: int, kids: seq<Tree>)

  function Leaves(t: Tree): seq<int>
    decreases t
  {
    if t.kids == [] then [t.id] else AllLeaves(t.kids)
  }

  function AllLeaves(ks: seq<Tree>): seq<int>
    decreases ks
  {
    if ks == [] then [] else AllLeaves(ks[..|ks| - 1]) + Leaves(ks[|ks| - 1])
  }

  function Ids(t: Tree): set<int>
    decreases t
  {
    {t.id} + AllIds(t.kids)
  }

  function AllIds(ks: seq<Tree>): set<int>
    decreases ks
  {
    if ks == [] then {} else AllIds(ks[..|ks| - 1]) + Ids(ks[|ks| - 1])
  }

  function Roots(ks: seq<Tree>): (r: seq<int>)
    ensures |r| == |ks| && forall i :: 0 <= i < |ks| ==> r[i] == ks[i].id
  {
    seq(|ks|, i requires 0 <= i < |ks| => ks[i].id)
  }

  /** Vertices are numbered below n, blossoms from n on; circuits are odd and no number occurs twice. */
  ghost predicate Shape(t: Tree, n: nat)
    decreases t
  {
    && 0 <= t.id < 2 * n
    && (t.kids == [] <==> t.id < n)
    && (t.kids != [] ==> |t.kids| >= 3 && |t.kids| % 2 == 1)
    && t.id !in AllIds(t.kids)
    && AllShape(t.kids, n)
  }

  ghost predicate AllShape(ks: seq<Tree>, n: nat)
    decreases ks
  {
    ks == [] ||
    (AllShape(ks[..|ks| - 1], n) && Shape(ks[|ks| - 1], n) && AllIds(ks[..|ks| - 1]) !! Ids(ks[|ks| - 1]))
  }

  // Members ------------------------------------------------------------------------------------------

  lemma {:induction false} KidIds(ks: seq<Tree>, i: int)
    requires 0 <= i < |ks|
    ensures Ids(ks[i]) <= AllIds(ks)
  {
    if i < |ks| - 1 {
      KidIds(ks[..|ks| - 1], i);
    }
  }

  lemma {:induction false} IdOfKid(ks: seq<Tree>, x: int)
    requires x in AllIds(ks)
    ensures exists i :: 0 <= i < |ks| && x in Ids(ks[i])
  {
    if x !in Ids(ks[|ks| - 1]) {
      IdOfKid(ks[..|ks| - 1], x);
      var i :| 0 <= i < |ks| - 1 && x in Ids(ks[..|ks| - 1][i]);
      assert x in Ids(ks[i]);
    }
  }

  lemma {:induction false} KidLeaves(ks: seq<Tree>, i: int)
    requires 0 <= i < |ks|
    ensures forall x :: x in Leaves(ks[i]) ==> x in AllLeaves(ks)
  {
    if i < |ks| - 1 {
      KidLeaves(ks[..|ks| - 1], i);
    }
  }

  lemma {:induction false} LeafOfKid(ks: seq<Tree>, x: int)
    requires x in AllLeaves(ks)
    ensures exists i :: 0 <= i < |ks| && x in Leaves(ks[i])
  {
    if x !in Leaves(ks[|ks| - 1]) {
      LeafOfKid(ks[..|ks| - 1], x);
      var i :| 0 <= i < |ks| - 1 && x in Leaves(ks[..|ks| - 1][i]);
      assert x in Leaves(ks[i]);
    }
  }

  lemma {:induction false} KidShape(ks: seq<Tree>, n: nat, i: int)
    requires AllShape(ks, n) && 0 <= i < |ks|
    ensures Shape(ks[i], n)
  {
    if i < |ks| - 1 {
      KidShape(ks[..|ks| - 1], n, i);
    }
  }

  lemma {:induction false} PrefixShape(ks: seq<Tree>, n: nat, i: int)
    requires AllShape(ks, n) && 0 <= i <= |ks|
    ensures AllShape(ks[..i], n)
  {
    if i < |ks| {
      PrefixShape(ks[..|ks| - 1], n, i);
      assert ks[..|ks| - 1][..i] == ks[..i];
    } else {
      assert ks[..i] == ks;
    }
  }

  /** Different children share no number. */
  lemma {:induction false} KidsDisjoint(ks: seq<Tree>, n: nat, i: int, j: int)
    requires AllShape(ks, n) && 0 <= i < |ks| && 0 <= j < |ks| && i != j
    ensures Ids(ks[i]) !! Ids(ks[j])
  {
    var last := |ks| - 1;
    if i == last {
      KidIds(ks[..last], j);
    } else if j == last {
      KidIds(ks[..last], i);
    } else {
      KidsDisjoint(ks[..last], n, i, j);
    }
  }

  /** The leaves are the numbers below n, each once. */
  lemma {:induction false} LeafIffId(t: Tree, n: nat, x: int)
    requires Shape(t, n)
    ensures x in Leaves(t) <==> x in Ids(t) && x < n
    ensures x in Ids(t) ==> 0 <= x < 2 * n
    decreases t
  {
    if t.kids != [] {
      AllLeafIffId(t.kids, n, x);
    }
  }

  lemma {:induction false} AllLeafIffId(ks: seq<Tree>, n: nat, x: int)
    requires AllShape(ks, n)
    ensures x in AllLeaves(ks) <==> x in AllIds(ks) && x < n
    ensures x in AllIds(ks) ==> 0 <= x < 2 * n
    decreases ks
  {
    if ks != [] {
      AllLeafIffId(ks[..|ks| - 1], n, x);
      LeafIffId(ks[|ks| - 1], n, x);
    }
  }

  ghost predicate Distinct(s: seq<int>) {
    forall i, j :: 0 <= i < j < |s| ==> s[i] != s[j]
  }

  lemma {:induction false} LeavesDistinct(t: Tree, n: nat)
    requires Shape(t, n)
    ensures Distinct(Leaves(t)) && |Leaves(t)| % 2 == 1
    decreases t
  {
    if t.kids != [] {
      AllLeavesDistinct(t.kids, n);
    }
  }

  lemma {:induction false} AllLeavesDistinct(ks: seq<Tree>, n: nat)
    requires AllShape(ks, n)
    ensures Distinct(AllLeaves(ks)) && |AllLeaves(ks)| % 2 == |ks| % 2
    decreases ks
  {
    if ks != [] {
      var last := |ks| - 1;
      AllLeavesDistinct(ks[..last], n);
      LeavesDistinct(ks[last], n);
      var front, back := AllLeaves(ks[..last]), Leaves(ks[last]);
      forall i, j | 0 <= i < |front| && 0 <= j < |back|
        ensures front[i] != back[j]
      {
        AllLeafIffId(ks[..last], n, front[i]);
        LeafIffId(ks[last], n, back[j]);
      }
    }
  }

  // Counting -----------------------------------------------------------------------------------------

  /** The blossoms among the numbers of a tree. */
  ghost function Blossoms(s: set<int>, n: nat): set<int> {
    set x | x in s && x >= n
  }

  /** A laminar family with odd circuits of three or more has at most half as many blossoms as vertices. */
  lemma {:induction false} FewBlossoms(t: Tree, n: nat)
    requires Shape(t, n)
    ensures 2 * |Blossoms(Ids(t), n)| + 1 <= |Leaves(t)|
    decreases t
  {
    if t.kids == [] {
      assert Blossoms(Ids(t), n) == {};
    } else {
      AllFewBlossoms(t.kids, n);
      assert Blossoms(Ids(t), n) == Blossoms(AllIds(t.kids), n) + {t.id};
    }
  }

  lemma {:induction false} AllFewBlossoms(ks: seq<Tree>, n: nat)
    requires AllShape(ks, n)
    ensures 2 * |Blossoms(AllIds(ks), n)| + |ks| <= |AllLeaves(ks)|
    decreases ks
  {
    if ks == [] {
      assert Blossoms(AllIds(ks), n) == {};
    } else {
      var last := |ks| - 1;
      AllFewBlossoms(ks[..last], n);
      FewBlossoms(ks[last], n);
      assert Blossoms(AllIds(ks), n) == Blossoms(AllIds(ks[..last]), n) + Blossoms(Ids(ks[last]), n);
    }
  }

  // The arrays ---------------------------------------------------------------------------------------

  /** The arrays describe the tree: deep lists the leaves and shallow the circuit of every node, and outer
      leads from a nested blossom to the blossom around it. */
  ghost predicate Fits(t: Tree, deep: seq<seq<int>>, shallow: seq<seq<int>>, outer: seq<int>)
    decreases t
  {
    && 0 <= t.id < |deep| && t.id < |shallow| && t.id < |outer|
    && deep[t.id] == Leaves(t) && shallow[t.id] == Roots(t.kids)
    && AllFit(t.kids, t.id, deep, shallow, outer)
  }

  ghost predicate AllFit(ks: seq<Tree>, parent: int, deep: seq<seq<int>>, shallow: seq<seq<int>>, outer: seq<int>)
    decreases ks
  {
    ks == [] ||
    (var last := ks[|ks| - 1];
     AllFit(ks[..|ks| - 1], parent, deep, shallow, outer) && Fits(last, deep, shallow, outer) &&
     (last.kids != [] ==> outer[last.id] == parent))
  }

  /** The tree is outermost: it and all its leaves lead to it. */
  ghost predicate Outermost(t: Tree, deep: seq<seq<int>>, shallow: seq<seq<int>>, outer: seq<int>) {
    Fits(t, deep, shallow, outer) && outer[t.id] == t.id &&
    forall v :: v in Leaves(t) ==> 0 <= v < |outer| && outer[v] == t.id
  }

  lemma {:induction false} KidFits(ks: seq<Tree>, parent: int, deep: seq<seq<int>>, shallow: seq<seq<int>>,
                                   outer: seq<int>, i: int)
    requires AllFit(ks, parent, deep, shallow, outer) && 0 <= i < |ks|
    ensures Fits(ks[i], deep, shallow, outer) && (ks[i].kids != [] ==> outer[ks[i].id] == parent)
  {
    if i < |ks| - 1 {
      KidFits(ks[..|ks| - 1], parent, deep, shallow, outer, i);
    }
  }

  /** The same arrays on the numbers of the tree, except outer of the leaves and of the root. */
  ghost predicate SameOn(s: set<int>, n: nat, top: int, deep: seq<seq<int>>, shallow: seq<seq<int>>, outer: seq<int>,
                         deep': seq<seq<int>>, shallow': seq<seq<int>>, outer': seq<int>)
  {
    && |deep'| == |deep| && |shallow'| == |shallow| && |outer'| == |outer|
    && (forall x :: x in s && 0 <= x < |deep| ==> deep'[x] == deep[x])
    && (forall x :: x in s && 0 <= x < |shallow| ==> shallow'[x] == shallow[x])
    && (forall x :: x in s && n <= x < |outer| && x != top ==> outer'[x] == outer[x])
  }

  lemma {:induction false} FitsFrame(t: Tree, n: nat, deep: seq<seq<int>>, shallow: seq<seq<int>>, outer: seq<int>,
                                     deep': seq<seq<int>>, shallow': seq<seq<int>>, outer': seq<int>)
    requires Shape(t, n) && Fits(t, deep, shallow, outer)
    requires SameOn(Ids(t), n, t.id, deep, shallow, outer, deep', shallow', outer')
    ensures Fits(t, deep', shallow', outer')
    decreases t
  {
    AllFitFrame(t.kids, t.id, n, deep, shallow, outer, deep', shallow', outer');
  }

  lemma {:induction false} AllFitFrame(ks: seq<Tree>, parent: int, n: nat, deep: seq<seq<int>>, shallow: seq<seq<int>>,
                                       outer: seq<int>,
                                       deep': seq<seq<int>>, shallow': seq<seq<int>>, outer': seq<int>)
    requires AllShape(ks, n) && AllFit(ks, parent, deep, shallow, outer) && parent !in AllIds(ks)
    requires SameOn(AllIds(ks), n, parent, deep, shallow, outer, deep', shallow', outer')
    ensures AllFit(ks, parent, deep', shallow', outer')
    decreases ks
  {
    if ks != [] {
      var last := |ks| - 1;
      AllFitFrame(ks[..last], parent, n, deep, shallow, outer, deep', shallow', outer');
      FitsFrame(ks[last], n, deep, shallow, outer, deep', shallow', outer');
      assert ks[last].id in Ids(ks[last]);
    }
  }
}
