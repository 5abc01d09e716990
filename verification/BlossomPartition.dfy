/** What the structure of blossoms says about the arrays themselves. */
module BlossomPartition {
  import opened BlossomTree
  import opened BlossomFamily

  /** outer of a nested blossom is the blossom around it, never itself. */
  lemma {:induction false} NestedOuter(t: Tree, n: nat, deep: seq<seq<int>>, shallow: seq<seq<int>>, outer: seq<int>,
                                       x: int)
    requires Shape(t, n) && Fits(t, deep, shallow, outer) && x in AllIds(t.kids) && x >= n
    ensures x < |outer| && outer[x] in Ids(t) && outer[x] != x
    decreases t
  {
    IdOfKid(t.kids, x);
    var i :| 0 <= i < |t.kids| && x in Ids(t.kids[i]);
    KidShape(t.kids, n, i);
    KidFits(t.kids, t.id, deep, shallow, outer, i);
    KidIds(t.kids, i);
    if x != t.kids[i].id {
      NestedOuter(t.kids[i], n, deep, shallow, outer, x);
    }
  }

  /** An active blossom that leads to itself is outermost. */
  lemma OutermostTree(family: set<Tree>, pending: set<int>, n: nat, active: seq<bool>, free: seq<int>,
                      deep: seq<seq<int>>, shallow: seq<seq<int>>, outer: seq<int>, r: int) returns (t: Tree)
    requires Whole(family, pending, n, active, free, deep, shallow, outer) && n <= r < 2 * n
    requires active[r] && r !in pending && outer[r] == r
    ensures t in family && t.id == r
  {
    assert r in Covered(family);
    t :| t in family && r in Ids(t);
    if r != t.id {
      NestedOuter(t, n, deep, shallow, outer, r);
    }
  }

  /** Every vertex lies in the deep list of the outermost node it leads to. */
  lemma VertexTree(family: set<Tree>, n: nat, active: seq<bool>, free: seq<int>,
                   deep: seq<seq<int>>, shallow: seq<seq<int>>, outer: seq<int>, v: int) returns (t: Tree)
    requires Whole(family, {}, n, active, free, deep, shallow, outer) && 0 <= v < n
    ensures t in family && v in Leaves(t) && outer[v] == t.id && 0 <= t.id < 2 * n && deep[t.id] == Leaves(t)
    ensures outer[t.id] == t.id
    ensures v in deep[outer[v]] && active[outer[v]]
  {
    assert active[v] && v in Covered(family);
    t :| t in family && v in Ids(t);
    LeafIffId(t, n, v);
    assert Outermost(t, deep, shallow, outer);
    IdInTree(t);
    InCovered(family, t);
  }

  /** Membership in an outermost deep list is the same as leading to its number. */
  lemma DeepIffOuter(family: set<Tree>, n: nat, active: seq<bool>, free: seq<int>,
                     deep: seq<seq<int>>, shallow: seq<seq<int>>, outer: seq<int>, t: Tree, v: int)
    requires Whole(family, {}, n, active, free, deep, shallow, outer) && t in family && 0 <= v < n
    ensures 0 <= t.id < 2 * n && (v in deep[t.id] <==> outer[v] == t.id)
  {
    assert Outermost(t, deep, shallow, outer);
    var s := VertexTree(family, n, active, free, deep, shallow, outer, v);
    IdInTree(s);
    IdInTree(t);
  }

  /** The outermost deep lists split the vertices: each vertex is in exactly one, and once. */
  lemma DeepPartition(family: set<Tree>, n: nat, active: seq<bool>, free: seq<int>,
                      deep: seq<seq<int>>, shallow: seq<seq<int>>, outer: seq<int>, v: int, r: int)
    requires Whole(family, {}, n, active, free, deep, shallow, outer) && 0 <= v < n
    requires 0 <= r < 2 * n && active[r] && outer[r] == r
    ensures v in deep[r] <==> outer[v] == r
    ensures Distinct(deep[r]) && |deep[r]| % 2 == 1 && forall x :: x in deep[r] ==> 0 <= x < n
  {
    var t: Tree;
    if r < n {
      t := VertexTree(family, n, active, free, deep, shallow, outer, r);
    } else {
      t := OutermostTree(family, {}, n, active, free, deep, shallow, outer, r);
    }
    DeepIffOuter(family, n, active, free, deep, shallow, outer, t, v);
    assert Outermost(t, deep, shallow, outer);
    LeavesDistinct(t, n);
    LeavesInArray(t, n);
  }

  /** Every active number has its node, with an odd circuit of at least three if it is a blossom. */
  lemma {:induction false} NodeFits(t: Tree, n: nat, deep: seq<seq<int>>, shallow: seq<seq<int>>, outer: seq<int>,
                                    x: int)
    requires Shape(t, n) && Fits(t, deep, shallow, outer) && x in Ids(t)
    ensures 0 <= x < |deep| && x < |shallow| && Distinct(deep[x]) && |deep[x]| % 2 == 1
    ensures forall y :: y in deep[x] ==> 0 <= y < n
    ensures x >= n ==> |shallow[x]| >= 3 && |shallow[x]| % 2 == 1
    ensures x < n ==> deep[x] == [x]
    decreases t
  {
    LeavesDistinct(t, n);
    LeavesInArray(t, n);
    if x != t.id {
      IdOfKid(t.kids, x);
      var i :| 0 <= i < |t.kids| && x in Ids(t.kids[i]);
      KidShape(t.kids, n, i);
      KidFits(t.kids, t.id, deep, shallow, outer, i);
      NodeFits(t.kids[i], n, deep, shallow, outer, x);
    }
  }

  lemma ActiveNode(family: set<Tree>, n: nat, active: seq<bool>, free: seq<int>,
                   deep: seq<seq<int>>, shallow: seq<seq<int>>, outer: seq<int>, x: int)
    requires Whole(family, {}, n, active, free, deep, shallow, outer) && 0 <= x < 2 * n && active[x]
    ensures Distinct(deep[x]) && |deep[x]| % 2 == 1 && (forall y :: y in deep[x] ==> 0 <= y < n)
    ensures x >= n ==> |shallow[x]| >= 3 && |shallow[x]| % 2 == 1 && x !in free
    ensures x < n ==> deep[x] == [x]
  {
    assert x in Covered(family);
    var t :| t in family && x in Ids(t);
    assert Outermost(t, deep, shallow, outer);
    NodeFits(t, n, deep, shallow, outer, x);
  }

  /** What is kept of an opened tree is a vertex or a node at which opening stops. */
  lemma {:induction false} KeptStops(t: Tree, stops: set<int>, n: nat, k: Tree)
    requires Shape(t, n) && k in Kept(t, stops)
    ensures k.id < n || k.id in stops
    decreases t
  {
    if t.kids != [] && t.id !in stops {
      KeptOfKid(t.kids, stops, k);
      var i :| 0 <= i < |t.kids| && k in Kept(t.kids[i], stops);
      KidShape(t.kids, n, i);
      KeptStops(t.kids[i], stops, n, k);
    }
  }
}
