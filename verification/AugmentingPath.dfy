/** Two climbs to different roots, joined by an edge: the path along which the matching is turned. */
module AugmentingPath {
  import opened BlossomTree
  import opened BlossomFamily
  import opened BlossomPartition
  import opened BlossomCircuit
  import opened BlossomMates
  import opened MatchingFacts
  import opened BlossomExpand
  import opened BlossomUnblock
  import opened BlossomRetrieve
  import opened MatchingStart
  import opened FreshBlossoms
  import opened Augmentation
  import opened AlternatingForest
  import opened ForestContraction

  /** The trees with numbers in the list. */
  ghost function TreesOf(family: set<Tree>, ids: seq<int>): set<Tree> {
    set t | t in family && t.id in ids
  }

  lemma TreesIn(family: set<Tree>, ids: seq<int>)
    ensures TreesOf(family, ids) <= family
  {
  }

  lemma IsTreeOf(family: set<Tree>, ids: seq<int>, t: Tree)
    requires t in family
    ensures t in TreesOf(family, ids) <==> t.id in ids
  {
  }

  lemma TwoMore(family: set<Tree>, n: nat, ids: seq<int>, more: seq<int>, s: Tree, t: Tree)
    requires Laminar(family, {}, n) && s in family && t in family
    requires forall x :: x in more <==> x in ids || x == s.id || x == t.id
    ensures TreesOf(family, more) == TreesOf(family, ids) + {s, t}
  {
    hide Laminar;
    forall k
      ensures k in TreesOf(family, more) <==> k in TreesOf(family, ids) + {s, t}
    {
      if k in family && k.id == s.id {
        SameId(family, n, k, s);
      }
      if k in family && k.id == t.id {
        SameId(family, n, k, t);
      }
    }
  }

  lemma NoTrees(family: set<Tree>)
    ensures TreesOf(family, []) == {}
  {
  }

  // Both climbs ---------------------------------------------------------------------------------------------------

  /** Two climbs of outermost trees without a common node. */
  ghost predicate Augmenting(family: set<Tree>, n: nat, outer: seq<int>, forest: seq<int>, kind: seq<int>,
                             mate: seq<int>,
                             deep: seq<seq<int>>, slack: seq<real>, up: seq<int>, vp: seq<int>)
  {
    && HalfWay(family, n, outer, forest, kind, mate, deep, slack, up) && HalfWay(family, n, outer, forest, kind, mate,
      deep, slack, vp)
    && (forall i, j :: 0 <= i < |up| && 0 <= j < |vp| ==> up[i] != vp[j]) && Joined(deep, slack, n, up[0], vp[0])
  }

  /** A climb of outermost trees that ends at an even place. */
  ghost predicate HalfWay(family: set<Tree>, n: nat, outer: seq<int>, forest: seq<int>, kind: seq<int>, mate: seq<int>,
                          deep: seq<seq<int>>, slack: seq<real>, path: seq<int>)
  {
    && RootPath(path, n, outer, forest) && PathTight(path, deep, slack, n) && Coupled(path, n, outer,
      mate) && AllTrees(family, path)
    && |path| % 2 == 1 && mate[path[|path| - 1]] == -1
  }

  lemma HalfParts(family: set<Tree>, n: nat, outer: seq<int>, forest: seq<int>, kind: seq<int>, mate: seq<int>,
                  deep: seq<seq<int>>, slack: seq<real>, path: seq<int>)
    requires HalfWay(family, n, outer, forest, kind, mate, deep, slack, path)
    ensures RootPath(path, n, outer, forest) && PathTight(path, deep, slack, n) && Coupled(path, n, outer, mate)
    ensures AllTrees(family, path)
    ensures |path| % 2 == 1 && |mate| == 2 * n && 0 <= path[|path| - 1] < 2 * n && mate[path[|path| - 1]] == -1
  {
  }

  lemma AugmentingParts(family: set<Tree>, n: nat, outer: seq<int>, forest: seq<int>, kind: seq<int>, mate: seq<int>,
                        deep: seq<seq<int>>, slack: seq<real>, up: seq<int>, vp: seq<int>)
    requires Augmenting(family, n, outer, forest, kind, mate, deep, slack, up, vp)
    ensures HalfWay(family, n, outer, forest, kind, mate, deep, slack, up)
    ensures HalfWay(family, n, outer, forest, kind, mate, deep, slack, vp)
    ensures (forall i, j :: 0 <= i < |up| && 0 <= j < |vp| ==> up[i] != vp[j])
    ensures up != [] && vp != [] && Joined(deep, slack, n, up[0], vp[0])
  {
  }

  /** A climb ends at an even place, because its end is unmatched. */
  lemma ClimbIsHalf(family: set<Tree>, n: nat, active: seq<bool>, free: seq<int>, deep: seq<seq<int>>,
                    shallow: seq<seq<int>>, outer: seq<int>,
                    forest: seq<int>, kind: seq<int>, root: seq<int>, mate: seq<int>, slack: seq<real>, path: seq<int>,
                    t: Tree)
    requires Whole(family, {}, n, active, free, deep, shallow, outer) && Labelling(family, n, outer, kind, root, mate)
    requires t in family
    requires Climbs(path, t.id, n, outer, forest, kind, root, mate, deep, slack)
    ensures HalfWay(family, n, outer, forest, kind, mate, deep, slack, path)
  {
    hide *;
    SortsDiffer();
    ClimbParts(path, t.id, n, outer, forest, kind, root, mate, deep, slack);
    HasTreeBy(family, t);
    ClimbTrees(family, n, active, free, deep, shallow, outer, forest, path);
    var last := |path| - 1;
    TreeOn(family, path, last);
    var r := PickTree(family, path[last]);
    LabelAt(path, n, kind, last);
    LabelFacts(family, n, outer, kind, root, mate, r);
    MakeHalf(family, n, outer, forest, kind, mate, deep, slack, path);
  }

  lemma MakeHalf(family: set<Tree>, n: nat, outer: seq<int>, forest: seq<int>, kind: seq<int>, mate: seq<int>,
                 deep: seq<seq<int>>, slack: seq<real>, path: seq<int>)
    requires RootPath(path, n, outer, forest) && PathTight(path, deep, slack, n) && Coupled(path, n, outer, mate)
    requires AllTrees(family, path)
    requires |path| % 2 == 1 && |mate| == 2 * n && 0 <= path[|path| - 1] < 2 * n && mate[path[|path| - 1]] == -1
    ensures HalfWay(family, n, outer, forest, kind, mate, deep, slack, path)
  {
  }

  /** Even nodes in different trees of the forest, joined by an edge without slack. */
  lemma FoundPath(family: set<Tree>, n: nat, active: seq<bool>, free: seq<int>, deep: seq<seq<int>>,
                  shallow: seq<seq<int>>, outer: seq<int>,
                  forest: seq<int>, kind: seq<int>, root: seq<int>, mate: seq<int>, slack: seq<real>, u: int,
                  v: int) returns (up: seq<int>, vp: seq<int>)
    requires Whole(family, {}, n, active, free, deep, shallow, outer) && Labelling(family, n, outer, kind, root, mate)
    requires EvensClimb(family, n, outer, forest, kind, root, mate, deep, slack) && Tight(slack, n, u, v) && 0 <= u < n
    requires 0 <= v < n
    requires |kind| == 2 * n && |root| == 2 * n && |outer| == 2 * n && 0 <= outer[u] < 2 * n && 0 <= outer[v] < 2 * n
    requires kind[outer[u]] == EVEN && kind[outer[v]] == EVEN && root[outer[u]] != root[outer[v]]
    ensures Augmenting(family, n, outer, forest, kind, mate, deep, slack, up, vp)
    ensures up != [] && vp != [] && up[0] == outer[u] && vp[0] == outer[v]
  {
    hide *;
    var s := VertexTree(family, n, active, free, deep, shallow, outer, u);
    var t := VertexTree(family, n, active, free, deep, shallow, outer, v);
    up := ClimbOf(family, s, n, outer, forest, kind, root, mate, deep, slack);
    vp := ClimbOf(family, t, n, outer, forest, kind, root, mate, deep, slack);
    ClimbParts(up, s.id, n, outer, forest, kind, root, mate, deep, slack);
    ClimbParts(vp, t.id, n, outer, forest, kind, root, mate, deep, slack);
    ClimbIsHalf(family, n, active, free, deep, shallow, outer, forest, kind, root, mate, slack, up, s);
    ClimbIsHalf(family, n, active, free, deep, shallow, outer, forest, kind, root, mate, slack, vp, t);
    JoinedByEdge(family, n, active, free, deep, shallow, outer, slack, u, v);
    forall i, j | 0 <= i < |up| && 0 <= j < |vp|
      ensures up[i] != vp[j]
    {
      ClimbsApart(up, vp, s.id, t.id, n, outer, forest, kind, root, mate, deep, slack, i, j);
    }
    MakeAugmenting(family, n, outer, forest, kind, mate, deep, slack, up, vp);
  }

  lemma MakeAugmenting(family: set<Tree>, n: nat, outer: seq<int>, forest: seq<int>, kind: seq<int>, mate: seq<int>,
                       deep: seq<seq<int>>, slack: seq<real>, up: seq<int>, vp: seq<int>)
    requires HalfWay(family, n, outer, forest, kind, mate, deep, slack, up)
    requires HalfWay(family, n, outer, forest, kind, mate, deep, slack, vp)
    requires (forall i, j :: 0 <= i < |up| && 0 <= j < |vp| ==> up[i] != vp[j])
    requires up != [] && vp != [] && Joined(deep, slack, n, up[0], vp[0])
    ensures Augmenting(family, n, outer, forest, kind, mate, deep, slack, up, vp)
  {
  }

  // The trees of the climbs are closed under mates -------------------------------------------------------------------

  lemma HalfClosed(family: set<Tree>, n: nat, active: seq<bool>, free: seq<int>, deep: seq<seq<int>>,
                   shallow: seq<seq<int>>, outer: seq<int>,
                   forest: seq<int>, kind: seq<int>, mate: seq<int>, slack: seq<real>, path: seq<int>, ids: seq<int>,
                   t: Tree)
    requires Whole(family, {}, n, active, free, deep, shallow, outer) && PartlyMatched(family, mate, slack, n)
    requires t in family
    requires HalfWay(family, n, outer, forest, kind, mate, deep, slack, path) && t.id in path
    requires forall x :: x in path ==> x in ids
    requires 0 <= t.id < |mate| && mate[t.id] != -1
    ensures HasMate(TreesOf(family, ids), t, mate, slack, n)
  {
    hide *;
    HalfParts(family, n, outer, forest, kind, mate, deep, slack, path);
    var i :| 0 <= i < |path| && path[i] == t.id;
    if i % 2 == 0 {
      CoupledAt(path, n, outer, mate, i);
      TreeOn(family, path, i + 1);
      var r := PickTree(family, path[i + 1]);
      MutualByLead(family, n, active, free, deep, shallow, outer, mate, slack, t, r);
      IsTreeOf(family, ids, r);
      PathDistinct(path, n, outer, forest, i, i + 1);
      HasMateBy(TreesOf(family, ids), t, r, mate, slack, n);
    } else {
      CoupledAt(path, n, outer, mate, i - 1);
      TreeOn(family, path, i - 1);
      var r := PickTree(family, path[i - 1]);
      MutualByLead(family, n, active, free, deep, shallow, outer, mate, slack, r, t);
      MutualBack(r, t, mate, slack, n);
      IsTreeOf(family, ids, r);
      PathDistinct(path, n, outer, forest, i - 1, i);
      HasMateBy(TreesOf(family, ids), t, r, mate, slack, n);
    }
  }

  lemma PathsClosed(family: set<Tree>, n: nat, active: seq<bool>, free: seq<int>, deep: seq<seq<int>>,
                    shallow: seq<seq<int>>, outer: seq<int>,
                    forest: seq<int>, kind: seq<int>, mate: seq<int>, slack: seq<real>, up: seq<int>, vp: seq<int>)
    requires Whole(family, {}, n, active, free, deep, shallow, outer) && PartlyMatched(family, mate, slack, n)
    requires Augmenting(family, n, outer, forest, kind, mate, deep, slack, up, vp)
    ensures ClosedUnderMates(TreesOf(family, up + vp), mate, slack, n)
  {
    hide Whole, Augmenting, HalfWay, HasMate;
    AugmentingParts(family, n, outer, forest, kind, mate, deep, slack, up, vp);
    forall t | t in TreesOf(family, up + vp) && 0 <= t.id < 2 * n && mate[t.id] != -1
      ensures HasMate(TreesOf(family, up + vp), t, mate, slack, n)
    {
      if t.id in up {
        HalfClosed(family, n, active, free, deep, shallow, outer, forest, kind, mate, slack, up, up + vp, t);
      } else {
        HalfClosed(family, n, active, free, deep, shallow, outer, forest, kind, mate, slack, vp, up + vp, t);
      }
    }
  }

  // Along one climb ---------------------------------------------------------------------------------------

  /** A node of the path is a tree, in its place in the arrays. */
  lemma PathNode(family: set<Tree>, n: nat, active: seq<bool>, free: seq<int>, deep: seq<seq<int>>,
                 shallow: seq<seq<int>>, outer: seq<int>,
                 forest: seq<int>, kind: seq<int>, mate: seq<int>, slack: seq<real>, path: seq<int>,
                 i: int) returns (t: Tree)
    requires Whole(family, {}, n, active, free, deep, shallow, outer)
    requires HalfWay(family, n, outer, forest, kind, mate, deep, slack, path)
    requires 0 <= i < |path|
    ensures t in family && t.id == path[i] && 0 <= path[i] < 2 * n && deep[path[i]] == Leaves(t)
  {
    hide *;
    HalfParts(family, n, outer, forest, kind, mate, deep, slack, path);
    TreeOn(family, path, i);
    t := PickTree(family, path[i]);
    TreeFacts(family, n, active, free, deep, shallow, outer, t);
  }

  /** The vertex above an unused node still leads there. */
  lemma StillAbove(family: set<Tree>, n: nat, active: seq<bool>, free: seq<int>, deep: seq<seq<int>>,
                   shallow: seq<seq<int>>, outer: seq<int>,
                   forest: seq<int>, kind: seq<int>, mate: seq<int>, slack: seq<real>, path: seq<int>, i: int,
                   used: set<Tree>, outer': seq<int>)
    requires Whole(family, {}, n, active, free, deep, shallow, outer)
    requires HalfWay(family, n, outer, forest, kind, mate, deep, slack, path)
    requires 0 <= i && i + 1 < |path| && used <= family && Untouched(Covered(used), n, outer, outer')
    requires forall t :: t in used ==> t.id != path[i + 1]
    ensures |forest| == 2 * n && 0 <= path[i] < 2 * n && 0 <= forest[path[i]] < n && |outer'| == 2 * n
    ensures outer'[forest[path[i]]] == path[i + 1]
  {
    hide *;
    HalfParts(family, n, outer, forest, kind, mate, deep, slack, path);
    PathNext(path, n, outer, forest, i);
    var x := forest[path[i]];
    var t := VertexTree(family, n, active, free, deep, shallow, outer, x);
    LaminarOf(family, n, active, free, deep, shallow, outer);
    UnusedApart(family, used, n, t);
    LeafInIds(family, n, t, x);
    UntouchedAt(Covered(used), n, outer, outer', x);
  }

  lemma LeafInIds(family: set<Tree>, n: nat, t: Tree, x: int)
    requires Laminar(family, {}, n) && t in family && x in Leaves(t)
    ensures x in Ids(t)
  {
    LeafIffId(t, n, x);
  }

  lemma UntouchedAt(s: set<int>, n: nat, outer: seq<int>, outer': seq<int>, x: int)
    requires Untouched(s, n, outer, outer') && 0 <= x < n && x !in s
    ensures |outer'| == 2 * n && outer'[x] == outer[x]
  {
  }

  /** Neighbours on the path are joined. */
  lemma PathJoined(family: set<Tree>, n: nat, active: seq<bool>, free: seq<int>, deep: seq<seq<int>>,
                   shallow: seq<seq<int>>, outer: seq<int>,
                   slack: seq<real>, p: int, q: int, s: Tree, t: Tree)
    requires Whole(family, {}, n, active, free, deep, shallow, outer) && s in family && t in family && s.id == p
    requires t.id == q
    requires Joined(deep, slack, n, p, q)
    ensures Linked(slack, n, Leaves(s), Leaves(t)) && Linked(slack, n, Leaves(t), Leaves(s))
  {
    hide Linked, Whole, Leaves;
    TreeFacts(family, n, active, free, deep, shallow, outer, s);
    TreeFacts(family, n, active, free, deep, shallow, outer, t);
    LinkedBack(slack, n, deep[p], deep[q]);
  }

  // The blocks afterwards ---------------------------------------------------------------------------------

  /** A blossom is blocked exactly when it has a dual, and inactive ones have none. */
  ghost predicate Blocking(n: nat, active: seq<bool>, blocked: seq<bool>, dual: seq<real>) {
    && |active| == 2 * n && |blocked| == 2 * n && |dual| == 2 * n
    && forall j :: n <= j < 2 * n ==> dual[j] >= 0.0 && (blocked[j] <==> dual[j] > 0.0) && (active[j] || dual[j] == 0.0)
  }

  lemma BlockingSettles(n: nat, outer: seq<int>, active: seq<bool>, blocked: seq<bool>, dual: seq<real>)
    requires Blocking(n, active, blocked, dual) && |outer| == 2 * n
    ensures Settled(Upto(n, 2 * n), n, outer, active, blocked, dual)
  {
  }

  lemma BlockingBlocks(n: nat, active: seq<bool>, blocked: seq<bool>, dual: seq<real>, s: set<int>)
    requires Blocking(n, active, blocked, dual)
    ensures |blocked| == 2 * n && |dual| == 2 * n && Blocks(FullBlossoms(n, blocked, dual), s, blocked, false, n)
  {
    FullAgrees(n, blocked, dual, s);
  }

  /** Opening trees down to the blocked blossoms keeps the blocks right. */
  lemma BlockingAfter(family: set<Tree>, used: set<Tree>, family': set<Tree>, n: nat, active: seq<bool>,
                      active': seq<bool>, blocked: seq<bool>,
                      dual: seq<real>, stops: set<int>)
    requires Laminar(family, {}, n) && Accounted(family, {}, active, n) && Accounted(family', {}, active', n)
    requires Blocking(n, active, blocked, dual) && stops == FullBlossoms(n, blocked, dual)
    requires used <= family && family' == family - used + KeptOf(used, stops)
    ensures Blocking(n, active', blocked, dual)
  {
    hide Ids, Kept, Laminar;
    forall j | n <= j < 2 * n && dual[j] > 0.0
      ensures active'[j]
    {
      assert j in Covered(family);
      var t :| t in family && j in Ids(t);
      if t in used {
        StopStays(t, stops, n, j, family);
        var k :| k in Kept(t, stops) && j in Ids(k);
        InKeptOf(used, stops, t, k);
        InCovered(family', k);
      } else {
        InCovered(family', t);
      }
    }
  }

  /** A stop inside a tree stays covered. */
  lemma StopStays(t: Tree, stops: set<int>, n: nat, j: int, family: set<Tree>)
    requires Laminar(family, {}, n) && t in family && j in Ids(t) && j in stops
    ensures exists k :: k in Kept(t, stops) && j in Ids(k)
  {
    KeptSplits(t, stops, n);
    if j in Opened(t, stops) {
      OpenedNotStops(t, stops, j);
    }
    assert j in Covered(Kept(t, stops));
  }

  lemma SameTrees(family: set<Tree>, ids: seq<int>, more: seq<int>)
    requires forall x :: x in more <==> x in ids
    ensures TreesOf(family, more) == TreesOf(family, ids)
  {
  }

  lemma TightIn(family: set<Tree>, slack: seq<real>, n: nat, t: Tree)
    requires TightFamily(family, slack, n) && t in family
    ensures TightTree(t, slack, n)
  {
  }

  /** The nodes above the k-th are not used yet. */
  lemma NotYetUsed(family: set<Tree>, ids: seq<int>, path: seq<int>, n: nat, outer: seq<int>, forest: seq<int>, k: int,
                   j: int)
    requires RootPath(path, n, outer, forest) && 0 <= k < j < |path| && path[j] !in ids
    ensures forall t :: t in TreesOf(family, ids + path[..k + 1]) ==> t.id != path[j]
  {
    PathIsDistinct(path, n, outer, forest);
  }

  lemma TwoAbove(family: set<Tree>, n: nat, ids: seq<int>, path: seq<int>, k: int, s: Tree, t: Tree)
    requires Laminar(family, {}, n) && s in family && t in family && 0 <= k && k + 2 < |path| && s.id == path[k + 2]
    requires t.id == path[k + 1]
    ensures TreesOf(family, ids + path[..k + 3]) == TreesOf(family, ids + path[..k + 1]) + {s, t}
  {
    var less, more := ids + path[..k + 1], ids + path[..k + 3];
    assert path[..k + 3] == path[..k + 1] + [path[k + 1], path[k + 2]];
    TwoMore(family, n, less, more, s, t);
  }

  lemma HeadsOnly(family: set<Tree>, n: nat, up: seq<int>, vp: seq<int>, s: Tree, t: Tree)
    requires Laminar(family, {}, n) && s in family && t in family && up != [] && vp != [] && s.id == up[0]
    requires t.id == vp[0] && up[0] != vp[0]
    ensures TreesOf(family, [up[0], vp[0]]) == {} + {s, t} && s != t
  {
    NoTrees(family);
    var less, more: seq<int> := [], [up[0], vp[0]];
    TwoMore(family, n, less, more, s, t);
  }

  lemma OthersLater(up: seq<int>, vp: seq<int>, n: nat, outer: seq<int>, forest: seq<int>, kind: seq<int>,
                    mate: seq<int>, deep: seq<seq<int>>,
                    slack: seq<real>, family: set<Tree>)
    requires Augmenting(family, n, outer, forest, kind, mate, deep, slack, up, vp)
    ensures up != [] && vp != [] && up[0] in [up[0], vp[0]] && forall i :: 1 <= i < |up| ==> up[i] !in [up[0], vp[0]]
    ensures vp[0] in [up[0], vp[0]] + up && forall i :: 1 <= i < |vp| ==> vp[i] !in [up[0], vp[0]] + up
  {
    AugmentingParts(family, n, outer, forest, kind, mate, deep, slack, up, vp);
    HalfParts(family, n, outer, forest, kind, mate, deep, slack, up);
    HalfParts(family, n, outer, forest, kind, mate, deep, slack, vp);
    PathIsDistinct(up, n, outer, forest);
    PathIsDistinct(vp, n, outer, forest);
    hide RootPath, HalfWay, Augmenting;
    forall i | 1 <= i < |up|
      ensures up[i] !in [up[0], vp[0]]
    {
      assert up[i] != up[0] && up[i] != vp[0];
    }
    forall i | 1 <= i < |vp|
      ensures vp[i] !in [up[0], vp[0]] + up
    {
      assert vp[i] != vp[0];
      assert up[0] != vp[i];
    }
  }

  lemma BothPaths(family: set<Tree>, up: seq<int>, vp: seq<int>)
    requires up != [] && vp != []
    ensures TreesOf(family, [up[0], vp[0]] + up + vp) == TreesOf(family, up + vp)
  {
    var more, ids := [up[0], vp[0]] + up + vp, up + vp;
    assert up[0] in ids && vp[0] in ids;
    SameTrees(family, ids, more);
  }
}
