/** Facts about the arrays of the blossom algorithm, one step at a time. */
module MatchingFacts {
  import opened BlossomTree
  import opened BlossomFamily
  import opened BlossomPartition
  import opened BlossomCircuit
  import opened EdgeIndex

  /** stops are the numbers of blocked blossoms with a dual. */
  ghost predicate Agrees(stops: set<int>, s: set<int>, blocked: seq<bool>, dual: seq<real>, n: nat) {
    |blocked| == 2 * n && |dual| == 2 * n &&
    forall i :: i in s && 0 <= i < 2 * n ==> (i in stops <==> blocked[i] && dual[i] > 0.0)
  }

  /** outer is unchanged except on s. */
  ghost predicate Untouched(s: set<int>, n: nat, outer: seq<int>, outer': seq<int>) {
    |outer| == 2 * n && |outer'| == 2 * n && forall i :: 0 <= i < 2 * n && i !in s ==> outer'[i] == outer[i]
  }

  /** The opened blossoms are inactive and unmatched; nothing else changes. */
  ghost predicate Destroyed(gone: set<int>, n: nat, active: seq<bool>, blocked: seq<bool>, mate: seq<int>,
                            active': seq<bool>, blocked': seq<bool>, mate': seq<int>)
  {
    && |active| == 2 * n && |blocked| == 2 * n && |mate| == 2 * n
    && |active'| == 2 * n && |blocked'| == 2 * n && |mate'| == 2 * n
    && forall i :: 0 <= i < 2 * n ==>
      if i in gone then !active'[i] && !blocked'[i] && mate'[i] == -1
      else active'[i] == active[i] && blocked'[i] == blocked[i] && mate'[i] == mate[i]
  }

  lemma DestroyedNothing(n: nat, active: seq<bool>, blocked: seq<bool>, mate: seq<int>)
    requires |active| == 2 * n && |blocked| == 2 * n && |mate| == 2 * n
    ensures Destroyed({}, n, active, blocked, mate, active, blocked, mate)
  {
  }

  lemma UntouchedRefl(s: set<int>, n: nat, outer: seq<int>)
    requires |outer| == 2 * n
    ensures Untouched(s, n, outer, outer)
  {
  }

  /** Where opening stops, and the bounds of an outermost tree. */
  lemma StopsHere(family: set<Tree>, pending: set<int>, n: nat, active: seq<bool>, free: seq<int>,
                  deep: seq<seq<int>>, shallow: seq<seq<int>>, outer: seq<int>,
                  tree: Tree, stops: set<int>, blocked: seq<bool>, dual: seq<real>)
    requires Whole(family, pending, n, active, free, deep, shallow, outer) && tree in family
    requires Agrees(stops, Ids(tree), blocked, dual, n)
    ensures 0 <= tree.id < 2 * n && Shape(tree, n) && |shallow| == 2 * n
    ensures tree.id < n || (blocked[tree.id] && dual[tree.id] > 0.0) ==>
      Kept(tree, stops) == {tree} && Opened(tree, stops) == {}
    ensures !(tree.id < n || (blocked[tree.id] && dual[tree.id] > 0.0)) ==>
      tree.kids != [] && Kept(tree, stops) == AllKept(tree.kids, stops) &&
      Opened(tree, stops) == {tree.id} + AllOpened(tree.kids, stops)
  {
    IdInTree(tree);
  }

  lemma NoKids(kids: seq<Tree>, stops: set<int>)
    ensures AllKept(kids[..0], stops) == {} && AllOpened(kids[..0], stops) == {}
  {
  }

  lemma OutermostKids(t: Tree, deep: seq<seq<int>>, shallow: seq<seq<int>>, outer: seq<int>)
    requires Outermost(t, deep, shallow, outer)
    ensures |shallow[t.id]| == |t.kids| && forall i :: 0 <= i < |t.kids| ==> shallow[t.id][i] == t.kids[i].id
    ensures forall i :: 0 <= i < |t.kids| ==> Fits(t.kids[i], deep, shallow, outer)
  {
    KidsFit(t, deep, shallow, outer);
  }

  lemma AgreesLater(t: Tree, n: nat, k: nat, stops: set<int>, active: seq<bool>, blocked: seq<bool>, mate: seq<int>,
                    active': seq<bool>, blocked': seq<bool>, mate': seq<int>, dual: seq<real>)
    requires Shape(t, n) && k < |t.kids| && Agrees(stops, Ids(t), blocked, dual, n)
    requires Destroyed(AllOpened(t.kids[..k], stops), n, active, blocked, mate, active', blocked', mate')
    ensures Agrees(stops, Ids(t.kids[k]), blocked', dual, n)
  {
    OpenedBefore(t, n, k, stops);
    KidBounds(t, n, k);
    hide Ids, AllOpened, Shape;
  }

  lemma LaterFit(t: Tree, n: nat, k: nat, deep: seq<seq<int>>, shallow: seq<seq<int>>, outer: seq<int>,
                 outer': seq<int>)
    requires Shape(t, n) && k < |t.kids| && Untouched(Ids(t.kids[k]), n, outer, outer')
    ensures forall j :: k < j < |t.kids| && Fits(t.kids[j], deep, shallow, outer) ==>
      Fits(t.kids[j], deep, shallow, outer')
  {
    hide Fits, Shape, Ids;
    forall j | k < j < |t.kids| && Fits(t.kids[j], deep, shallow, outer)
      ensures Fits(t.kids[j], deep, shallow, outer')
    {
      OtherKidFits(t, n, deep, shallow, outer, outer', k, j);
    }
  }

  lemma UntouchedKid(t: Tree, n: nat, k: nat, outer0: seq<int>, outer1: seq<int>, outer2: seq<int>)
    requires Shape(t, n) && k < |t.kids| && Untouched(Ids(t), n, outer0, outer1)
    requires Untouched(Ids(t.kids[k]), n, outer1, outer2)
    ensures Untouched(Ids(t), n, outer0, outer2)
  {
    KidBounds(t, n, k);
    hide Ids, Shape;
  }

  lemma DestroyedTrans(n: nat, first: set<int>, second: set<int>, active0: seq<bool>, blocked0: seq<bool>,
                       mate0: seq<int>,
                       active1: seq<bool>, blocked1: seq<bool>, mate1: seq<int>, active2: seq<bool>,
                       blocked2: seq<bool>, mate2: seq<int>)
    requires Destroyed(first, n, active0, blocked0, mate0, active1, blocked1, mate1)
    requires Destroyed(second, n, active1, blocked1, mate1, active2, blocked2, mate2)
    ensures Destroyed(first + second, n, active0, blocked0, mate0, active2, blocked2, mate2)
  {
  }

  /** With all children handled the root's number is released. */
  lemma FinishOpening(family: set<Tree>, pending: set<int>, n: nat, active: seq<bool>, free: seq<int>,
                      deep: seq<seq<int>>, shallow: seq<seq<int>>, outer: seq<int>, t: Tree)
    requires Shape(t, n) && t.kids != [] && pending !! Ids(t)
    requires Whole(family, StillPending(pending, t, |t.kids|), n, active, free, deep, shallow, outer)
    ensures |active| == 2 * n && 0 <= t.id < 2 * n
    ensures Whole(family, pending, n, active[t.id := false], free + [t.id], deep, shallow, outer)
  {
    StartPending(pending, t);
    IdInTree(t);
    ReleaseWhole(family, pending + {t.id}, n, active, free, deep, shallow, outer, t.id);
    assert pending + {t.id} - {t.id} == pending;
  }

  lemma DestroyedRoot(n: nat, t: Tree, stops: set<int>, active: seq<bool>, blocked: seq<bool>, mate: seq<int>,
                      active': seq<bool>, blocked': seq<bool>, mate': seq<int>)
    requires Shape(t, n) && t.kids != [] && Opened(t, stops) == {t.id} + AllOpened(t.kids, stops)
    requires Destroyed(AllOpened(t.kids, stops), n, active, blocked, mate, active', blocked', mate')
    ensures 0 <= t.id < |active'| && t.id < |blocked'| && t.id < |mate'|
    ensures Destroyed(Opened(t, stops), n, active, blocked, mate, active'[t.id := false], blocked'[t.id := false],
      mate'[t.id := -1])
  {
  }

  lemma PointedUntouched(t: Tree, n: nat, r: int, outer0: seq<int>, outer1: seq<int>, outer2: seq<int>)
    requires Shape(t, n) && Pointed(t, r, outer0, outer1) && |outer0| == 2 * n && Untouched(Ids(t), n, outer1, outer2)
    ensures Untouched(Ids(t), n, outer0, outer2)
  {
    IdInTree(t);
    forall x | 0 <= x < 2 * n && x !in Ids(t)
      ensures outer2[x] == outer0[x]
    {
      LeafIffId(t, n, x);
    }
  }

  /** Numbers that are not outermost blossoms head no tree above the vertices. */
  lemma NotOutermost(family: set<Tree>, n: nat, active: seq<bool>, free: seq<int>,
                     deep: seq<seq<int>>, shallow: seq<seq<int>>, outer: seq<int>, i: int)
    requires Whole(family, {}, n, active, free, deep, shallow, outer) && 0 <= i < 2 * n
    requires !(i >= n && active[i] && outer[i] == i)
    ensures forall t :: t in family ==> t.id < n || t.id != i
  {
    forall t | t in family
      ensures t.id < n || t.id != i
    {
      IdInTree(t);
      InCovered(family, t);
      assert Outermost(t, deep, shallow, outer);
    }
  }

  lemma AllStopped(family: set<Tree>, n: nat, active: seq<bool>, free: seq<int>,
                   deep: seq<seq<int>>, shallow: seq<seq<int>>, outer: seq<int>, stops: set<int>)
    requires Whole(family, {}, n, active, free, deep, shallow, outer)
    requires forall t :: t in family ==> t.id < n || t.id >= 2 * n || t.id in stops
    ensures KeptOf(family, stops) == family
  {
    KeptOfDone(family, stops);
  }

  lemma AgreesTree(family: set<Tree>, n: nat, active: seq<bool>, free: seq<int>,
                   deep: seq<seq<int>>, shallow: seq<seq<int>>, outer: seq<int>, t: Tree,
                   stops: set<int>, blocked: seq<bool>, dual: seq<real>)
    requires Whole(family, {}, n, active, free, deep, shallow, outer) && t in family
    requires Agrees(stops, Upto(0, 2 * n), blocked, dual, n)
    ensures Agrees(stops, Ids(t), blocked, dual, n)
  {
  }

  /** Destruction leaves the blocked blossoms with a dual as they are. */
  lemma AgreesAfter(family: set<Tree>, n: nat, t: Tree, stops: set<int>, active: seq<bool>, blocked: seq<bool>,
                    mate: seq<int>,
                    active': seq<bool>, blocked': seq<bool>, mate': seq<int>, dual: seq<real>)
    requires Laminar(family, {}, n) && t in family && Agrees(stops, Upto(0, 2 * n), blocked, dual, n)
    requires Destroyed(Opened(t, stops), n, active, blocked, mate, active', blocked', mate')
    ensures Agrees(stops, Upto(0, 2 * n), blocked', dual, n)
    ensures forall k :: k in Kept(t, stops) ==> k.id < n || k.id in stops
    ensures forall j :: 0 <= j < 2 * n ==> (active'[j] ==> active[j])
    ensures forall j :: 0 <= j < 2 * n ==> mate'[j] == mate[j] || (j >= n && !active'[j] && mate'[j] == -1)
    ensures forall j :: 0 <= j < 2 * n && blocked'[j] ==> blocked[j]
  {
    KeptSplits(t, stops, n);
    forall k | k in Kept(t, stops)
      ensures k.id < n || k.id in stops
    {
      KeptStops(t, stops, n, k);
    }
    forall x | x in Opened(t, stops)
      ensures x !in stops
    {
      OpenedNotStops(t, stops, x);
    }
  }

  lemma {:induction false} OpenedNotStops(t: Tree, stops: set<int>, x: int)
    requires x in Opened(t, stops)
    ensures x !in stops
    decreases t
  {
    if x != t.id {
      AllOpenedNotStops(t.kids, stops, x);
    }
  }

  lemma {:induction false} AllOpenedNotStops(ks: seq<Tree>, stops: set<int>, x: int)
    requires x in AllOpened(ks, stops)
    ensures x !in stops
    decreases ks
  {
    if x in AllOpened(ks[..|ks| - 1], stops) {
      AllOpenedNotStops(ks[..|ks| - 1], stops, x);
    } else {
      OpenedNotStops(ks[|ks| - 1], stops, x);
    }
  }

  lemma OuterInRange(family: set<Tree>, n: nat, active: seq<bool>, free: seq<int>,
                     deep: seq<seq<int>>, shallow: seq<seq<int>>, outer: seq<int>)
    requires Whole(family, {}, n, active, free, deep, shallow, outer)
    ensures |outer| == 2 * n && forall v :: 0 <= v < n ==> 0 <= outer[v] < 2 * n
  {
    forall v | 0 <= v < n
      ensures 0 <= outer[v] < 2 * n
    {
      var t := VertexTree(family, n, active, free, deep, shallow, outer, v);
    }
  }

  /** The work list names every unmatched outermost node once, by one of its vertices. */
  ghost predicate IsWorkList(list: seq<int>, n: nat, outer: seq<int>, mate: seq<int>) {
    && |outer| == 2 * n && |mate| == 2 * n && (forall v :: 0 <= v < n ==> 0 <= outer[v] < 2 * n)
    && (forall k :: 0 <= k < |list| ==> 0 <= list[k] < n && mate[outer[list[k]]] == -1)
    && (forall k, l :: 0 <= k < l < |list| ==> outer[list[k]] != outer[list[l]])
    && (forall v :: 0 <= v < n && mate[outer[v]] == -1 ==> exists k :: 0 <= k < |list| && outer[list[k]] == outer[v])
  }

  /** The outermost nodes of the first i vertices are labelled. */
  ghost predicate Labelled(i: int, n: nat, outer: seq<int>, mate: seq<int>, kind: seq<int>) {
    |outer| == 2 * n && |mate| == 2 * n && |kind| == 2 * n && i <= n &&
    forall v :: 0 <= v < i ==>
      (0 <= outer[v] < 2 * n && kind[outer[v]] == if mate[outer[v]] == -1 then EVEN else UNLABELED)
  }

  /** The work list after the first i vertices. */
  ghost predicate Listed(list: seq<int>, i: int, n: nat, outer: seq<int>, mate: seq<int>, visited: seq<bool>) {
    && |outer| == 2 * n && |mate| == 2 * n && |visited| == 2 * n && 0 <= i <= n
    && (forall v :: 0 <= v < n ==> 0 <= outer[v] < 2 * n)
    && (forall k :: 0 <= k < |list| ==> 0 <= list[k] < i && mate[outer[list[k]]] == -1)
    && (forall k, l :: 0 <= k < l < |list| ==> outer[list[k]] != outer[list[l]])
    && (forall r :: 0 <= r < 2 * n && visited[r] ==> exists k :: 0 <= k < |list| && outer[list[k]] == r)
    && (forall k :: 0 <= k < |list| ==> visited[outer[list[k]]])
    && (forall v :: 0 <= v < i && mate[outer[v]] == -1 ==> visited[outer[v]])
  }

  lemma ListedNothing(n: nat, outer: seq<int>, mate: seq<int>, kind: seq<int>, visited: seq<bool>)
    requires |outer| == 2 * n && |mate| == 2 * n && |visited| == 2 * n && |kind| == 2 * n
    requires (forall v :: 0 <= v < n ==> 0 <= outer[v] < 2 * n) && forall r :: 0 <= r < 2 * n ==> !visited[r]
    ensures Listed([], 0, n, outer, mate, visited) && Labelled(0, n, outer, mate, kind)
  {
  }

  /** One more vertex. */
  lemma ListNext(list: seq<int>, i: int, n: nat, outer: seq<int>, mate: seq<int>, visited: seq<bool>, kind: seq<int>)
    requires Listed(list, i, n, outer, mate, visited) && i < n && Labelled(i, n, outer, mate, kind)
    ensures |outer| == 2 * n && 0 <= outer[i] < 2 * n && |mate| == 2 * n && |visited| == 2 * n && |kind| == 2 * n
    ensures mate[outer[i]] != -1 ==> Listed(list, i + 1, n, outer, mate, visited)
    ensures mate[outer[i]] == -1 && visited[outer[i]] ==> Listed(list, i + 1, n, outer, mate, visited[outer[i] := true])
    ensures mate[outer[i]] == -1 && !visited[outer[i]] ==>
      Listed(list + [i], i + 1, n, outer, mate, visited[outer[i] := true])
    ensures Labelled(i + 1, n, outer, mate, kind[outer[i] := if mate[outer[i]] == -1 then EVEN else UNLABELED])
  {
    if mate[outer[i]] == -1 && !visited[outer[i]] {
      ListAppend(list, i, n, outer, mate, visited);
    }
  }

  lemma ListAppend(list: seq<int>, i: int, n: nat, outer: seq<int>, mate: seq<int>, visited: seq<bool>)
    requires Listed(list, i, n, outer, mate, visited) && i < n && 0 <= outer[i] < 2 * n
    requires mate[outer[i]] == -1 && !visited[outer[i]]
    ensures Listed(list + [i], i + 1, n, outer, mate, visited[outer[i] := true])
  {
    var more, seen := list + [i], visited[outer[i] := true];
    forall r | 0 <= r < 2 * n && seen[r]
      ensures exists k :: 0 <= k < |more| && outer[more[k]] == r
    {
      if r == outer[i] {
        assert outer[more[|list|]] == r;
      } else {
        var k :| 0 <= k < |list| && outer[list[k]] == r;
        assert outer[more[k]] == r;
      }
    }
  }

  lemma ListedAll(list: seq<int>, n: nat, outer: seq<int>, mate: seq<int>, visited: seq<bool>)
    requires Listed(list, n, n, outer, mate, visited)
    ensures IsWorkList(list, n, outer, mate)
  {
  }

  // Contraction ------------------------------------------------------------------------------------------

  lemma PathBounds(path: seq<int>, n: nat, outer: seq<int>, forest: seq<int>)
    requires RootPath(path, n, outer, forest)
    ensures |outer| == 2 * n && |forest| == 2 * n && path != [] && forall i :: 0 <= i < |path| ==> 0 <= path[i] < 2 * n
  {
  }

  /** One step up a path: past its last node there is no father. */
  lemma PathNext(path: seq<int>, n: nat, outer: seq<int>, forest: seq<int>, k: int)
    requires RootPath(path, n, outer, forest) && 0 <= k < |path|
    ensures 0 <= path[k] < 2 * n && |forest| == 2 * n && |outer| == 2 * n
    ensures k == |path| - 1 ==> forest[path[k]] == -1
    ensures k < |path| - 1 ==> 0 <= forest[path[k]] < n && outer[forest[path[k]]] == path[k + 1]
  {
  }

  lemma PathDistinct(path: seq<int>, n: nat, outer: seq<int>, forest: seq<int>, i: int, j: int)
    requires RootPath(path, n, outer, forest) && 0 <= i < |path| && 0 <= j < |path|
    ensures path[i] == path[j] <==> i == j
  {
  }

  /** The nodes of a path are outermost trees. */
  lemma PathTree(family: set<Tree>, n: nat, active: seq<bool>, free: seq<int>, deep: seq<seq<int>>,
                 shallow: seq<seq<int>>, outer: seq<int>,
                 path: seq<int>, forest: seq<int>, u: int, i: int)
    requires Whole(family, {}, n, active, free, deep, shallow, outer) && RootPath(path, n, outer, forest)
    requires 0 <= u < n && path[0] == outer[u] && 0 <= i < |path|
    ensures HasTree(family, path[i])
  {
    hide Whole, RootPath;
    PathNext(path, n, outer, forest, 0);
    if i == 0 {
      var t := VertexTree(family, n, active, free, deep, shallow, outer, u);
    } else {
      PathNext(path, n, outer, forest, i - 1);
      var t := VertexTree(family, n, active, free, deep, shallow, outer, forest[path[i - 1]]);
    }
  }

  /** The trees of the circuit. */
  lemma CircuitTrees(family: set<Tree>, n: nat, active: seq<bool>, free: seq<int>, deep: seq<seq<int>>,
                     shallow: seq<seq<int>>, outer: seq<int>,
                     forest: seq<int>, up: seq<int>, a: int, vp: seq<int>, b: int, u: int,
                     v: int) returns (kids: seq<Tree>)
    requires Whole(family, {}, n, active, free, deep, shallow, outer) && 0 <= u < n && 0 <= v < n
    requires RootPath(up, n, outer, forest) && RootPath(vp, n, outer, forest) && up[0] == outer[u] && vp[0] == outer[v]
    requires Meets(up, a, vp, b) && Distinct(Circuit(up, a, vp, b))
    ensures Roots(kids) == Circuit(up, a, vp, b) && Picked(family, kids)
    ensures forall i :: 0 <= i < |kids| ==>
      deep[kids[i].id] == Leaves(kids[i]) && Shape(kids[i], n) && 0 <= kids[i].id < 2 * n
  {
    var c := Circuit(up, a, vp, b);
    forall i | 0 <= i < |c|
      ensures HasTree(family, c[i])
    {
      CircuitAt(up, a, vp, b, i);
      if i <= a {
        PathTree(family, n, active, free, deep, shallow, outer, up, forest, u, a - i);
      } else {
        PathTree(family, n, active, free, deep, shallow, outer, vp, forest, v, i - a - 1);
      }
    }
    kids := PickTrees(family, c);
    hide Circuit, RootPath, Meets;
    forall i | 0 <= i < |kids|
      ensures deep[kids[i].id] == Leaves(kids[i]) && Shape(kids[i], n) && 0 <= kids[i].id < 2 * n
    {
      assert Outermost(kids[i], deep, shallow, outer);
    }
  }

  lemma NeverEmpty(family: set<Tree>, n: nat, active: seq<bool>, free: seq<int>, deep: seq<seq<int>>,
                   shallow: seq<seq<int>>, outer: seq<int>)
    requires Whole(family, {}, n, active, free, deep, shallow, outer) && n > 0
    ensures free != []
  {
    FreeNotEmpty(family, active, free, n);
  }

  lemma LedNothing(t: int, outer: seq<int>)
    ensures Led([], t, outer, outer)
  {
  }

  /** One more child led to t. */
  lemma LedNext(kids: seq<Tree>, k: int, t: int, outer0: seq<int>, outer1: seq<int>, outer2: seq<int>)
    requires 0 <= k < |kids| && Led(kids[..k], t, outer0, outer1) && Pointed(kids[k], t, outer1, outer2)
    ensures Led(kids[..k + 1], t, outer0, outer2)
    ensures AllLeaves(kids[..k + 1]) == AllLeaves(kids[..k]) + Leaves(kids[k])
  {
    assert kids[..k + 1][..k] == kids[..k];
    hide Leaves;
    assert Roots(kids[..k + 1]) == Roots(kids[..k]) + [kids[k].id];
  }

  lemma NewFamilyTight(family: set<Tree>, kids: seq<Tree>, t: int, deep: seq<seq<int>>, slack: seq<real>, n: nat)
    requires TightFamily(family, slack, n) && Picked(family, kids)
    requires forall i :: 0 <= i < |kids| ==> 0 <= kids[i].id < |deep| && deep[kids[i].id] == Leaves(kids[i])
    requires RingOf(Roots(kids), deep, slack, n)
    ensures TightFamily(family - Members(kids) + {Tree(t, kids)}, slack, n)
  {
    hide TightTree;
    NewTreeTight(kids, t, Roots(kids), deep, slack, n);
  }

  lemma JoinedByEdge(family: set<Tree>, n: nat, active: seq<bool>, free: seq<int>, deep: seq<seq<int>>,
                     shallow: seq<seq<int>>, outer: seq<int>,
                     slack: seq<real>, u: int, v: int)
    requires Whole(family, {}, n, active, free, deep, shallow, outer) && Tight(slack, n, u, v)
    ensures Joined(deep, slack, n, outer[u], outer[v])
  {
    var s := VertexTree(family, n, active, free, deep, shallow, outer, u);
    var t := VertexTree(family, n, active, free, deep, shallow, outer, v);
  }

  lemma MeetBounds(up: seq<int>, a: int, vp: seq<int>, b: int)
    requires Meets(up, a, vp, b)
    ensures 0 <= a < |up| && 0 <= b < |vp| && vp[b] == up[a]
  {
  }

  lemma FreeNumber(family: set<Tree>, n: nat, active: seq<bool>, free: seq<int>, deep: seq<seq<int>>,
                   shallow: seq<seq<int>>, outer: seq<int>, t: int)
    requires Whole(family, {}, n, active, free, deep, shallow, outer) && t in free
    ensures n <= t < 2 * n && !active[t]
  {
  }

  lemma KidsNotFree(family: set<Tree>, n: nat, active: seq<bool>, free: seq<int>, deep: seq<seq<int>>,
                    shallow: seq<seq<int>>, outer: seq<int>,
                    kids: seq<Tree>, t: int)
    requires Whole(family, {}, n, active, free, deep, shallow, outer) && t in free && Picked(family, kids)
    ensures forall i :: 0 <= i < |kids| ==> kids[i].id != t
  {
    forall i | 0 <= i < |kids|
      ensures kids[i].id != t
    {
      IdInTree(kids[i]);
      InCovered(family, kids[i]);
    }
  }

  lemma StillFree(family: set<Tree>, n: nat, active: seq<bool>, free: seq<int>, deep: seq<seq<int>>,
                  shallow: seq<seq<int>>, outer: seq<int>, t: int)
    requires Whole(family, {}, n, active, free, deep, shallow, outer) && 0 <= t < 2 * n && active[t]
    ensures t !in free
  {
  }

  // Opening a matched blossom ------------------------------------------------------------------------------

  function PlaceOf(n: nat, x: int, y: int): int {
    if 0 <= x < n && 0 <= y < n && x != y then GetEdgeIndex(n, x, y) else 0
  }

  /** (p, q) is the edge without slack of least place among the first i rows and j more entries. */
  ghost predicate LeastEdge(s: seq<int>, t: seq<int>, i: int, j: int, slack: seq<real>, n: nat, index: int, p: int,
                            q: int) {
    && (forall a, b :: 0 <= a < |s| && 0 <= b < |t| && (a < i || (a == i && b < j)) && Tight(slack, n, s[a], t[b]) ==>
          index <= PlaceOf(n, s[a], t[b]))
    && (if p == -1 then index == EdgeCount(n)
        else p in s && q in t && Tight(slack, n, p, q) && index == PlaceOf(n, p, q))
  }

  lemma LeastEdgeNext(s: seq<int>, t: seq<int>, i: int, j: int, slack: seq<real>, n: nat, index: int, p: int, q: int)
    requires 0 <= i < |s| && 0 <= j < |t| && LeastEdge(s, t, i, j, slack, n, index, p, q)
    ensures Tight(slack, n, s[i], t[j]) && PlaceOf(n, s[i], t[j]) < index ==>
      LeastEdge(s, t, i, j + 1, slack, n, PlaceOf(n, s[i], t[j]), s[i], t[j])
    ensures !(Tight(slack, n, s[i], t[j]) && PlaceOf(n, s[i], t[j]) < index) ==>
      LeastEdge(s, t, i, j + 1, slack, n, index, p, q)
  {
    hide IsAdjacent, PlaceOf, EdgeCount;
  }

  lemma LeastEdgeRow(s: seq<int>, t: seq<int>, i: int, slack: seq<real>, n: nat, index: int, p: int, q: int)
    requires LeastEdge(s, t, i, |t|, slack, n, index, p, q)
    ensures LeastEdge(s, t, i + 1, 0, slack, n, index, p, q)
  {
    hide Tight, PlaceOf, EdgeCount;
  }

  lemma LeastEdgeStart(s: seq<int>, t: seq<int>, slack: seq<real>, n: nat)
    ensures LeastEdge(s, t, 0, 0, slack, n, EdgeCount(n), -1, -1)
  {
  }

  /** Linked lists have such an edge, and it is the least of all. */
  lemma LeastEdgeEnd(s: seq<int>, t: seq<int>, slack: seq<real>, n: nat, index: int, p: int, q: int)
    requires LeastEdge(s, t, |s|, 0, slack, n, index, p, q) && Linked(slack, n, s, t)
    ensures p in s && q in t && Tight(slack, n, p, q)
    ensures forall x, y :: x in s && y in t && Tight(slack, n, x, y) ==> PlaceOf(n, p, q) <= PlaceOf(n, x, y)
  {
    hide EdgeCount;
    var x, y :| x in s && y in t && Tight(slack, n, x, y);
    var a :| 0 <= a < |s| && s[a] == x;
    var b :| 0 <= b < |t| && t[b] == y;
    assert Tight(slack, n, s[a], t[b]);
    IndexInRange(n, x, y);
    forall x, y | x in s && y in t && Tight(slack, n, x, y)
      ensures index <= PlaceOf(n, x, y)
    {
      var a :| 0 <= a < |s| && s[a] == x;
      var b :| 0 <= b < |t| && t[b] == y;
      assert Tight(slack, n, s[a], t[b]);
    }
  }

  /** The new mates around a circuit: the first child takes over the mate of the blossom, the others pair up. */
  ghost predicate Rematched(r: seq<Tree>, upto: int, own: int, mate: seq<int>, mate': seq<int>) {
    && |mate'| == |mate| && (forall i :: 0 <= i < |r| ==> 0 <= r[i].id < |mate|)
    && (upto >= 1 && r != [] ==> mate'[r[0].id] == own)
    && (forall j :: 1 <= j < upto && j < |r| - 1 && j % 2 == 1 ==>
          mate'[r[j].id] == r[j + 1].id && mate'[r[j + 1].id] == r[j].id)
    && (forall x :: 0 <= x < |mate| && x !in Roots(r) ==> mate'[x] == mate[x])
  }

  lemma DistinctRoots(r: seq<Tree>, n: nat)
    requires AllShape(r, n)
    ensures forall i, j :: 0 <= i < j < |r| ==> r[i].id != r[j].id
    ensures forall i :: 0 <= i < |r| ==> 0 <= r[i].id < 2 * n
  {
    forall i, j | 0 <= i < j < |r|
      ensures r[i].id != r[j].id
    {
      KidsDisjoint(r, n, i, j);
      IdInTree(r[i]);
      IdInTree(r[j]);
    }
    forall i | 0 <= i < |r|
      ensures 0 <= r[i].id < 2 * n
    {
      KidShape(r, n, i);
    }
  }

  lemma DistinctAt(r: seq<Tree>, n: nat, i: int, j: int)
    requires AllShape(r, n) && 0 <= i < |r| && 0 <= j < |r|
    ensures r[i].id == r[j].id <==> i == j
    ensures 0 <= r[i].id < 2 * n
  {
    DistinctRoots(r, n);
  }

  lemma RematchedNext(r: seq<Tree>, j: int, own: int, mate: seq<int>, mate1: seq<int>, n: nat)
    requires AllShape(r, n) && Rematched(r, j, own, mate, mate1) && 1 <= j < |r| - 1 && j % 2 == 1
    ensures 0 <= r[j].id < |mate1| && 0 <= r[j + 1].id < |mate1|
    ensures Rematched(r, j + 2, own, mate, mate1[r[j].id := r[j + 1].id][r[j + 1].id := r[j].id])
  {
    hide AllShape;
    var x, y := r[j].id, r[j + 1].id;
    var mate2 := mate1[x := y][y := x];
    DistinctAt(r, n, j, j + 1);
    DistinctAt(r, n, 0, j);
    DistinctAt(r, n, 0, j + 1);
    assert Roots(r)[j] == x && Roots(r)[j + 1] == y;
    forall k | 1 <= k < j + 2 && k < |r| - 1 && k % 2 == 1
      ensures mate2[r[k].id] == r[k + 1].id && mate2[r[k + 1].id] == r[k].id
    {
      if k < j {
        DistinctAt(r, n, k, j);
        DistinctAt(r, n, k, j + 1);
        DistinctAt(r, n, k + 1, j);
        DistinctAt(r, n, k + 1, j + 1);
      }
    }
  }

  lemma RematchedFirst(r: seq<Tree>, own: int, mate: seq<int>, n: nat)
    requires AllShape(r, n) && r != [] && |mate| == 2 * n
    ensures 0 <= r[0].id < |mate| && Rematched(r, 1, own, mate, mate[r[0].id := own])
  {
    DistinctRoots(r, n);
    hide AllShape;
    assert Roots(r)[0] == r[0].id;
  }

  lemma UntouchedTrans(s: set<int>, n: nat, outer0: seq<int>, outer1: seq<int>, outer2: seq<int>)
    requires Untouched(s, n, outer0, outer1) && Untouched(s, n, outer1, outer2)
    ensures Untouched(s, n, outer0, outer2)
  {
  }

  lemma NoMembers(kids: seq<Tree>)
    ensures Members(kids[..0]) == {}
  {
  }

  lemma MembersNext(kids: seq<Tree>, k: nat)
    requires k < |kids|
    ensures Members(kids[..k + 1]) == Members(kids[..k]) + {kids[k]}
  {
    assert kids[..k + 1] == kids[..k] + [kids[k]];
  }
}
