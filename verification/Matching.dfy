/** The state of the blossom algorithm and the operations that change its family of blossoms. */
module MatchingState {
  import opened Sequences
  import opened EdgeIndex
  import opened BlossomTree
  import opened BlossomFamily
  import opened BlossomPartition
  import opened BlossomCircuit
  import opened BlossomMates
  import opened MatchingFacts
  import opened BlossomExpand
  import opened BlossomDuals
  import opened BlossomUnblock
  import opened BlossomCrossing
  import opened BlossomRetrieve
  import opened Duality
  import opened Sums
  import opened GreedyMatching
  import opened MatchingStart
  import opened FreshBlossoms
  import opened Augmentation
  import opened AlternatingForest
  import opened ForestContraction
  import opened AugmentingPath
  import opened ForestGrowth
  import opened SearchOrder
  import opened Units
  import opened DualProgress
  import opened DualParity
  import opened DualRounds

  class Matching {
    const n: nat
    const m: int
    var deep: seq<seq<int>>
    var shallow: seq<seq<int>>
    var free: seq<int>
    var outer: seq<int>
    var tip: seq<int>
    var active: seq<bool>
    var kind: seq<int>
    var forest: seq<int>
    var root: seq<int>
    var blocked: seq<bool>
    var dual: seq<real>
    var slack: seq<real>
    var mate: seq<int>
    var forestList: seq<int>
    var visited: seq<bool>
    /** The outermost blossoms and vertices. */
    ghost var family: set<Tree>

    ghost predicate Sizes()
      reads this
    {
      && m == EdgeCount(n) && |slack| == m
      && |tip| == 2 * n && |kind| == 2 * n && |forest| == 2 * n && |root| == 2 * n && |blocked| == 2 * n
      && |dual| == 2 * n && |mate| == 2 * n
    }

    /** The arrays describe the family; `pending` are the numbers of blossoms that are being opened. */
    ghost predicate Structure(pending: set<int>)
      reads this
    {
      Whole(family, pending, n, active, free, deep, shallow, outer)
    }

    ghost predicate Valid()
      reads this
    {
      Sizes() && Structure({})
    }

    /** No blossoms, no matching, and costs lowered so that none is negative. */
    constructor (n: nat, costs: seq<real>)
      requires |costs| == EdgeCount(n)
      ensures this.n == n && Valid() && Certified(n, slack, slack, dual, deep) && TightFamily(family, slack, n)
      ensures Settled(Upto(n, 2 * n), n, outer, active, blocked, dual)
      ensures family == Vertices(n) && mate == seq(2 * n, _ => -1) && kind == seq(2 * n, _ => UNLABELED)
      ensures |outer| == 2 * n && |active| == 2 * n && |blocked| == 2 * n && |dual| == 2 * n
      ensures Blocking(n, active, blocked, dual)
      ensures exists shift :: Lowered(costs, slack, shift) && IsShift(shift, costs)
      ensures dual == seq(2 * n, _ => 0.0)
    {
      hide EdgeCount, Whole, Certified, TightFamily, Settled, Upto, Vertices, Blocking, Lowered;
      this.n := n;
      m := |costs|;
      free := seq(n, k => n + k);
      outer := seq(2 * n, i => i);
      deep := seq(2 * n, i => if i < n then [i] else []);
      shallow := seq(2 * n, _ => []);
      active := seq(2 * n, i => i < n);
      kind := seq(2 * n, _ => UNLABELED);
      forest := seq(2 * n, _ => -1);
      root := seq(2 * n, i => i);
      blocked := seq(2 * n, _ => false);
      dual := seq(2 * n, _ => 0.0);
      mate := seq(2 * n, _ => -1);
      tip := seq(2 * n, i => i);
      slack := costs;
      forestList := [];
      visited := [];
      family := Vertices(n);
      new;
      LowerCosts();
      StartBlocking(n, active, blocked, dual);
      StartWhole(n, active, free, deep, shallow, outer);
      StartTight(n, slack);
      StartCertified(n, slack, dual, deep);
      StartSettled(n, outer, active, blocked, dual);
    }

    /** Lowers all costs by the least one, if that is negative. */
    method LowerCosts()
      requires m == |slack|
      modifies `slack
      ensures |slack| == m && |old(slack)| == m && (forall i :: 0 <= i < m ==> slack[i] >= 0.0)
      ensures exists shift :: Lowered(old(slack), slack, shift) && IsShift(shift, old(slack))
    {
      var minEdge := 0.0;
      for i := 0 to m
        invariant minEdge <= 0.0 && IsShift(minEdge, slack) && forall k :: 0 <= k < i ==> minEdge <= slack[k]
      {
        if minEdge - slack[i] > 0.0 {
          minEdge := slack[i];
        }
      }
      for i := 0 to m
        invariant |slack| == m && forall k :: 0 <= k < i ==> slack[k] == old(slack)[k] - minEdge
        invariant forall k :: i <= k < m ==> slack[k] == old(slack)[k]
      {
        slack := slack[i := slack[i] - minEdge];
      }
      assert Lowered(old(slack), slack, minEdge);
    }

    /** outer of a tree's root and of its leaves becomes r. */
    method PointTo(s: int, r: int, ghost t: Tree)
      requires |deep| == 2 * n && |outer| == 2 * n && 0 <= s < 2 * n && t.id == s && Shape(t, n) && deep[s] == Leaves(t)
      modifies `outer
      ensures Pointed(t, r, old(outer), outer)
    {
      LeavesInArray(t, n);
      outer := outer[s := r];
      for j := 0 to |deep[s]|
        invariant |outer| == 2 * n
        invariant forall x :: 0 <= x < 2 * n ==> outer[x] == if x == s || x in deep[s][..j] then r else old(outer[x])
      {
        assert deep[s][j] in Leaves(t);
        outer := outer[deep[s][j] := r];
      }
      assert deep[s][..|deep[s]|] == Leaves(t);
    }

    /** Opens a blossom, and the blossoms inside, down to the vertices and the blossoms with a dual. */
    method DestroyBlossom(t: int, ghost tree: Tree, ghost pending: set<int>, ghost stops: set<int>)
      requires Sizes() && Structure(pending) && tree in family && tree.id == t
      requires Agrees(stops, Ids(tree), blocked, dual, n)
      modifies `outer, `active, `blocked, `free, `mate, `family
      ensures Sizes() && Structure(pending)
      ensures family == old(family) - {tree} + Kept(tree, stops)
      ensures Untouched(Ids(tree), n, old(outer), outer)
      ensures Destroyed(Opened(tree, stops), n, old(active), old(blocked), old(mate), active, blocked, mate)
      decreases tree, 2
    {
      hide EdgeCount, Outermost, Whole, Agrees, Kept, Opened, AllKept, AllOpened, Ids, Leaves, Fits, Shape, Destroyed,
        Untouched, StillPending;
      WholeSizes(family, pending, n, active, free, deep, shallow, outer);
      StopsHere(family, pending, n, active, free, deep, shallow, outer, tree, stops, blocked, dual);
      if t < n || (blocked[t] && dual[t] > 0.0) {
        DestroyedNothing(n, active, blocked, mate);
        UntouchedRefl(Ids(tree), n, outer);
        assert family == family - {tree} + {tree};
        return;
      }
      RemoveWhole(family, pending, n, active, free, deep, shallow, outer, tree);
      StartPending(pending, tree);
      OutermostKids(tree, deep, shallow, outer);
      ghost var active0, blocked0, mate0 := active, blocked, mate;
      family := family - {tree};
      DestroyKids(t, tree, pending, stops);
      FinishOpening(family, pending, n, active, free, deep, shallow, outer, tree);
      DestroyedRoot(n, tree, stops, active0, blocked0, mate0, active, blocked, mate);
      Retire(t);
    }

    /** A blossom number goes back to the free list. */
    method Retire(t: int)
      requires 0 <= t < |active| && t < |blocked| && t < |mate|
      modifies `active, `blocked, `free, `mate
      ensures active == old(active)[t := false] && blocked == old(blocked)[t := false]
      ensures free == old(free) + [t] && mate == old(mate)[t := -1]
    {
      active := active[t := false];
      blocked := blocked[t := false];
      free := free + [t];
      mate := mate[t := -1];
    }

    /** The loop over the circuit of a blossom that is being opened. */
    method DestroyKids(t: int, ghost tree: Tree, ghost pending: set<int>, ghost stops: set<int>)
      requires Sizes() && Shape(tree, n) && pending !! Ids(tree) && tree.id == t && 0 <= t < 2 * n
      requires Structure(StillPending(pending, tree, 0)) && |shallow| == 2 * n && |shallow[t]| == |tree.kids|
      requires forall i :: 0 <= i < |tree.kids| ==>
        shallow[t][i] == tree.kids[i].id && Fits(tree.kids[i], deep, shallow, outer)
      requires Agrees(stops, Ids(tree), blocked, dual, n)
      modifies `outer, `active, `blocked, `free, `mate, `family
      ensures Sizes() && Structure(StillPending(pending, tree, |tree.kids|))
      ensures family == old(family) + AllKept(tree.kids, stops)
      ensures Untouched(Ids(tree), n, old(outer), outer)
      ensures Destroyed(AllOpened(tree.kids, stops), n, old(active), old(blocked), old(mate), active, blocked, mate)
      decreases tree, 1
    {
      hide EdgeCount, Outermost, Whole, Agrees, Kept, Opened, AllKept, AllOpened, Ids, Leaves, Fits, Shape, Destroyed,
        Untouched, StillPending;
      ghost var outer0, active0, blocked0, mate0 := outer, active, blocked, mate;
      ghost var kids := tree.kids;
      WholeSizes(family, StillPending(pending, tree, 0), n, active, free, deep, shallow, outer);
      DestroyedNothing(n, active, blocked, mate);
      UntouchedRefl(Ids(tree), n, outer);
      NoKids(kids, stops);
      for k := 0 to |shallow[t]|
        invariant Sizes() && Structure(StillPending(pending, tree, k))
        invariant family == old(family) + AllKept(kids[..k], stops)
        invariant forall j :: k <= j < |kids| ==> Fits(kids[j], deep, shallow, outer)
        invariant Untouched(Ids(tree), n, outer0, outer)
        invariant Destroyed(AllOpened(kids[..k], stops), n, active0, blocked0, mate0, active, blocked, mate)
      {
        ghost var outer1, active1, blocked1, mate1 := outer, active, blocked, mate;
        AgreesLater(tree, n, k, stops, active0, blocked0, mate0, active, blocked, mate, dual);
        DestroyKid(shallow[t][k], tree, k, pending, stops);
        KeptNext(kids, k, stops);
        LaterFit(tree, n, k, deep, shallow, outer1, outer);
        UntouchedKid(tree, n, k, outer0, outer1, outer);
        DestroyedTrans(n, AllOpened(kids[..k], stops), Opened(kids[k], stops),
          active0, blocked0, mate0, active1, blocked1, mate1, active, blocked, mate);
      }
      assert kids[..|kids|] == kids;
    }

    /** One child of a blossom that is being opened becomes outermost. */
    method AdoptKid(s: int, ghost tree: Tree, ghost k: nat, ghost pending: set<int>)
      requires Sizes() && Shape(tree, n) && k < |tree.kids| && s == tree.kids[k].id && pending !! Ids(tree)
      requires Structure(StillPending(pending, tree, k)) && Fits(tree.kids[k], deep, shallow, outer)
      modifies `outer, `family
      ensures Sizes() && Structure(StillPending(pending, tree, k + 1))
      ensures tree.kids[k] !in old(family) && family == old(family) + {tree.kids[k]}
      ensures Untouched(Ids(tree.kids[k]), n, old(outer), outer)
    {
      ghost var kid := tree.kids[k];
      hide EdgeCount, Whole, Ids, AllIds, Leaves, Shape, Untouched, StillPending, Pointed;
      KidBounds(tree, n, k);
      NextPending(pending, tree, n, k);
      ghost var outer0, pending0 := outer, StillPending(pending, tree, k);
      WholeSizes(family, pending0, n, active, free, deep, shallow, outer);
      PointTo(s, s, kid);
      hide Fits;
      AdoptWhole(family, pending0, n, active, free, deep, shallow, outer0, outer, kid);
      family := family + {kid};
      UntouchedRefl(Ids(kid), n, outer);
      PointedUntouched(kid, n, s, outer0, outer, outer);
    }

    /** One child of a blossom that is being opened becomes outermost, and is opened in turn. */
    method DestroyKid(s: int, ghost tree: Tree, ghost k: nat, ghost pending: set<int>, ghost stops: set<int>)
      requires Sizes() && Shape(tree, n) && k < |tree.kids| && s == tree.kids[k].id && pending !! Ids(tree)
      requires Structure(StillPending(pending, tree, k)) && Fits(tree.kids[k], deep, shallow, outer)
      requires Agrees(stops, Ids(tree.kids[k]), blocked, dual, n)
      modifies `outer, `active, `blocked, `free, `mate, `family
      ensures Sizes() && Structure(StillPending(pending, tree, k + 1))
      ensures family == old(family) + Kept(tree.kids[k], stops)
      ensures Untouched(Ids(tree.kids[k]), n, old(outer), outer)
      ensures Destroyed(Opened(tree.kids[k], stops), n, old(active), old(blocked), old(mate), active, blocked, mate)
      decreases tree, 0
    {
      hide EdgeCount, Whole, Agrees, Kept, Opened, Ids, Shape, Destroyed, Untouched, StillPending, Fits;
      ghost var outer0, family0 := outer, family;
      AdoptKid(s, tree, k, pending);
      ghost var outer1 := outer;
      DestroyBlossom(s, tree.kids[k], StillPending(pending, tree, k + 1), stops);
      assert family0 + {tree.kids[k]} - {tree.kids[k]} == family0;
      UntouchedTrans(Ids(tree.kids[k]), n, outer0, outer1, outer);
    }

    /** Forgets the alternating forest, opens every blossom without a dual and labels the unmatched. */
    method Reset(ghost stops: set<int>)
      requires Valid() && Agrees(stops, Upto(0, 2 * n), blocked, dual, n)
      modifies `outer, `active, `blocked, `free, `mate, `family, `forest, `root, `kind, `forestList, `visited
      ensures Valid() && Agrees(stops, Upto(0, 2 * n), blocked, dual, n)
      ensures family == KeptOf(old(family), stops)
      ensures forall i :: 0 <= i < 2 * n ==> forest[i] == -1 && root[i] == i
      ensures forall i :: 0 <= i < 2 * n ==> mate[i] == old(mate[i]) || (i >= n && !active[i] && mate[i] == -1)
      ensures Labelled(n, n, outer, mate, kind) && IsWorkList(forestList, n, outer, mate)
      ensures SeenAreEven(visited, kind, n)
      ensures |old(blocked)| == 2 * n && forall j :: 0 <= j < 2 * n && blocked[j] ==> old(blocked[j])
      ensures Labels(old(kind), n) ==> Labels(kind, n)
    {
      OpenAll(stops);
      LabelUnmatched();
    }

    /** The first loop of Reset. */
    method OpenAll(ghost stops: set<int>)
      requires Valid() && Agrees(stops, Upto(0, 2 * n), blocked, dual, n)
      modifies `outer, `active, `blocked, `free, `mate, `family, `forest, `root
      ensures Valid() && Agrees(stops, Upto(0, 2 * n), blocked, dual, n)
      ensures family == KeptOf(old(family), stops)
      ensures forall i :: 0 <= i < 2 * n ==> forest[i] == -1 && root[i] == i
      ensures forall i :: 0 <= i < 2 * n ==> mate[i] == old(mate[i]) || (i >= n && !active[i] && mate[i] == -1)
      ensures |old(blocked)| == 2 * n && forall j :: 0 <= j < 2 * n && blocked[j] ==> old(blocked[j])
    {
      hide EdgeCount, Whole, Agrees, Kept, KeptOf, Upto;
      WholeSizes(family, {}, n, active, free, deep, shallow, outer);
      for i := 0 to 2 * n
        invariant Valid() && Agrees(stops, Upto(0, 2 * n), blocked, dual, n)
        invariant |outer| == 2 * n && |active| == 2 * n
        invariant KeptOf(family, stops) == KeptOf(old(family), stops)
        invariant forall j :: 0 <= j < i ==> forest[j] == -1 && root[j] == j
        invariant forall t :: t in family ==> t.id < n || t.id >= i || t.id in stops
        invariant forall j :: 0 <= j < 2 * n ==> mate[j] == old(mate[j]) || (j >= n && !active[j] && mate[j] == -1)
        invariant |old(blocked)| == 2 * n && forall j :: 0 <= j < 2 * n && blocked[j] ==> old(blocked[j])
      {
        forest := forest[i := -1];
        root := root[i := i];
        if i >= n && active[i] && outer[i] == i {
          OpenOne(i, stops);
        } else {
          NotOutermost(family, n, active, free, deep, shallow, outer, i);
        }
      }
      AllStopped(family, n, active, free, deep, shallow, outer, stops);
    }

    /** One outermost blossom is opened. */
    method OpenOne(i: int, ghost stops: set<int>)
      requires Valid() && Agrees(stops, Upto(0, 2 * n), blocked, dual, n)
      requires n <= i < 2 * n && |active| == 2 * n && active[i] && |outer| == 2 * n && outer[i] == i
      modifies `outer, `active, `blocked, `free, `mate, `family
      ensures Valid() && Agrees(stops, Upto(0, 2 * n), blocked, dual, n) && |outer| == 2 * n && |active| == 2 * n
      ensures KeptOf(family, stops) == KeptOf(old(family), stops)
      ensures forall t :: t in family ==> (t in old(family) && t.id != i) || t.id < n || t.id in stops
      ensures forall j :: 0 <= j < 2 * n ==> (active[j] ==> old(active[j]))
      ensures forall j :: 0 <= j < 2 * n ==> mate[j] == old(mate[j]) || (j >= n && !active[j] && mate[j] == -1)
      ensures |old(blocked)| == 2 * n && forall j :: 0 <= j < 2 * n && blocked[j] ==> old(blocked[j])
    {
      ghost var tree := OutermostTree(family, {}, n, active, free, deep, shallow, outer, i);
      ghost var family0, blocked0 := family, blocked;
      AgreesTree(family, n, active, free, deep, shallow, outer, tree, stops, blocked, dual);
      DestroyBlossom(i, tree, {}, stops);
      hide Whole, EdgeCount;
      AgreesAfter(family0, n, tree, stops, old(active), blocked0, old(mate), active, blocked, mate, dual);
      KeptOfStep(family0, stops, tree);
    }

    /** The second part of Reset: unmatched outermost nodes become even and are put on the work list. */
    method LabelUnmatched()
      requires Valid()
      modifies `kind, `forestList, `visited
      ensures Sizes() && Labelled(n, n, outer, mate, kind) && IsWorkList(forestList, n, outer, mate)
      ensures SeenAreEven(visited, kind, n)
      ensures Labels(old(kind), n) ==> Labels(kind, n)
    {
      hide EdgeCount;
      OuterInRange(family, n, active, free, deep, shallow, outer);
      hide Whole, Labelled, Listed, Labels;
      visited := seq(2 * n, _ => false);
      forestList := [];
      ListedNothing(n, outer, mate, kind, visited);
      for i := 0 to n
        invariant Sizes() && |visited| == 2 * n && (Labels(old(kind), n) ==> Labels(kind, n))
        invariant Labelled(i, n, outer, mate, kind) && Listed(forestList, i, n, outer, mate, visited)
      {
        LabelOne(i);
      }
      SeenStart(forestList, n, outer, mate, kind, visited);
      ListedAll(forestList, n, outer, mate, visited);
    }

    /** The outermost node of one vertex gets its label, and its first unmatched vertex is put on the work list. */
    method LabelOne(i: int)
      requires 0 <= i < n && Sizes() && |visited| == 2 * n
      requires Labelled(i, n, outer, mate, kind) && Listed(forestList, i, n, outer, mate, visited)
      modifies `kind, `forestList, `visited
      ensures Sizes() && |visited| == 2 * n && (Labels(old(kind), n) ==> Labels(kind, n))
      ensures Labelled(i + 1, n, outer, mate, kind) && Listed(forestList, i + 1, n, outer, mate, visited)
    {
      hide Labelled, Listed;
      ListNext(forestList, i, n, outer, mate, visited, kind);
      if mate[outer[i]] == -1 {
        kind := kind[outer[i] := EVEN];
        if !visited[outer[i]] {
          forestList := forestList + [i];
        }
        visited := visited[outer[i] := true];
      } else {
        kind := kind[outer[i] := UNLABELED];
      }
    }

    /** The outermost nodes on the way from u to its root: alternating, over edges without slack. */
    ghost predicate IsForestPath(u: int, path: seq<int>)
      reads this
    {
      && RootPath(path, n, outer, forest) && Alternates(path, n, kind) && PathTight(path, deep, slack, n)
      && 0 <= u < n && path[0] == outer[u]
    }

    /** The first node on the way up from v that is also on the way up from u. */
    method FindTip(u: int, v: int, ghost up: seq<int>, ghost vp: seq<int>) returns (tipNode: int, ghost a: int,
                   ghost b: int)
      requires RootPath(up, n, outer, forest) && RootPath(vp, n, outer, forest) && up[|up| - 1] == vp[|vp| - 1]
      requires 0 <= u < n && 0 <= v < n && up[0] == outer[u] && vp[0] == outer[v]
      ensures Meets(up, a, vp, b) && tipNode == up[a]
    {
      hide RootPath;
      PathBounds(up, n, outer, forest);
      PathBounds(vp, n, outer, forest);
      var isInPath := seq(2 * n, _ => false);
      var u_ := u;
      ghost var k := 0;
      while u_ != -1
        invariant 0 <= k <= |up| && |isInPath| == 2 * n && (u_ == -1 <==> k == |up|)
        invariant k < |up| ==> 0 <= u_ < n && outer[u_] == up[k]
        invariant forall x :: 0 <= x < 2 * n ==> (isInPath[x] <==> x in up[..k])
        decreases |up| - k
      {
        PathNext(up, n, outer, forest, k);
        isInPath := isInPath[outer[u_] := true];
        assert up[..k + 1] == up[..k] + [up[k]];
        u_ := forest[outer[u_]];
        k := k + 1;
      }
      assert up[..k] == up;
      var v_ := outer[v];
      b := 0;
      assert up[|up| - 1] in up;
      while !isInPath[v_]
        invariant 0 <= b < |vp| && v_ == vp[b] && forall j :: 0 <= j < b ==> vp[j] !in up
        decreases |vp| - b
      {
        PathNext(vp, n, outer, forest, b);
        v_ := outer[forest[v_]];
        b := b + 1;
      }
      tipNode := v_;
      a :| 0 <= a < |up| && up[a] == v_;
    }

    /** The circuit from the tip down to u and back up from v. */
    method WalkCircuit(u: int, v: int, t: int, ghost up: seq<int>, ghost vp: seq<int>, ghost a: int, ghost b: int)
      requires RootPath(up, n, outer, forest) && RootPath(vp, n, outer, forest) && Meets(up, a, vp, b)
      requires 0 <= u < n && 0 <= v < n && up[0] == outer[u] && vp[0] == outer[v]
      requires 0 <= t < |shallow| && t < |tip| && tip[t] == up[a]
      modifies `shallow
      ensures shallow == old(shallow)[t := Circuit(up, a, vp, b)]
    {
      hide RootPath;
      PathBounds(up, n, outer, forest);
      PathBounds(vp, n, outer, forest);
      var u_ := outer[u];
      var circuit := [u_];
      ghost var k := 0;
      while u_ != tip[t]
        invariant 0 <= k <= a && u_ == up[k] && circuit == Reversed(up[..k + 1]) && shallow == old(shallow)
        decreases a - k
      {
        PathNext(up, n, outer, forest, k);
        u_ := outer[forest[u_]];
        circuit := [u_] + circuit;
        k := k + 1;
        assert up[..k + 1] == up[..k] + [up[k]];
      }
      PathDistinct(up, n, outer, forest, k, a);
      shallow := shallow[t := circuit];
      var v_ := outer[v];
      k := 0;
      while v_ != tip[t]
        invariant 0 <= k <= b && v_ == vp[k] && |shallow| == |old(shallow)| && shallow[t] == circuit + vp[..k]
        invariant forall i :: 0 <= i < |shallow| && i != t ==> shallow[i] == old(shallow)[i]
        decreases b - k
      {
        PathDistinct(vp, n, outer, forest, k, b);
        PathNext(vp, n, outer, forest, k);
        assert vp[..k + 1] == vp[..k] + [vp[k]];
        shallow := shallow[t := shallow[t] + [v_]];
        v_ := outer[forest[v_]];
        k := k + 1;
      }
      PathDistinct(vp, n, outer, forest, k, b);
      assert shallow[t] == Circuit(up, a, vp, b);
      assert shallow == old(shallow)[t := Circuit(up, a, vp, b)];
    }

    /** The vertices of one node of the circuit join the new blossom. */
    method Absorb(s: int, t: int, ghost kid: Tree)
      requires |deep| == 2 * n && |outer| == 2 * n && 0 <= s < 2 * n && 0 <= t < 2 * n && s != t
      requires kid.id == s && Shape(kid, n) && deep[s] == Leaves(kid)
      modifies `deep, `outer
      ensures deep == old(deep)[t := old(deep)[t] + Leaves(kid)] && Pointed(kid, t, old(outer), outer)
    {
      LeavesInArray(kid, n);
      hide Leaves;
      outer := outer[s := t];
      for j := 0 to |deep[s]|
        invariant |outer| == 2 * n && |deep| == 2 * n && deep[s] == Leaves(kid)
        invariant deep[t] == old(deep)[t] + Leaves(kid)[..j]
        invariant forall i :: 0 <= i < 2 * n && i != t ==> deep[i] == old(deep)[i]
        invariant forall x :: 0 <= x < 2 * n ==> outer[x] == if x == s || x in Leaves(kid)[..j] then t
          else old(outer[x])
      {
        assert deep[s][j] in Leaves(kid);
        assert Leaves(kid)[..j + 1] == Leaves(kid)[..j] + [deep[s][j]];
        deep := deep[t := deep[t] + [deep[s][j]]];
        outer := outer[deep[s][j] := t];
      }
      assert Leaves(kid)[..|Leaves(kid)|] == Leaves(kid);
      assert deep == old(deep)[t := old(deep)[t] + Leaves(kid)];
    }

    /** All nodes of the circuit join the new blossom. */
    method AbsorbAll(t: int, ghost kids: seq<Tree>)
      requires |deep| == 2 * n && |outer| == 2 * n && |shallow| == 2 * n && 0 <= t < 2 * n && deep[t] == []
      requires shallow[t] == Roots(kids)
      requires forall i :: 0 <= i < |kids| ==>
        0 <= kids[i].id < 2 * n && kids[i].id != t && Shape(kids[i], n) && deep[kids[i].id] == Leaves(kids[i])
      modifies `deep, `outer
      ensures deep == old(deep)[t := AllLeaves(kids)] && Led(kids, t, old(outer), outer)
    {
      hide Leaves, Shape, Led, Pointed;
      ghost var outer0 := outer;
      LedNothing(t, outer);
      assert kids[..0] == [];
      for k := 0 to |shallow[t]|
        invariant |outer| == 2 * n && |deep| == 2 * n && deep == old(deep)[t := AllLeaves(kids[..k])]
        invariant Led(kids[..k], t, outer0, outer)
      {
        ghost var outer1 := outer;
        Absorb(shallow[t][k], t, kids[k]);
        LedNext(kids, k, t, outer0, outer1, outer);
        LedSize(kids[..k + 1], t, outer0, outer);
      }
      assert kids[..|kids|] == kids;
    }

    /** Contracts the odd circuit that the edge u - v closes in the alternating forest. The paths up and vp
        lead from u and v to their common root. */
    method Blossom(u: int, v: int, ghost up: seq<int>, ghost vp: seq<int>)
      returns (t: int, ghost kids: seq<Tree>, ghost a: int, ghost b: int)
      requires Valid() && TightFamily(family, slack, n) && Tight(slack, n, u, v)
      requires IsForestPath(u, up) && IsForestPath(v, vp) && outer[u] != outer[v] && up[|up| - 1] == vp[|vp| - 1]
      modifies `free, `tip, `shallow, `deep, `outer, `forest, `kind, `root, `active, `mate, `family
      ensures n <= t < 2 * n && t !in free && Valid() && TightFamily(family, slack, n)
      ensures Meets(up, a, vp, b) && Picked(old(family), kids) && Roots(kids) == Circuit(up, a, vp, b)
      ensures family == old(family) - Members(kids) + {Tree(t, kids)}
      ensures 0 <= up[a] < 2 * n && |old(tip)| == 2 * n && |old(kind)| == 2 * n && |old(mate)| == 2 * n
      ensures |old(forest)| == 2 * n && |old(root)| == 2 * n
      ensures tip == old(tip)[t := up[a]] && kind == old(kind)[t := EVEN] && mate == old(mate)[t := old(mate)[up[a]]]
      ensures forest == old(forest)[t := old(forest)[up[a]]] && root == old(root)[t := old(root)[up[a]]]
      ensures |deep| == 2 * n && |old(deep)| == 2 * n
      ensures forall j :: 0 <= j < 2 * n && j != t ==> deep[j] == old(deep)[j]
    {
      hide EdgeCount, Whole, Shape, Ids, Leaves, AllLeaves, AllIds, Fits, Tight, RootPath, Alternates, PathTight, Meets,
        Circuit,
        TightFamily, Led, Picked, Joined, RingOf;
      WholeSizes(family, {}, n, active, free, deep, shallow, outer);
      NeverEmpty(family, n, active, free, deep, shallow, outer);
      PathBounds(up, n, outer, forest);
      t := free[|free| - 1];
      ghost var free0 := free;
      free := free[..|free| - 1];
      assert free + [t] == free0;
      var tipNode;
      tipNode, a, b := FindTip(u, v, up, vp);
      MeetBounds(up, a, vp, b);
      FreeNumber(family, n, active, free0, deep, shallow, outer, t);
      tip := tip[t := tipNode];
      CircuitIsOdd(up, a, vp, b, n, outer, forest, kind);
      JoinedByEdge(family, n, active, free0, deep, shallow, outer, slack, u, v);
      CircuitIsTight(up, a, vp, b, deep, slack, n);
      kids := CircuitTrees(family, n, active, free0, deep, shallow, outer, forest, up, a, vp, b, u, v);
      NewFamilyTight(family, kids, t, deep, slack, n);
      Contract(u, v, t, up, vp, a, b, kids);
    }

    /** The number t, just taken from the free list, becomes the blossom of the circuit. */
    method Contract(u: int, v: int, t: int, ghost up: seq<int>, ghost vp: seq<int>, ghost a: int, ghost b: int,
                    ghost kids: seq<Tree>)
      requires Sizes() && n <= t < 2 * n && 0 <= a < |up| && tip[t] == up[a] && 0 <= tip[t] < 2 * n
      requires Whole(family, {}, n, active, free + [t], deep, shallow, outer)
      requires RootPath(up, n, outer, forest) && RootPath(vp, n, outer, forest) && Meets(up, a, vp, b)
      requires 0 <= u < n && 0 <= v < n && up[0] == outer[u] && vp[0] == outer[v]
      requires Picked(family, kids) && Roots(kids) == Circuit(up, a, vp, b) && |kids| >= 3 && |kids| % 2 == 1
      requires |deep| == 2 * n
      requires forall i :: 0 <= i < |kids| ==>
        0 <= kids[i].id < 2 * n && Shape(kids[i], n) && deep[kids[i].id] == Leaves(kids[i])
      modifies `shallow, `deep, `outer, `forest, `kind, `root, `active, `mate, `family
      ensures Valid() && t !in free && family == old(family) - Members(kids) + {Tree(t, kids)}
      ensures |old(kind)| == 2 * n && |old(mate)| == 2 * n && |old(forest)| == 2 * n && |old(root)| == 2 * n
      ensures kind == old(kind)[t := EVEN] && mate == old(mate)[t := old(mate)[tip[t]]]
      ensures forest == old(forest)[t := old(forest)[tip[t]]] && root == old(root)[t := old(root)[tip[t]]]
      ensures |deep| == 2 * n && |old(deep)| == 2 * n
      ensures forall j :: 0 <= j < 2 * n && j != t ==> deep[j] == old(deep)[j]
    {
      hide EdgeCount, Whole, Shape, Ids, Leaves, AllLeaves, AllIds, Fits, Tight, RootPath, Meets, Circuit, Led, Picked;
      ghost var free0, outer0, deep0, shallow0 := free + [t], outer, deep, shallow;
      WholeSizes(family, {}, n, active, free0, deep, shallow, outer);
      WalkCircuit(u, v, t, up, vp, a, b);
      deep := deep[t := []];
      KidsNotFree(family, n, active, free0, deep0, shallow0, outer, kids, t);
      AbsorbAll(t, kids);
      MergeWhole(family, n, active, free0, deep0, shallow0, outer0, kids, t, outer);
      assert free0[..|free0| - 1] == free;
      assert deep == deep0[t := AllLeaves(kids)];
      Crown(t);
      family := family - Members(kids) + {Tree(t, kids)};
      StillFree(family, n, active, free, deep, shallow, outer, t);
    }

    /** The new blossom takes over the place of its tip in the forest. */
    method Crown(t: int)
      requires Sizes() && |active| == 2 * n && |outer| == 2 * n && 0 <= t < 2 * n && 0 <= tip[t] < 2 * n
      modifies `outer, `forest, `kind, `root, `active, `mate
      ensures forest == old(forest)[t := old(forest)[tip[t]]] && kind == old(kind)[t := EVEN]
      ensures root == old(root)[t := old(root)[tip[t]]] && mate == old(mate)[t := old(mate)[tip[t]]]
      ensures active == old(active)[t := true] && outer == old(outer)[t := t]
    {
      hide EdgeCount;
      forest := forest[t := forest[tip[t]]];
      kind := kind[t := EVEN];
      root := root[t := root[tip[t]]];
      active := active[t := true];
      outer := outer[t := t];
      mate := mate[t := mate[tip[t]]];
    }

    /** The edge without slack of least place between a node and its mate. */
    method FindEdge(u: int, v: int) returns (p: int, q: int)
      requires Sizes() && |deep| == 2 * n && 0 <= u < 2 * n && 0 <= v < 2 * n && Linked(slack, n, deep[u], deep[v])
      requires forall x :: x in deep[u] || x in deep[v] ==> 0 <= x < n
      ensures p in deep[u] && q in deep[v] && Tight(slack, n, p, q)
      ensures forall x, y :: x in deep[u] && y in deep[v] && Tight(slack, n, x, y) ==>
        PlaceOf(n, p, q) <= PlaceOf(n, x, y)
    {
      hide LeastEdge, Linked, EdgeCount;
      var s, t := deep[u], deep[v];
      var index := m;
      p, q := -1, -1;
      LeastEdgeStart(s, t, slack, n);
      for i := 0 to |s|
        invariant LeastEdge(s, t, i, 0, slack, n, index, p, q)
      {
        for j := 0 to |t|
          invariant LeastEdge(s, t, i, j, slack, n, index, p, q)
        {
          LeastEdgeNext(s, t, i, j, slack, n, index, p, q);
          assert s[i] in s && t[j] in t;
          if IsAdjacent(slack, n, s[i], t[j]) && GetEdgeIndex(n, s[i], t[j]) < index {
            index := GetEdgeIndex(n, s[i], t[j]);
            p := s[i];
            q := t[j];
          }
        }
        LeastEdgeRow(s, t, i, slack, n, index, p, q);
      }
      LeastEdgeEnd(s, t, slack, n, index, p, q);
    }

    /** The search for a vertex in a deep list. */
    method Holds(s: seq<int>, p: int) returns (found: bool)
      ensures found <==> p in s
    {
      found := false;
      for j := 0 to |s|
        invariant found <==> p in s[..j]
      {
        found := found || s[j] == p;
      }
      assert s[..|s|] == s;
    }

    /** Turns the circuit of u until the child with the vertex p comes first. */
    method TurnTo(u: int, p: int, ghost kids: seq<Tree>) returns (ghost k: int)
      requires |deep| == 2 * n && |shallow| == 2 * n && 0 <= u < 2 * n && shallow[u] == Roots(kids)
      requires p in AllLeaves(kids)
      requires forall i :: 0 <= i < |kids| ==> 0 <= kids[i].id < 2 * n && deep[kids[i].id] == Leaves(kids[i])
      modifies `shallow
      ensures 0 <= k < |kids| && p in Leaves(kids[k]) && shallow == old(shallow)[u := Roots(Turned(kids, k))]
    {
      hide *;
      LeafOfKid(kids, p);
      ghost var w :| 0 <= w < |kids| && p in Leaves(kids[w]);
      k := 0;
      TurnedRoots(kids, 0);
      var found := false;
      while !found
        invariant 0 <= k <= w && |shallow| == 2 * n && shallow[u] == Roots(Turned(kids, k))
        invariant forall i :: 0 <= i < 2 * n && i != u ==> shallow[i] == old(shallow)[i]
        invariant found ==> p in Leaves(kids[k])
        decreases w - k, !found
      {
        TurnedRoots(kids, k);
        var si := shallow[u][0];
        found := Holds(deep[si], p);
        if !found {
          shallow := shallow[u := shallow[u][1..] + [si]];
          k := k + 1;
        }
      }
      assert shallow == old(shallow)[u := Roots(Turned(kids, k))];
    }

    /** The mates around the turned circuit of u. */
    method Rematch(u: int, ghost r: seq<Tree>)
      requires Sizes() && |shallow| == 2 * n && 0 <= u < 2 * n && shallow[u] == Roots(r) && AllShape(r, n)
      requires |r| % 2 == 1
      requires u !in Roots(r)
      modifies `mate
      ensures |mate| == 2 * n && Rematched(r, |r|, old(mate)[u], old(mate), mate)
    {
      hide AllShape, Rematched, EdgeCount;
      var circuit := shallow[u];
      RematchedFirst(r, mate[u], mate, n);
      mate := mate[circuit[0] := mate[u]];
      var j := 1;
      while j < |circuit|
        invariant 1 <= j <= |circuit| && j % 2 == 1 && |mate| == 2 * n
        invariant Rematched(r, j, old(mate)[u], old(mate), mate)
      {
        RematchedNext(r, j, old(mate)[u], old(mate), mate, n);
        mate := mate[circuit[j] := circuit[j + 1]][circuit[j + 1] := circuit[j]];
        j := j + 2;
      }
    }

    /** All children of a circuit become outermost and the blossom's number is released. */
    method OpenCircuit(u: int, ghost tree: Tree)
      requires Sizes() && Structure(Ids(tree)) && Shape(tree, n) && tree.id == u && 0 <= u < 2 * n && tree.kids != []
      requires |shallow| == 2 * n && shallow[u] == Roots(tree.kids)
      requires forall i :: 0 <= i < |tree.kids| ==> Fits(tree.kids[i], deep, shallow, outer)
      modifies `outer, `active, `free, `family
      ensures Valid() && family == old(family) + Members(tree.kids)
      ensures Untouched(Ids(tree), n, old(outer), outer)
      ensures |old(active)| == 2 * n && active == old(active)[u := false]
    {
      hide EdgeCount, Whole, Ids, Shape, Untouched, StillPending, Fits, Members;
      ghost var kids, outer0 := tree.kids, outer;
      StartPending({}, tree);
      assert {} + Ids(tree) == Ids(tree);
      WholeSizes(family, Ids(tree), n, active, free, deep, shallow, outer);
      UntouchedRefl(Ids(tree), n, outer);
      NoMembers(kids);
      for k := 0 to |shallow[u]|
        invariant Sizes() && Structure(StillPending({}, tree, k))
        invariant family == old(family) + Members(kids[..k])
        invariant forall j :: k <= j < |kids| ==> Fits(kids[j], deep, shallow, outer)
        invariant Untouched(Ids(tree), n, outer0, outer) && active == old(active) && free == old(free)
      {
        ghost var outer1 := outer;
        AdoptKid(shallow[u][k], tree, k, {});
        MembersNext(kids, k);
        LaterFit(tree, n, k, deep, shallow, outer1, outer);
        UntouchedKid(tree, n, k, outer0, outer1, outer);
      }
      assert kids[..|kids|] == kids;
      FinishOpening(family, {}, n, active, free, deep, shallow, outer, tree);
      active := active[u := false];
      free := free + [u];
    }

    /** Matches a node to its partner over one edge without slack, and opens it if it is not blocked: of the
        nodes that remain, one is matched to the partner and the others among themselves. */
    method Expand(u: int, expandBlocked: bool, ghost tree: Tree, ghost partner: Tree,
                  ghost stops: set<int>) returns (ghost piece: Tree)
      requires Valid() && tree in family && partner in family && tree != partner && tree.id == u
      requires |mate| == 2 * n && |outer| == 2 * n && 0 <= u < 2 * n && 0 <= mate[u] < 2 * n
      requires outer[mate[u]] == partner.id
      requires Linked(slack, n, Leaves(tree), Leaves(partner)) && TightTree(tree, slack, n)
      requires Blocks(stops, Ids(tree), blocked, expandBlocked, n)
      modifies `shallow, `outer, `active, `free, `mate, `family
      ensures Valid() && family == old(family) - {tree} + Kept(tree, stops)
      ensures Untouched(Ids(tree), n, old(outer), outer) && MatesOutside(Ids(tree) + {partner.id}, old(mate), mate)
      ensures MatchedExcept(Kept(tree, stops), piece, partner, mate, slack, n) && AllOnce(tree, stops, mate, slack, n)
      decreases tree, 4
    {
      hide EdgeCount, Whole, Shape, Ids, Leaves, Fits, Tight, Linked, TightTree, Untouched, MatesOutside, Kept,
        MatchedExcept, Outermost, AllOnce;
      WholeSizes(family, {}, n, active, free, deep, shallow, outer);
      TreeFacts(family, n, active, free, deep, shallow, outer, tree);
      TreeFacts(family, n, active, free, deep, shallow, outer, partner);
      FamilyApart(family, n, active, free, deep, shallow, outer, tree, partner);
      var v := outer[mate[u]];
      var p, q := FindEdge(u, v);
      MutualMade(tree, partner, mate, p, q, slack, n);
      mate := mate[u := q];
      mate := mate[v := p];
      MatesWeaken({tree.id, partner.id}, Ids(tree) + {partner.id}, old(mate), mate);
      if u < n || (blocked[u] && !expandBlocked) {
        StaysClosed(tree, stops, n);
        ClosedOnce(tree, partner, stops, mate, slack, n);
        UntouchedRefl(Ids(tree), n, outer);
        piece := tree;
        return;
      }
      piece := OpenMatched(u, expandBlocked, p, q, tree, partner, stops, old(mate));
    }

    /** The rest of the expansion, for a blossom that is opened. */
    method OpenMatched(u: int, expandBlocked: bool, p: int, q: int, ghost tree: Tree, ghost partner: Tree,
                       ghost stops: set<int>, ghost mate0: seq<int>)
      returns (ghost piece: Tree)
      requires Valid() && tree in family && partner in family && tree != partner && tree.id == u && n <= u < 2 * n
      requires |mate| == 2 * n && mate[u] == q && MatesOutside(Ids(tree) + {partner.id}, mate0, mate)
      requires p in Leaves(tree) && q in Leaves(partner) && Tight(slack, n, p, q) && TightTree(tree, slack, n)
      requires Blocks(stops, Ids(tree), blocked, expandBlocked, n) && tree.id !in stops
      modifies `shallow, `outer, `active, `free, `mate, `family
      ensures Valid() && family == old(family) - {tree} + Kept(tree, stops)
      ensures Untouched(Ids(tree), n, old(outer), outer) && MatesOutside(Ids(tree) + {partner.id}, mate0, mate)
      ensures MatchedExcept(Kept(tree, stops), piece, partner, mate, slack, n) && AllOnce(tree, stops, mate, slack, n)
      decreases tree, 3
    {
      hide EdgeCount, Whole, Shape, Ids, Leaves, Fits, Tight, Linked, TightTree, Untouched, MatesOutside, Kept, AllKept,
        MatchedExcept,
        Outermost, Turned, Rematched, Members, Blocks, AllIds, AllShape, Picked, Led, AllOnce, Roots, Mutual, Ring;
      ghost var outer0, family0, mate1, active0, free0 := outer, family, mate, active, free;
      TreeFacts(family, n, active, free, deep, shallow, outer, tree);
      TreeFacts(family, n, active, free, deep, shallow, outer, partner);
      FamilyApart(family, n, active, free, deep, shallow, outer, tree, partner);
      RemoveWhole(family, {}, n, active, free, deep, shallow, outer, tree);
      assert {} + Ids(tree) == Ids(tree);
      WholeSizes(family, {}, n, active, free, deep, shallow, outer);
      OpenedKids(tree, n, deep, shallow, outer, stops);
      family := family - {tree};
      ghost var shallow0 := shallow;
      ghost var k := TurnTo(u, p, tree.kids);
      ghost var r := Turned(tree.kids, k);
      ghost var turned := Tree(u, r);
      TurnedWhole(family, n, active, free, deep, shallow0, outer, tree, k);
      TurnedRoots(tree.kids, k);
      ShapeKids(turned, n);
      Rematch(u, r);
      OpenCircuit(u, turned);
      ghost var outer1, mate2 := outer, mate;
      CircuitReady(family0, n, active0, free0, deep, shallow0, outer0, tree, k, stops, blocked, expandBlocked, slack,
        partner);
      piece := ExpandCircuit(u, expandBlocked, p, q, tree, k, partner, stops, mate1, family0 - {tree});
      TurnedKept(tree.kids, k, stops);
      AllOnceMade(tree, partner, piece, stops, mate, slack, n);
      OpenFrames(tree, r, n, partner.id, q, outer0, outer1, outer, mate0, mate1, mate2, mate);
    }

    /** The nodes of the opened circuit are expanded in turn: the first with the partner of the blossom, the
        others, an even number, in pairs of neighbours. */
    method ExpandCircuit(u: int, expandBlocked: bool, p: int, q: int, ghost tree: Tree, ghost k: int,
                         ghost partner: Tree, ghost stops: set<int>,
                         ghost mate1: seq<int>, ghost base: set<Tree>) returns (ghost piece: Tree)
      requires 0 <= k < |tree.kids| && |tree.kids| % 2 == 1 && AllShape(Turned(tree.kids, k), n)
      requires Valid() && family == base + Members(Turned(tree.kids, k)) && partner in base
      requires (forall t :: t in base ==> Ids(t) !! AllIds(Turned(tree.kids, k)))
      requires base !! Members(Turned(tree.kids, k))
      requires |shallow| == 2 * n && 0 <= u < 2 * n && shallow[u] == Roots(Turned(tree.kids, k))
      requires |mate| == 2 * n && Rematched(Turned(tree.kids, k), |tree.kids|, q, mate1, mate)
      requires p in Leaves(Turned(tree.kids, k)[0]) && q in Leaves(partner) && Tight(slack, n, p, q)
      requires forall i :: 0 <= i < |tree.kids| ==> TightTree(tree.kids[i], slack, n)
      requires Ring(tree.kids, slack, n) && Blocks(stops, AllIds(Turned(tree.kids, k)), blocked, expandBlocked, n)
      modifies `shallow, `outer, `active, `free, `mate, `family
      ensures Valid() && family == base + AllKept(Turned(tree.kids, k), stops)
      ensures Untouched(AllIds(Turned(tree.kids, k)), n, old(outer), outer)
      ensures MatesOutside(AllIds(Turned(tree.kids, k)) + {partner.id}, old(mate), mate)
      ensures MatchedExcept(AllKept(Turned(tree.kids, k), stops), piece, partner, mate, slack, n)
      ensures forall i :: 0 <= i < |tree.kids| ==> AllOnce(tree.kids[i], stops, mate, slack, n)
      decreases tree, 2
    {
      hide EdgeCount, Whole, Shape, Ids, Leaves, Fits, Tight, Linked, TightTree, Untouched, MatesOutside, Kept, AllKept,
        MatchedExcept,
        Outermost, Turned, Rematched, Members, Blocks, AllIds, AllShape, MatchedWithin, Ring, AllOnce;
      ghost var r := Turned(tree.kids, k);
      ghost var outer0, mate0 := outer, mate;
      var circuit := shallow[u];
      TurnedAt(tree.kids, k);
      FirstReady(family, base, n, active, free, deep, shallow, outer, r, partner, p, q, mate1, mate, slack, stops,
        blocked, expandBlocked);
      piece := Expand(circuit[0], expandBlocked, r[0], partner, stops);
      FirstStep(base, r, n, stops);
      ExpandPairs(circuit, expandBlocked, q, tree, k, partner, stops, mate1, base, mate0, outer0, piece);
      TurnedOnce(tree.kids, k, stops, mate, slack, n);
    }

    /** The loop over the pairs of neighbours after the first node. */
    method ExpandPairs(circuit: seq<int>, expandBlocked: bool, ghost q: int, ghost tree: Tree, ghost k: int,
                       ghost partner: Tree, ghost stops: set<int>,
                       ghost mate1: seq<int>, ghost base: set<Tree>, ghost mate0: seq<int>, ghost outer0: seq<int>,
                       ghost piece: Tree)
      requires 0 <= k < |tree.kids| && |tree.kids| % 2 == 1 && AllShape(Turned(tree.kids, k), n)
      requires circuit == Roots(Turned(tree.kids, k))
      requires Valid() && partner in base && partner.id in Ids(partner)
      requires (forall t :: t in base ==> Ids(t) !! AllIds(Turned(tree.kids, k)))
      requires base !! Members(Turned(tree.kids, k))
      requires |mate| == 2 * n && |mate0| == 2 * n && Rematched(Turned(tree.kids, k), |tree.kids|, q, mate1, mate0)
      requires forall i :: 0 <= i < |tree.kids| ==> TightTree(tree.kids[i], slack, n)
      requires Ring(tree.kids, slack, n) && Blocks(stops, AllIds(Turned(tree.kids, k)), blocked, expandBlocked, n)
      requires var r := Turned(tree.kids, k);
        && family == base + AllKept(r[..1], stops) + Members(r[1..])
        && MatesOutside(AllIds(r[..1]) + {partner.id}, mate0, mate) && Untouched(AllIds(r[..1]), n, outer0, outer)
        && MatchedExcept(AllKept(r[..1], stops), piece, partner, mate, slack, n) && AllOnce(r[0], stops, mate, slack, n)
      modifies `shallow, `outer, `active, `free, `mate, `family
      ensures Valid() && family == base + AllKept(Turned(tree.kids, k), stops)
      ensures Untouched(AllIds(Turned(tree.kids, k)), n, outer0, outer)
      ensures MatesOutside(AllIds(Turned(tree.kids, k)) + {partner.id}, mate0, mate)
      ensures MatchedExcept(AllKept(Turned(tree.kids, k), stops), piece, partner, mate, slack, n)
      ensures forall i :: 0 <= i < |tree.kids| ==> AllOnce(Turned(tree.kids, k)[i], stops, mate, slack, n)
      decreases tree, 1
    {
      hide EdgeCount, Whole, Shape, Ids, Leaves, Fits, Tight, Linked, TightTree, Untouched, MatesOutside, Kept, AllKept,
        MatchedExcept,
        Outermost, Turned, Rematched, Members, Blocks, AllIds, AllShape, MatchedWithin, Ring, AllOnce, Index, Roots;
      ghost var r := Turned(tree.kids, k);
      TurnedAt(tree.kids, k);
      var i := 1;
      while i < |circuit|
        invariant 1 <= i <= |circuit| && i % 2 == 1 && Valid() && |mate| == 2 * n
        invariant family == base + AllKept(r[..i], stops) + Members(r[i..])
        invariant MatesOutside(AllIds(r[..i]) + {partner.id}, mate0, mate)
        invariant Untouched(AllIds(r[..i]), n, outer0, outer)
        invariant MatchedExcept(AllKept(r[..i], stops), piece, partner, mate, slack, n)
        invariant forall j :: 0 <= j < i ==> AllOnce(r[j], stops, mate, slack, n)
      {
        ghost var a, b := Index(tree.kids, k, i), Index(tree.kids, k, i + 1);
        ghost var outer1, mate2 := outer, mate;
        PairReady(r, i, n, partner.id, q, mate1, mate0, mate, stops, blocked, expandBlocked, base);
        TurnedRing(tree.kids, k, slack, n, i);
        ExpandPair(circuit[i], circuit[i + 1], expandBlocked, tree, a, b, stops);
        PairStep(base, r, i, n, stops);
        PairJoins(r, i, n, stops, piece, partner, base, mate2, mate, slack);
        PairPrefix(r, i, n, partner.id, outer0, outer1, outer, mate0, mate2, mate);
        OnceSoFar(r, i, n, stops, mate2, mate, slack);
        i := i + 2;
      }
      assert r[..|r|] == r && r[|r|..] == [];
      NoMembers(r);
      assert r[..0] == [];
    }

    /** Two neighbours that are matched to each other are expanded: all that remains is matched within. */
    method ExpandPair(a: int, b: int, expandBlocked: bool, ghost tree: Tree, ghost i: int, ghost j: int,
                      ghost stops: set<int>)
      requires 0 <= i < |tree.kids| && 0 <= j < |tree.kids| && a == tree.kids[i].id && b == tree.kids[j].id
      requires Valid() && tree.kids[i] in family && tree.kids[j] in family && tree.kids[i] != tree.kids[j]
      requires |mate| == 2 * n && 0 <= a < 2 * n && 0 <= b < 2 * n && mate[a] == b && mate[b] == a
      requires Linked(slack, n, Leaves(tree.kids[i]), Leaves(tree.kids[j]))
      requires TightTree(tree.kids[i], slack, n) && TightTree(tree.kids[j], slack, n)
      requires Blocks(stops, Ids(tree.kids[i]), blocked, expandBlocked, n)
      requires Blocks(stops, Ids(tree.kids[j]), blocked, expandBlocked, n)
      modifies `shallow, `outer, `active, `free, `mate, `family
      ensures Valid()
      ensures family == old(family) - {tree.kids[i]} + Kept(tree.kids[i], stops) - {tree.kids[j]} + Kept(tree.kids[j],
        stops)
      ensures Untouched(Ids(tree.kids[i]) + Ids(tree.kids[j]), n, old(outer), outer)
      ensures MatesOutside(Ids(tree.kids[i]) + Ids(tree.kids[j]), old(mate), mate)
      ensures MatchedWithin(Kept(tree.kids[i], stops) + Kept(tree.kids[j], stops), mate, slack, n)
      ensures AllOnce(tree.kids[i], stops, mate, slack, n) && AllOnce(tree.kids[j], stops, mate, slack, n)
      decreases tree, 0
    {
      hide EdgeCount, Whole, Shape, Ids, Leaves, Fits, Tight, Linked, TightTree, Untouched, MatesOutside, Kept,
        Outermost, MatchedWithin, MatchedExcept, Blocks, AllOnce;
      ghost var s, t := tree.kids[i], tree.kids[j];
      ghost var outer0, mate0, family0 := outer, mate, family;
      WholeSizes(family, {}, n, active, free, deep, shallow, outer);
      TreeFacts(family, n, active, free, deep, shallow, outer, s);
      TreeFacts(family, n, active, free, deep, shallow, outer, t);
      FamilyApart(family, n, active, free, deep, shallow, outer, s, t);
      KeptCovered(s, stops, n);
      KeptCovered(t, stops, n);
      ghost var x := Expand(a, expandBlocked, s, t, stops);
      ghost var outer1, mate1 := outer, mate;
      PieceIn(Kept(s, stops), x, t, mate, slack, n);
      MutualFacts(family, n, active, free, deep, shallow, outer, mate, slack, x, t);
      WholeSizes(family, {}, n, active, free, deep, shallow, outer);
      ghost var y := Expand(b, expandBlocked, t, x, stops);
      PairMatched(s, t, x, y, stops, n, mate1, mate, slack);
      PairOnce(s, t, x, y, stops, n, mate1, mate, slack);
      PairFrames(s, t, x, n, outer0, outer1, outer, mate0, mate1, mate);
    }

    lemma MateSize()
      requires Valid()
      ensures |mate| == 2 * n && |slack| == EdgeCount(n) && |kind| == 2 * n && |forest| == 2 * n && |root| == 2 * n
      ensures |blocked| == 2 * n && |dual| == 2 * n && |tip| == 2 * n
    {
    }

    /** Two neighbours on the path are matched to each other and expanded. */
    method FlipPair(p: int, q: int, ghost s: Tree, ghost t: Tree, ghost stops: set<int>, ghost used: set<Tree>,
                    ghost family0: set<Tree>,
                    ghost mate0: seq<int>, ghost outer0: seq<int>)
      requires Valid() && Laminar(family0, {}, n)
      requires Flipped(family0, used, family, stops, n, mate0, mate, outer0, outer, slack)
      requires s in family0 && t in family0 && s != t && s !in used && t !in used && s.id == p && t.id == q
      requires 0 <= p < 2 * n && 0 <= q < 2 * n
      requires Linked(slack, n, Leaves(s), Leaves(t)) && TightTree(s, slack, n) && TightTree(t, slack, n)
      requires Blocks(stops, Ids(s), blocked, false, n) && Blocks(stops, Ids(t), blocked, false, n)
      modifies `shallow, `outer, `active, `free, `mate, `family
      ensures Valid() && Flipped(family0, used + {s, t}, family, stops, n, mate0, mate, outer0, outer, slack)
    {
      hide EdgeCount, Whole, Flipped, Laminar, Ids, Kept, KeptOf, Covered, Leaves, Linked, TightTree, Blocks,
        MatesOutside, MatchedWithin, Untouched, AllOnce;
      ghost var family1, mate1, outer1 := family, mate, outer;
      StillThere(family0, used, family, stops, n, mate0, mate, outer0, outer, slack, s);
      StillThere(family0, used, family, stops, n, mate0, mate, outer0, outer, slack, t);
      MateSize();
      DifferentIds(family0, n, s, t);
      mate := mate[p := q];
      mate := mate[q := p];
      ExpandPair(p, q, false, Tree(-1, [s, t]), 0, 1, stops);
      TwoMates(s, t, mate1, p, q, mate);
      FlipStep(family0, used, family1, family, stops, n, mate0, mate1, mate, outer0, outer1, outer, slack, s, t);
    }

    /** From p up to the root of its tree, two nodes at a time. */
    method FlipAlong(p0: int, ghost path: seq<int>, ghost ids: seq<int>, ghost stops: set<int>,
                     ghost family0: set<Tree>,
                     ghost active0: seq<bool>, ghost free0: seq<int>, ghost shallow0: seq<seq<int>>,
                     ghost outer0: seq<int>, ghost mate0: seq<int>)
      requires Valid() && Whole(family0, {}, n, active0, free0, deep, shallow0, outer0)
      requires TightFamily(family0, slack, n)
      requires HalfWay(family0, n, outer0, forest, kind, mate0, deep, slack, path) && path != [] && p0 == path[0]
      requires Blocking(n, active0, blocked, dual) && stops == FullBlossoms(n, blocked, dual)
      requires Flipped(family0, TreesOf(family0, ids), family, stops, n, mate0, mate, outer0, outer, slack)
      requires path[0] in ids && forall i :: 1 <= i < |path| ==> path[i] !in ids
      modifies `shallow, `outer, `active, `free, `mate, `family
      ensures Valid()
      ensures Flipped(family0, TreesOf(family0, ids + path), family, stops, n, mate0, mate, outer0, outer, slack)
    {
      hide EdgeCount, Whole, TightFamily, HalfWay, Blocking, FullBlossoms, Flipped, TreesOf, Untouched;
      HalfParts(family0, n, outer0, forest, kind, mate0, deep, slack, path);
      MateSize();
      PathNext(path, n, outer0, forest, 0);
      SameTrees(family0, ids, ids + path[..1]);
      var p := p0;
      var fp := forest[p];
      ghost var k := 0;
      while fp != -1
        invariant Valid() && 0 <= k < |path| && k % 2 == 0 && p == path[k] && 0 <= p < 2 * n && fp == forest[p]
        invariant Flipped(family0, TreesOf(family0, ids + path[..k + 1]), family, stops, n, mate0, mate, outer0, outer,
          slack)
        decreases |path| - k
      {
        PathNext(path, n, outer0, forest, k);
        p := FlipTwo(p, path, k, ids, stops, family0, active0, free0, shallow0, outer0, mate0);
        fp := forest[p];
        k := k + 2;
      }
      PathNext(path, n, outer0, forest, k);
      assert path[..k + 1] == path;
    }

    /** The two nodes above p are matched to each other. */
    method FlipTwo(p0: int, ghost path: seq<int>, ghost k: int, ghost ids: seq<int>, ghost stops: set<int>,
                   ghost family0: set<Tree>,
                   ghost active0: seq<bool>, ghost free0: seq<int>, ghost shallow0: seq<seq<int>>,
                   ghost outer0: seq<int>, ghost mate0: seq<int>)
      returns (p: int)
      requires Valid() && Whole(family0, {}, n, active0, free0, deep, shallow0, outer0)
      requires TightFamily(family0, slack, n)
      requires HalfWay(family0, n, outer0, forest, kind, mate0, deep, slack, path) && 0 <= k && k + 1 < |path|
      requires k % 2 == 0 && p0 == path[k]
      requires Blocking(n, active0, blocked, dual) && stops == FullBlossoms(n, blocked, dual)
      requires Flipped(family0, TreesOf(family0, ids + path[..k + 1]), family, stops, n, mate0, mate, outer0, outer,
        slack)
      requires path[0] in ids && forall i :: 1 <= i < |path| ==> path[i] !in ids
      modifies `shallow, `outer, `active, `free, `mate, `family
      ensures Valid() && k + 2 < |path| && p == path[k + 2] && 0 <= p < 2 * n
      ensures Flipped(family0, TreesOf(family0, ids + path[..k + 3]), family, stops, n, mate0, mate, outer0, outer,
        slack)
    {
      hide EdgeCount, Whole, TightFamily, HalfWay, Blocking, FullBlossoms, Flipped, TreesOf, Untouched, Blocks, Laminar,
        TightTree, Linked, Joined,
        PathTight, Ids, Leaves, RootPath, AllTrees, Coupled, Shape, Kept, KeptOf, Alternates, HasTree, Tight;
      HalfParts(family0, n, outer0, forest, kind, mate0, deep, slack, path);
      LaminarOf(family0, n, active0, free0, deep, shallow0, outer0);
      ghost var used := TreesOf(family0, ids + path[..k + 1]);
      TreesIn(family0, ids + path[..k + 1]);
      FlippedFacts(family0, used, family, stops, n, mate0, mate, outer0, outer, slack);
      NotYetUsed(family0, ids, path, n, outer0, forest, k, k + 1);
      NotYetUsed(family0, ids, path, n, outer0, forest, k, k + 2);
      StillAbove(family0, n, active0, free0, deep, shallow0, outer0, forest, kind, mate0, slack, path, k, used, outer);
      StillAbove(family0, n, active0, free0, deep, shallow0, outer0, forest, kind, mate0, slack, path, k + 1, used,
        outer);
      var q := outer[forest[p0]];
      p := outer[forest[q]];
      ghost var s := PathNode(family0, n, active0, free0, deep, shallow0, outer0, forest, kind, mate0, slack, path,
        k + 2);
      ghost var t := PathNode(family0, n, active0, free0, deep, shallow0, outer0, forest, kind, mate0, slack, path,
        k + 1);
      PathStep(path, deep, slack, n, k + 1);
      PathJoined(family0, n, active0, free0, deep, shallow0, outer0, slack, p, q, s, t);
      TightIn(family0, slack, n, s);
      TightIn(family0, slack, n, t);
      BlockingBlocks(n, active0, blocked, dual, Ids(s));
      BlockingBlocks(n, active0, blocked, dual, Ids(t));
      PathDistinct(path, n, outer0, forest, k + 1, k + 2);
      FlipPair(p, q, s, t, stops, used, family0, mate0, outer0);
      TwoAbove(family0, n, ids, path, k, s, t);
    }

    /** Between two phases of growth. */
    ghost predicate Ready(base: set<Tree>, stops: set<int>)
      reads this
    {
      Valid() && IsReady(family, base, stops, n, active, blocked, dual, mate, slack) && Labels(kind, n)
    }

    /** While the forest grows. */
    ghost predicate Growing(base: set<Tree>, stops: set<int>)
      reads this
    {
      && Ready(base, stops) && IsForest(family, stops, n, outer, forest, kind, root, mate, deep, slack)
      && IsWork(forestList, family, kind) && |visited| == 2 * n
    }

    /** Every edge that could go on is still to be looked at: at the vertices of `later`, at u0 from v0 on, or from
        the list. */
    ghost predicate Searching(later: set<int>, u0: int, v0: int)
      reads this
    {
      Pending(forestList, later, u0, v0, n, outer, kind, slack) && SeenAreEven(visited, kind, n)
    }

    /** Turns the matching along the path from u and v to their roots. */
    method Augment(u: int, v: int, ghost base: set<Tree>, ghost stops: set<int>)
      requires Growing(base, stops) && 0 <= u < n && 0 <= v < n && Tight(slack, n, u, v)
      requires |outer| == 2 * n && 0 <= outer[u] < 2 * n && 0 <= outer[v] < 2 * n && |kind| == 2 * n && |root| == 2 * n
      requires kind[outer[u]] == EVEN && kind[outer[v]] == EVEN && root[outer[u]] != root[outer[v]]
      modifies `shallow, `outer, `active, `free, `mate, `family
      ensures Ready(base, stops) && |Exposed(base, mate)| < |Exposed(base, old(mate))|
      ensures Exposed(base, mate) <= Exposed(base, old(mate))
    {
      hide EdgeCount, Whole, IsReady, IsForest, IsWork, Labels, Tight, Augmenting, HalfWay, TightFamily, Blocking,
        FullBlossoms, Good, KeptOf, Flipped,
        TreesOf, Exposed, Joined, EvensClimb, Labelling, Laminar, Linked, Leaves, TightTree, Blocks, Ids, FreshAreEven,
        PartlyMatched, Accounted;
      MateSize();
      ForestParts(family, stops, n, outer, forest, kind, root, mate, deep, slack);
      ReadyParts(family, base, stops, n, active, blocked, dual, mate, slack);
      ghost var up, vp := FoundPath(family, n, active, free, deep, shallow, outer, forest, kind, root, mate, slack, u,
        v);
      ghost var family0, active0, free0, shallow0, outer0, mate0 := family, active, free, shallow, outer, mate;
      TurnPath(u, v, up, vp, stops);
      LaminarAccounted(family, n, active, free, deep, shallow, outer);
      AugmentReady(family0, base, stops, n, active0, free0, deep, shallow0, outer0, forest, kind, mate0, slack, up, vp,
        family, active, blocked, dual, mate, outer);
    }

    /** The body of Augment. */
    method TurnPath(u: int, v: int, ghost up: seq<int>, ghost vp: seq<int>, ghost stops: set<int>)
      requires Valid() && TightFamily(family, slack, n) && Blocking(n, active, blocked, dual)
      requires |blocked| == 2 * n && |dual| == 2 * n && stops == FullBlossoms(n, blocked, dual)
      requires Augmenting(family, n, outer, forest, kind, mate, deep, slack, up, vp) && up != [] && vp != []
      requires 0 <= u < n && 0 <= v < n && |outer| == 2 * n && up[0] == outer[u] && vp[0] == outer[v]
      modifies `shallow, `outer, `active, `free, `mate, `family
      ensures Valid()
      ensures Flipped(old(family), TreesOf(old(family), up + vp), family, stops, n, old(mate), mate, old(outer), outer,
        slack)
    {
      hide EdgeCount, Whole, HalfWay, TightFamily, Blocking, FullBlossoms, Flipped, TreesOf, Joined, Laminar, Linked,
        Leaves, TightTree, Blocks, Ids, Augmenting;
      ghost var family0, active0, free0, shallow0, outer0, mate0 := family, active, free, shallow, outer, mate;
      AugmentingParts(family, n, outer, forest, kind, mate, deep, slack, up, vp);
      ghost var s := PathNode(family, n, active, free, deep, shallow, outer, forest, kind, mate, slack, up, 0);
      ghost var t := PathNode(family, n, active, free, deep, shallow, outer, forest, kind, mate, slack, vp, 0);
      PathJoined(family, n, active, free, deep, shallow, outer, slack, up[0], vp[0], s, t);
      TightIn(family, slack, n, s);
      TightIn(family, slack, n, t);
      BlockingBlocks(n, active, blocked, dual, Ids(s));
      BlockingBlocks(n, active, blocked, dual, Ids(t));
      LaminarOf(family, n, active, free, deep, shallow, outer);
      FlipStart(family, stops, n, mate, outer, slack);
      HeadsOnly(family, n, up, vp, s, t);
      OthersLater(up, vp, n, outer, forest, kind, mate, deep, slack, family);
      var p, q := outer[u], outer[v];
      var outv := q;
      FlipPair(p, q, s, t, stops, {}, family0, mate0, outer0);
      FlipAlong(p, up, [up[0], vp[0]], stops, family0, active0, free0, shallow0, outer0, mate0);
      FlipAlong(outv, vp, [up[0], vp[0]] + up, stops, family0, active0, free0, shallow0, outer0, mate0);
      BothPaths(family0, up, vp);
    }

    /** Reset between two phases. */
    method Restart(ghost base: set<Tree>, ghost stops: set<int>)
      requires Ready(base, stops)
      modifies `outer, `active, `blocked, `free, `mate, `family, `forest, `root, `kind, `forestList, `visited
      ensures Growing(base, stops) && family == base && Exposed(base, mate) == Exposed(base, old(mate))
      ensures Searching({}, -1, 0) && AllVertices(forestList, n)
    {
      hide EdgeCount, Whole, IsReady, IsForest, IsWork, Labels, Exposed, Agrees, Upto, KeptOf, Labelled, IsWorkList,
        FullBlossoms, Pending, SeenAreEven;
      MateSize();
      WholeSizes(family, {}, n, active, free, deep, shallow, outer);
      ghost var family0, active0, blocked0, mate0, free0, shallow0, outer0 :=
        family, active, blocked, mate, free, shallow, outer;
      ReadyParts(family, base, stops, n, active, blocked, dual, mate, slack);
      FullAgrees(n, blocked, dual, Upto(0, 2 * n));
      LaminarAccounted(family, n, active, free, deep, shallow, outer);
      Reset(stops);
      WholeSizes(family, {}, n, active, free, deep, shallow, outer);
      LaminarAccounted(family, n, active, free, deep, shallow, outer);
      ResetReady(family0, base, stops, n, active0, blocked0, dual, mate0, slack, active, blocked, mate);
      ReadyParts(base, base, stops, n, active, blocked, dual, mate, slack);
      ExposedSame(base, mate0, mate);
      ResetForest(base, stops, n, active, free, deep, shallow, outer, forest, kind, root, mate, slack, forestList);
      PendingStart(forestList, n, outer, mate, kind, slack);
      WorkVertices(forestList, n, outer, mate);
      SeenSize(visited, kind, n);
    }

    /** From the even node of u over v, unlabelled, to the mate of v. */
    method GrowTwo(u: int, v: int, ghost base: set<Tree>, ghost stops: set<int>, ghost later: set<int>)
      requires Growing(base, stops) && 0 <= u < n && 0 <= v < n && Tight(slack, n, u, v)
      requires |outer| == 2 * n && 0 <= outer[u] < 2 * n && 0 <= outer[v] < 2 * n && |kind| == 2 * n && |mate| == 2 * n
      requires kind[outer[u]] == EVEN && kind[outer[v]] == UNLABELED && Searching(later, u, v)
      requires AllVertices(forestList, n)
      modifies `forest, `kind, `root, `forestList, `visited
      ensures Searching(later, u, v + 1) && AllVertices(forestList, n)
      ensures Growing(base, stops) && |Plain(family, kind)| < |Plain(family, old(kind))|
      ensures |kind| == 2 * n && |old(kind)| == 2 * n
      ensures forall i :: 0 <= i < 2 * n && old(kind)[i] == EVEN ==> kind[i] == EVEN
    {
      hide EdgeCount, Whole, IsReady, IsForest, IsWork, Tight, Plain, KeptOf, PartlyMatched, Labelling, EvensClimb,
        Laminar, Good, TightFamily, Blocking,
        FullBlossoms, FreshAreEven, InEven, Labels, Pending, SeenAreEven, AllVertices, Leads, Shape, Ids, Leaves, Kept,
        Promising;
      MateSize();
      ReadyParts(family, base, stops, n, active, blocked, dual, mate, slack);
      LaminarOf(family, n, active, free, deep, shallow, outer);
      GoodIsPartly(family, stops, mate, slack, n);
      GrowForest(family, stops, n, active, free, deep, shallow, outer, forest, kind, root, mate, slack, u, v);
      ghost var kind0 := kind;
      var vm := LabelPair(u, v);
      EvensStay(kind0, outer[v], outer[vm], n);
      ForestParts(family, stops, n, outer, forest, kind, root, mate, deep, slack);
      WorkStays(forestList, family, kind0, kind);
      VertexInEven(family, n, active, free, deep, shallow, outer, kind, vm);
      WorkMore(forestList, family, kind, vm);
      PendingGrow(forestList, later, u, v, n, outer, kind0, slack, vm);
      SeenGrow(visited, kind0, n, outer[v], outer[vm]);
      AddVertex(forestList, n, vm);
      if !visited[outer[vm]] {
        forestList := forestList + [vm];
        visited := visited[outer[vm] := true];
      }
    }

    /** Labels the node of v odd and that of its mate even. */
    method LabelPair(u: int, v: int) returns (vm: int)
      requires 0 <= u < n && 0 <= v < n && |outer| == 2 * n && |mate| == 2 * n && |forest| == 2 * n && |kind| == 2 * n
      requires |root| == 2 * n
      requires 0 <= outer[u] < 2 * n && 0 <= outer[v] < 2 * n && outer[u] != outer[v]
      requires 0 <= mate[outer[v]] < n && 0 <= outer[mate[outer[v]]] < 2 * n
      modifies `forest, `kind, `root
      ensures vm == mate[outer[v]] && |old(forest)| == 2 * n && |old(kind)| == 2 * n && |old(root)| == 2 * n
      ensures forest == old(forest)[outer[v] := u][outer[vm] := v]
      ensures kind == old(kind)[outer[v] := ODD][outer[vm] := EVEN]
      ensures root == old(root)[outer[v] := old(root)[outer[u]]][outer[vm] := old(root)[outer[u]]]
    {
      vm := mate[outer[v]];
      forest := forest[outer[v] := u];
      kind := kind[outer[v] := ODD];
      root := root[outer[v] := root[outer[u]]];
      forest := forest[outer[vm] := v];
      kind := kind[outer[vm] := EVEN];
      root := root[outer[vm] := root[outer[u]]];
    }

    /** Contracts the circuit that the edge u - v closes, and goes on from the new node. */
    method ContractAt(u: int, v: int, ghost base: set<Tree>, ghost stops: set<int>, ghost later: set<int>)
      requires Growing(base, stops) && 0 <= u < n && 0 <= v < n && Tight(slack, n, u, v)
      requires |outer| == 2 * n && 0 <= outer[u] < 2 * n && 0 <= outer[v] < 2 * n && |kind| == 2 * n && |root| == 2 * n
      requires kind[outer[u]] == EVEN && kind[outer[v]] == EVEN && root[outer[u]] == root[outer[v]]
      requires outer[u] != outer[v]
      requires Searching(later, u, v) && AllVertices(forestList, n) && AllIn(later, outer[u], n, outer)
      modifies `free, `tip, `shallow, `deep, `outer, `forest, `kind, `root, `active, `mate, `family, `forestList,
        `visited
      ensures Searching({}, -1, 0) && ListShape(forestList, n, outer)
      ensures Growing(base, stops) && |family| < |old(family)| && Exposed(base, mate) == Exposed(base, old(mate))
      ensures DeepAgrees(n, dual, old(deep), deep)
    {
      hide EdgeCount, Whole, IsReady, IsForest, IsWork, Tight, KeptOf, PartlyMatched, Labelling, EvensClimb, Laminar,
        Good, TightFamily, Blocking, FullBlossoms,
        FreshAreEven, InEven, Climbs, RootPath, Alternates, PathTight, Coupled, Meets, Circuit, Picked, PairedAround,
        Labels, Accounted, Exposed, Covered, Leaves,
        DeepAgrees, Members, Roots, Pending, SeenAreEven, Image;
      MateSize();
      ghost var s, r, up, vp := TwoClimbs(family, base, stops, n, active, free, deep, shallow, outer, forest, kind,
        root, mate, slack, blocked, dual, u, v);
      ghost var family0, active0, free0, deep0, shallow0, outer0 := family, active, free, deep, shallow, outer;
      ghost var forest0, kind0, root0, mate0, list0 := forest, kind, root, mate, forestList;
      var b;
      ghost var kids, x, y;
      b, kids, x, y := Blossom(u, v, up, vp);
      MeetBounds(up, x, vp, y);
      ContractAll(family0, base, stops, n, active0, free0, deep0, shallow0, outer0, forest0, kind0, root0, mate0, slack,
        blocked, dual, up, x, vp, y,
        kids, b, active, free, deep, shallow, outer, s, r, list0);
      FirstKid(kids, up, x, vp, y);
      NewOuter(family0, n, active0, free0, deep0, shallow0, outer0, kids, b, active, free, deep, shallow, outer, up, x,
        vp, y);
      PendingContract(list0, later, u, v, n, outer0, kind0, slack, b, outer, Roots(kids));
      SeenContract(visited, kind0, n, b);
      AddBlossom(list0, n, b, outer);
      forestList := forestList + [b];
      visited := visited[b := true];
    }

    /** What becomes of an edge without slack from an even node; true if the search has to start again. */
    method Meet(u: int, v: int, ghost base: set<Tree>, ghost stops: set<int>,
                ghost later: set<int>) returns (cont: bool)
      requires Growing(base, stops) && 0 <= u < n && 0 <= v < n && Tight(slack, n, u, v)
      requires |outer| == 2 * n && |kind| == 2 * n && 0 <= outer[u] < 2 * n && kind[outer[u]] == EVEN
      requires Searching(later, u, v) && AllVertices(forestList, n) && AllIn(later, outer[u], n, outer)
      modifies `free, `tip, `shallow, `deep, `outer, `forest, `kind, `root, `active, `blocked, `mate, `family,
        `forestList, `visited
      ensures Growing(base, stops) && |outer| == 2 * n && |kind| == 2 * n && |old(kind)| == 2 * n
      ensures cont ==> Below(|Exposed(base, mate)|, |family|, |Plain(family, kind)|,
                         |Exposed(base, old(mate))|, |old(family)|, |Plain(old(family), old(kind))|)
      ensures !cont ==> outer == old(outer) && deep == old(deep)
      ensures !cont ==> forall i :: 0 <= i < 2 * n && old(kind)[i] == EVEN ==> kind[i] == EVEN
      ensures !cont ==> Advanced(|Exposed(base, mate)|, |family|, |Plain(family, kind)|, forestList,
                          |Exposed(base, old(mate))|, |old(family)|, |Plain(old(family), old(kind))|, old(forestList))
      ensures DeepAgrees(n, dual, old(deep), deep) && Exposed(base, mate) <= Exposed(base, old(mate))
      ensures if cont then Searching({}, -1, 0) && ListShape(forestList, n, outer)
        else Searching(later, u, v + 1) && AllVertices(forestList, n)
    {
      hide EdgeCount, Whole, IsReady, IsForest, IsWork, Tight, Plain, Labels, Exposed, Pending, SeenAreEven,
        AllVertices;
      GrownSizes(base, stops);
      MateSize();
      OuterInRange(family, n, active, free, deep, shallow, outer);
      LabelsAt(kind, n, outer[v]);
      cont := false;
      if kind[outer[v]] == ODD {
        PendingSkip(forestList, later, u, v, n, outer, kind, slack);
        return;
      }
      if kind[outer[v]] != EVEN {
        GrowTwo(u, v, base, stops, later);
      } else if root[outer[v]] != root[outer[u]] {
        Augment(u, v, base, stops);
        Restart(base, stops);
        GrownSizes(base, stops);
        VerticesShape(forestList, n, outer);
        cont := true;
      } else if outer[u] != outer[v] {
        ContractAt(u, v, base, stops, later);
        GrownSizes(base, stops);
        cont := true;
      } else {
        PendingSkip(forestList, later, u, v, n, outer, kind, slack);
      }
    }

    lemma GrownSizes(base: set<Tree>, stops: set<int>)
      requires Growing(base, stops)
      ensures |outer| == 2 * n && |kind| == 2 * n && |deep| == 2 * n && |dual| == 2 * n
    {
      MateSize();
      WholeSizes(family, {}, n, active, free, deep, shallow, outer);
    }

    /** All edges without slack at u. */
    method ScanFrom(u: int, ghost base: set<Tree>, ghost stops: set<int>, ghost later: set<int>) returns (cont: bool)
      requires Growing(base, stops) && 0 <= u < n && |outer| == 2 * n && |kind| == 2 * n && 0 <= outer[u] < 2 * n
      requires kind[outer[u]] == EVEN
      requires Searching(later, u, 0) && AllVertices(forestList, n) && AllIn(later, outer[u], n, outer)
      modifies `free, `tip, `shallow, `deep, `outer, `forest, `kind, `root, `active, `blocked, `mate, `family,
        `forestList, `visited
      ensures Growing(base, stops) && |outer| == 2 * n && |kind| == 2 * n && |old(kind)| == 2 * n
      ensures cont ==> Below(|Exposed(base, mate)|, |family|, |Plain(family, kind)|,
                         |Exposed(base, old(mate))|, |old(family)|, |Plain(old(family), old(kind))|)
      ensures !cont ==> outer == old(outer) && deep == old(deep)
      ensures !cont ==> forall i :: 0 <= i < 2 * n && old(kind)[i] == EVEN ==> kind[i] == EVEN
      ensures !cont ==> Advanced(|Exposed(base, mate)|, |family|, |Plain(family, kind)|, forestList,
                          |Exposed(base, old(mate))|, |old(family)|, |Plain(old(family), old(kind))|, old(forestList))
      ensures DeepAgrees(n, dual, old(deep), deep) && Exposed(base, mate) <= Exposed(base, old(mate))
      ensures if cont then Searching({}, -1, 0) && ListShape(forestList, n, outer)
        else Searching(later, -1, 0) && AllVertices(forestList, n)
    {
      hide Growing, Plain, Exposed, Tight, Pending, SeenAreEven, AllVertices, ListShape;
      GrownSizes(base, stops);
      var v := 0;
      cont := false;
      while v < n && !cont
        invariant 0 <= v <= n && Growing(base, stops) && |outer| == 2 * n && |kind| == 2 * n
        invariant DeepAgrees(n, dual, old(deep), deep) && Exposed(base, mate) <= Exposed(base, old(mate))
        invariant if cont then Searching({}, -1, 0) && ListShape(forestList, n, outer)
          else Searching(later, u, v) && AllVertices(forestList, n)
        invariant cont ==> Below(|Exposed(base, mate)|, |family|, |Plain(family, kind)|,
                             |Exposed(base, old(mate))|, |old(family)|, |Plain(old(family), old(kind))|)
        invariant !cont ==> outer == old(outer) && deep == old(deep)
        invariant !cont ==> forall i :: 0 <= i < 2 * n && old(kind)[i] == EVEN ==> kind[i] == EVEN
        invariant !cont ==> Advanced(|Exposed(base, mate)|, |family|, |Plain(family, kind)|, forestList,
                              |Exposed(base, old(mate))|, |old(family)|, |Plain(old(family),
                                old(kind))|, old(forestList))
        decreases n - v
      {
        if u != v {
          NotBlockedIsTight(base, stops, u, v);
          if !IsEdgeBlocked(slack, n, u, v) {
            cont := Meet(u, v, base, stops, later);
          } else {
            PendingSkip(forestList, later, u, v, n, outer, kind, slack);
          }
        } else {
          PendingSkip(forestList, later, u, v, n, outer, kind, slack);
        }
        v := v + 1;
      }
      if !cont {
        PendingLeft(forestList, later, u, n, outer, kind, slack);
      }
    }

    lemma NotBlockedIsTight(base: set<Tree>, stops: set<int>, u: int, v: int)
      requires Growing(base, stops) && 0 <= u < n && 0 <= v < n && u != v
      ensures |slack| == EdgeCount(n) && (Tight(slack, n, u, v) <==> !IsEdgeBlocked(slack, n, u, v))
    {
      MateSize();
    }

    /** All edges without slack at the vertices of an even node, named by an entry of the work list. */
    method Explore(x: int, ghost base: set<Tree>, ghost stops: set<int>)
      requires Growing(base, stops) && InEven(x, family, kind) && 0 <= x < 2 * n && |outer| == 2 * n
      requires 0 <= outer[x] < 2 * n
      requires |deep| == 2 * n && IsNode(outer[x], n, outer, deep) && Searching(Elements(deep[outer[x]]), -1, 0)
      requires AllVertices(forestList, n)
      modifies `free, `tip, `shallow, `deep, `outer, `forest, `kind, `root, `active, `blocked, `mate, `family,
        `forestList, `visited
      ensures Growing(base, stops) && |old(kind)| == |kind|
      ensures Advanced(|Exposed(base, mate)|, |family|, |Plain(family, kind)|, forestList,
                |Exposed(base, old(mate))|, |old(family)|, |Plain(old(family), old(kind))|, old(forestList))
      ensures DeepAgrees(n, dual, old(deep), deep) && Exposed(base, mate) <= Exposed(base, old(mate))
      ensures Searching({}, -1, 0) && ListShape(forestList, n, outer)
    {
      hide Plain, Exposed, Tight, InEven, Whole, IsReady, IsForest, IsWork, Labels, EdgeCount, Pending, SeenAreEven,
        AllVertices, ListShape, IsNode, AllIn;
      GrownSizes(base, stops);
      WorkIsEven(family, n, active, free, deep, shallow, outer, kind, x);
      hide Growing;
      var w := outer[x];
      var k := 0;
      var cont := false;
      while k < |deep[w]| && !cont
        invariant Growing(base, stops) && |outer| == 2 * n && |kind| == 2 * n && |deep| == 2 * n && 0 <= k
        invariant DeepAgrees(n, dual, old(deep), deep) && Exposed(base, mate) <= Exposed(base, old(mate))
        invariant if cont then Searching({}, -1, 0) && ListShape(forestList, n, outer)
                  else k <= |deep[w]| && Searching(Elements(deep[w][k..]), -1, 0) && AllVertices(forestList, n)
        invariant !cont ==> outer == old(outer) && deep == old(deep)
        invariant !cont ==> forall i :: 0 <= i < 2 * n && old(kind)[i] == EVEN ==> kind[i] == EVEN
        invariant Advanced(|Exposed(base, mate)|, |family|, |Plain(family, kind)|, forestList,
                    |Exposed(base, old(mate))|, |old(family)|, |Plain(old(family), old(kind))|, old(forestList))
        decreases !cont, |deep[w]| - k
      {
        ElementsFrom(deep[w], k);
        LaterInNode(w, n, outer, deep, k);
        PendingAt(forestList, Elements(deep[w][k + 1..]), deep[w][k], n, outer, kind, slack);
        cont := ScanFrom(deep[w][k], base, stops, Elements(deep[w][k + 1..]));
        GrownSizes(base, stops);
        k := k + 1;
      }
      if !cont {
        assert Elements(deep[w][k..]) == {};
        VerticesShape(forestList, n, outer);
      }
    }

    /** Grows the alternating forest until the work list is empty. */
    method Grow(ghost base: set<Tree>, ghost stops: set<int>) returns (perfect: bool)
      requires Ready(base, stops)
      modifies `free, `tip, `shallow, `deep, `outer, `forest, `kind, `root, `active, `blocked, `mate, `family,
        `forestList, `visited
      ensures Growing(base, stops) && |outer| == 2 * n && |mate| == 2 * n && DeepAgrees(n, dual, old(deep), deep)
      ensures Exposed(base, mate) <= Exposed(base, old(mate))
      ensures |kind| == 2 * n && forall u, v :: !Promising(u, v, n, outer, kind, slack)
      ensures perfect <==> forall t :: t in family && 0 <= t.id < 2 * n ==> mate[t.id] != -1
    {
      hide Plain, Exposed, Tight, InEven, Whole, IsReady, IsForest, IsWork, Labels, EdgeCount, Pending, SeenAreEven,
        AllVertices, ListShape, IsNode, Promising;
      Restart(base, stops);
      GrownSizes(base, stops);
      VerticesShape(forestList, n, outer);
      while forestList != []
        invariant Growing(base, stops) && DeepAgrees(n, dual, old(deep), deep)
        invariant Exposed(base, mate) <= Exposed(base, old(mate))
        invariant Searching({}, -1, 0) && ListShape(forestList, n, outer)
        decreases |Exposed(base, mate)|, |family|, |Plain(family, kind)|, |forestList|
      {
        var x := forestList[|forestList| - 1];
        GrownSizes(base, stops);
        WorkLess(forestList, family, kind);
        EntryNode(family, n, active, free, deep, shallow, outer, forestList, kind);
        PendingTake(forestList, n, outer, kind, slack, Elements(deep[outer[x]]));
        ShapeLess(forestList, n, outer);
        forestList := forestList[..|forestList| - 1];
        Explore(x, base, stops);
      }
      GrownSizes(base, stops);
      MateSize();
      forall u, v
        ensures !Promising(u, v, n, outer, kind, slack)
      {
        NothingPending(n, outer, kind, slack, u, v);
      }
      perfect := AllMatched();
    }

    /** The test at the end of Grow. */
    method AllMatched() returns (perfect: bool)
      requires Valid() && |outer| == 2 * n && |mate| == 2 * n
      ensures perfect <==> forall t :: t in family && 0 <= t.id < 2 * n ==> mate[t.id] != -1
    {
      hide Whole, EdgeCount;
      OuterInRange(family, n, active, free, deep, shallow, outer);
      for i := 0 to n
        invariant forall j :: 0 <= j < i ==> mate[outer[j]] != -1
      {
        if mate[outer[i]] == -1 {
          ghost var t := VertexTree(family, n, active, free, deep, shallow, outer, i);
          return false;
        }
      }
      forall t | t in family && 0 <= t.id < 2 * n
        ensures mate[t.id] != -1
      {
        var v := SomeLeaf(family, n, active, free, deep, shallow, outer, t);
      }
      perfect := true;
    }

    /** One more edge. */
    method ScanEdge(u: int, v: int, init1: bool, x1: real, init2: bool, x2: real) returns (inite1: bool, e1: real,
                    inite2: bool, e2: real)
      requires Sizes() && 0 <= u < v < n && |outer| == 2 * n && (forall i :: 0 <= i < n ==> 0 <= outer[i] < 2 * n)
      requires LeastSlack(1, u, v, n, outer, kind, slack, init1, x1)
      requires LeastSlack(2, u, v, n, outer, kind, slack, init2, x2)
      ensures LeastSlack(1, u, v + 1, n, outer, kind, slack, inite1, e1)
      ensures LeastSlack(2, u, v + 1, n, outer, kind, slack, inite2, e2)
    {
      hide EdgeCount, LeastSlack, SlackOf;
      inite1, e1, inite2, e2 := init1, x1, init2, x2;
      LeastSlackNext(1, u, v, n, outer, kind, slack, inite1, e1);
      LeastSlackNext(2, u, v, n, outer, kind, slack, inite2, e2);
      var x := SlackOf(slack, n, u, v);
      if (kind[outer[u]] == EVEN && kind[outer[v]] == UNLABELED) ||
        (kind[outer[v]] == EVEN && kind[outer[u]] == UNLABELED) {
        if !inite1 || e1 > x {
          e1, inite1 := x, true;
        }
      } else if outer[u] != outer[v] && kind[outer[u]] == EVEN && kind[outer[v]] == EVEN {
        if !inite2 || e2 > x {
          e2, inite2 := x, true;
        }
      }
    }

    /** The least slacks of the edges that bound the step. */
    method ScanEdges() returns (inite1: bool, e1: real, inite2: bool, e2: real)
      requires Valid()
      ensures |slack| == EdgeCount(n)
      ensures LeastSlack(1, n, n + 1, n, outer, kind, slack, inite1, e1)
      ensures LeastSlack(2, n, n + 1, n, outer, kind, slack, inite2, e2)
    {
      OuterInRange(family, n, active, free, deep, shallow, outer);
      hide EdgeCount, Whole, LeastSlack, SlackOf;
      e1, e2, inite1, inite2 := 0.0, 0.0, false, false;
      LeastSlackStart(1, n, outer, kind, slack, e1);
      LeastSlackStart(2, n, outer, kind, slack, e2);
      for u := 0 to n
        invariant LeastSlack(1, u, u + 1, n, outer, kind, slack, inite1, e1)
        invariant LeastSlack(2, u, u + 1, n, outer, kind, slack, inite2, e2)
      {
        for v := u + 1 to n
          invariant LeastSlack(1, u, v, n, outer, kind, slack, inite1, e1)
          invariant LeastSlack(2, u, v, n, outer, kind, slack, inite2, e2)
        {
          inite1, e1, inite2, e2 := ScanEdge(u, v, inite1, e1, inite2, e2);
        }
        LeastSlackRow(1, u, n, outer, kind, slack, inite1, e1);
        LeastSlackRow(2, u, n, outer, kind, slack, inite2, e2);
      }
    }

    /** The least dual of the odd outermost blossoms. */
    method ScanBlossoms() returns (inite3: bool, e3: real)
      requires Valid() && |outer| == 2 * n && |active| == 2 * n
      ensures LeastDual(2 * n, n, outer, active, kind, dual, inite3, e3)
    {
      hide EdgeCount, Whole;
      e3, inite3 := 0.0, false;
      for i := n to 2 * n
        invariant LeastDual(i, n, outer, active, kind, dual, inite3, e3)
      {
        if active[i] && i == outer[i] && kind[i] == ODD && (!inite3 || e3 > dual[i]) {
          e3, inite3 := dual[i], true;
        }
      }
    }

    /** The largest step that no edge and no odd blossom forbids. */
    method StepSize() returns (e: real)
      requires Valid() && |outer| == 2 * n && |active| == 2 * n
      requires (forall a, b :: 0 <= a < b < n ==> SlackOf(slack, n, a, b) >= 0.0)
      requires forall j :: n <= j < 2 * n ==> dual[j] >= 0.0
      ensures IsStep(e, n, outer, active, kind, slack, dual)
    {
      hide EdgeCount, Whole, LeastSlack, LeastDual, SlackOf, IsStep;
      var inite1, e1, inite2, e2 := ScanEdges();
      var inite3, e3 := ScanBlossoms();
      e := 0.0;
      if inite1 {
        e := e1;
      } else if inite2 {
        e := e2;
      } else if inite3 {
        e := e3;
      }
      if e > e2 / 2.0 && inite2 {
        e := e2 / 2.0;
      }
      if e > e3 && inite3 {
        e := e3;
      }
      StepIsStep(n, outer, active, kind, slack, dual, inite1, e1, inite2, e2, inite3, e3);
    }

    /** Even outermost nodes gain e, odd ones lose it. */
    method MoveDuals(e: real)
      requires Valid() && |outer| == 2 * n && |active| == 2 * n && Labels(kind, n)
      modifies `dual
      ensures |dual| == 2 * n && |old(dual)| == 2 * n
      ensures forall j :: 0 <= j < 2 * n ==> dual[j] == old(dual)[j] + DualChange(j, outer, active, kind, e)
    {
      hide EdgeCount, Whole;
      for i := 0 to 2 * n
        invariant |dual| == 2 * n
        invariant forall j :: 0 <= j < i ==> dual[j] == old(dual)[j] + DualChange(j, outer, active, kind, e)
        invariant forall j :: i <= j < 2 * n ==> dual[j] == old(dual)[j]
      {
        if i == outer[i] {
          if active[i] && kind[outer[i]] == EVEN {
            dual := dual[i := dual[i] + e];
          } else if active[i] && kind[outer[i]] == ODD {
            dual := dual[i := dual[i] - e];
          }
        }
      }
    }

    /** The slack of every edge between different outermost nodes follows their labels. */
    method MoveSlacks(e: real)
      requires Valid() && |outer| == 2 * n && Labels(kind, n)
      modifies `slack
      ensures |slack| == EdgeCount(n)
      ensures forall u, v :: 0 <= u < v < n ==> Moved(u, v, n, outer, kind, old(slack), slack, e)
    {
      OuterInRange(family, n, active, free, deep, shallow, outer);
      hide EdgeCount, Whole, Moved, SlackOf;
      for u := 0 to n
        invariant |slack| == EdgeCount(n)
        invariant forall a, b :: Scanned(a, b, u, u + 1, n) ==> Moved(a, b, n, outer, kind, old(slack), slack, e)
        invariant forall a, b :: 0 <= a < b < n && !Scanned(a, b, u, u + 1, n) ==>
          SlackOf(slack, n, a, b) == SlackOf(old(slack), n, a, b)
      {
        for v := u + 1 to n
          invariant |slack| == EdgeCount(n)
          invariant forall a, b :: Scanned(a, b, u, v, n) ==> Moved(a, b, n, outer, kind, old(slack), slack, e)
          invariant forall a, b :: 0 <= a < b < n && !Scanned(a, b, u, v, n) ==>
            SlackOf(slack, n, a, b) == SlackOf(old(slack), n, a, b)
        {
          MoveSlack(u, v, e, old(slack));
        }
      }
    }

    /** The slack of one edge. */
    method MoveSlack(u: int, v: int, e: real, ghost slack0: seq<real>)
      requires 0 <= u < v < n && |slack| == EdgeCount(n) && |slack0| == EdgeCount(n) && |outer| == 2 * n
      requires Labels(kind, n)
      requires (forall x :: 0 <= x < n ==> 0 <= outer[x] < 2 * n)
      requires forall a, b :: Scanned(a, b, u, v, n) ==> Moved(a, b, n, outer, kind, slack0, slack, e)
      requires forall a, b :: 0 <= a < b < n && !Scanned(a, b, u, v, n) ==>
        SlackOf(slack, n, a, b) == SlackOf(slack0, n, a, b)
      modifies `slack
      ensures |slack| == EdgeCount(n)
      ensures forall a, b :: Scanned(a, b, u, v + 1, n) ==> Moved(a, b, n, outer, kind, slack0, slack, e)
      ensures forall a, b :: 0 <= a < b < n && !Scanned(a, b, u, v + 1, n) ==>
        SlackOf(slack, n, a, b) == SlackOf(slack0, n, a, b)
    {
      hide EdgeCount;
      IndexInRange(n, u, v);
      var i := GetEdgeIndex(n, u, v);
      ghost var before := slack;
      var ku, kv := kind[outer[u]], kind[outer[v]];
      if outer[u] != outer[v] {
        if ku == EVEN && kv == EVEN {
          slack := slack[i := slack[i] - 2.0 * e];
        } else if ku == ODD && kv == ODD {
          slack := slack[i := slack[i] + 2.0 * e];
        } else if (kv == UNLABELED && ku == EVEN) || (ku == UNLABELED && kv == EVEN) {
          slack := slack[i := slack[i] - e];
        } else if (kv == UNLABELED && ku == ODD) || (ku == UNLABELED && kv == ODD) {
          slack := slack[i := slack[i] + e];
        }
      }
      assert slack[i] == before[i] + SlackChange(u, v, outer, kind, e);
      OneSlackMoved(u, v, n, outer, kind, slack0, before, slack, e);
    }

    /** Blossoms with a dual are blocked; those whose dual is gone are opened. If the blossoms to be opened are
        matched, no node becomes unmatched; if there are none to be opened, nothing but blocks changes. */
    method Unblock(ghost settled0: set<int>, ghost strong: bool)
      requires Valid() && Settled(settled0, n, outer, active, blocked, dual)
      requires CanOpen(family, settled0, n, mate, slack)
      requires strong ==> Strong(family, mate, family, settled0, n, active, blocked, dual, mate, slack)
      modifies `shallow, `outer, `active, `free, `mate, `family, `blocked
      ensures Valid() && Settled(Upto(n, 2 * n), n, outer, active, blocked, dual)
      ensures |active| == 2 * n && |old(active)| == 2 * n && |old(blocked)| == 2 * n && |blocked| == 2 * n
      ensures forall j :: n <= j < 2 * n && old(active)[j] && old(blocked)[j] && !(dual[j] > 0.0) ==> !active[j]
      ensures forall j :: 0 <= j < n ==> blocked[j] == old(blocked)[j]
      ensures strong ==> Strong(old(family), old(mate), family, Upto(n, 2 * n), n, active, blocked, dual, mate, slack)
      ensures (forall j :: n <= j < 2 * n && old(active)[j] && old(blocked)[j] ==> dual[j] > 0.0) ==>
                family == old(family) && mate == old(mate) && active == old(active)
    {
      hide EdgeCount, Whole, Settled, CanOpen, Upto, Strong;
      ghost var settled, active0, blocked0 := settled0, active, blocked;
      WholeSizes(family, {}, n, active, free, deep, shallow, outer);
      MateSize();
      hide Structure, Sizes;
      ghost var quiet := forall j :: n <= j < 2 * n && active[j] && blocked[j] ==> dual[j] > 0.0;
      for i := n to 2 * n
        invariant Valid() && Settled(settled, n, outer, active, blocked, dual)
        invariant CanOpen(family, settled, n, mate, slack)
        invariant Upto(n, i) <= settled && |active| == 2 * n && |blocked| == 2 * n
        invariant forall j :: n <= j < i && active0[j] && blocked0[j] && !(dual[j] > 0.0) ==> !active[j]
        invariant forall j :: i <= j < 2 * n && active[j] ==> blocked[j] == blocked0[j]
        invariant forall j :: n <= j < 2 * n && active[j] ==> active0[j]
        invariant forall j :: 0 <= j < n ==> blocked[j] == blocked0[j]
        invariant strong ==> Strong(old(family), old(mate), family, settled, n, active, blocked, dual, mate, slack)
        invariant quiet ==> family == old(family) && mate == old(mate) && active == old(active)
      {
        UnblockOne(i, settled, strong, old(family), old(mate));
        settled := settled + {i};
        UptoNext(n, i);
      }
      AllSettled(settled, n, outer, active, blocked, dual);
      if strong {
        StrongMore(old(family), old(mate), family, settled, Upto(n, 2 * n), n, active, blocked, dual, mate, slack);
      }
    }

    /** One pass of that loop. */
    method UnblockOne(i: int, ghost settled: set<int>, ghost strong: bool, ghost family0: set<Tree>,
                      ghost mate0: seq<int>)
      requires Valid() && Settled(settled, n, outer, active, blocked, dual) && CanOpen(family, settled, n, mate, slack)
      requires n <= i < 2 * n && |active| == 2 * n && |blocked| == 2 * n
      requires strong ==> Strong(family0, mate0, family, settled, n, active, blocked, dual, mate, slack)
      modifies `shallow, `outer, `active, `free, `mate, `family, `blocked
      ensures Valid() && Settled(settled + {i}, n, outer, active, blocked, dual)
      ensures CanOpen(family, settled + {i}, n, mate, slack)
      ensures |active| == 2 * n && |blocked| == 2 * n
      ensures forall j :: n <= j < 2 * n && active[j] ==> old(active)[j] && (j != i ==> blocked[j] == old(blocked)[j])
      ensures forall j :: 0 <= j < n ==> blocked[j] == old(blocked)[j]
      ensures old(active)[i] && old(blocked)[i] && !(dual[i] > 0.0) ==> !active[i]
      ensures !(old(active)[i] && old(blocked)[i] && !(dual[i] > 0.0)) ==>
        family == old(family) && mate == old(mate) && active == old(active)
      ensures strong ==> Strong(family0, mate0, family, settled + {i}, n, active, blocked, dual, mate, slack)
    {
      hide EdgeCount, Whole, Settled, CanOpen, Strong;
      WholeSizes(family, {}, n, active, free, deep, shallow, outer);
      SettleOne(settled, i, n, outer, active, blocked, dual);
      if strong {
        StrongOn(family0, mate0, family, settled, n, active, blocked, dual, mate, slack, i, outer);
      }
      if dual[i] > 0.0 {
        blocked := blocked[i := true];
      } else if active[i] && blocked[i] {
        OpenUnblocked(i, settled, strong, family0, mate0);
      }
      CanOpenMore(family, settled, settled + {i}, n, mate, slack);
    }

    /** A blossom that is becoming unblocked is destroyed if it is unmatched, and expanded otherwise. */
    method OpenUnblocked(i: int, ghost settled: set<int>, ghost strong: bool, ghost family0: set<Tree>,
                         ghost mate0: seq<int>)
      requires Valid() && Settled(settled, n, outer, active, blocked, dual) && CanOpen(family, settled, n, mate, slack)
      requires n <= i < 2 * n && |active| == 2 * n && active[i] && |blocked| == 2 * n && blocked[i] && !(dual[i] > 0.0)
      requires i !in settled
      requires |outer| == 2 * n && outer[i] == i
      requires strong ==> Strong(family0, mate0, family, settled, n, active, blocked, dual, mate, slack)
      modifies `shallow, `outer, `active, `free, `mate, `family, `blocked
      ensures Valid() && Settled(settled + {i}, n, outer, active, blocked, dual)
      ensures CanOpen(family, settled, n, mate, slack)
      ensures !active[i] && OnlyCloses(n, old(active), old(blocked), active, blocked)
      ensures forall j :: 0 <= j < n ==> blocked[j] == old(blocked)[j]
      ensures strong ==> Strong(family0, mate0, family, settled + {i}, n, active, blocked, dual, mate, slack)
    {
      hide Strong, Whole, EdgeCount, Settled, CanOpen;
      ghost var tree := OutermostTree(family, {}, n, active, free, deep, shallow, outer, i);
      Opens(family, settled, n, mate, slack, tree);
      if strong {
        StrongMatched(family0, mate0, family, settled, n, active, blocked, dual, mate, slack, tree);
      }
      NoDual(settled, n, outer, active, blocked, dual, i);
      if mate[i] == -1 {
        DestroyUnblocked(i, settled, tree);
      } else {
        ExpandUnblocked(i, settled, tree, strong, family0, mate0);
      }
      VerticesActive(family, n, active, free, deep, shallow, outer);
    }

    method DestroyUnblocked(i: int, ghost settled: set<int>, ghost tree: Tree)
      requires Valid() && Settled(settled, n, outer, active, blocked, dual) && CanOpen(family, settled, n, mate, slack)
      requires n <= i < 2 * n && tree in family && tree.id == i && mate[i] == -1 && dual[i] == 0.0
      modifies `shallow, `outer, `active, `free, `mate, `family, `blocked
      ensures Valid() && Settled(settled + {i}, n, outer, active, blocked, dual)
      ensures CanOpen(family, settled, n, mate, slack)
      ensures !active[i] && OnlyCloses(n, old(active), old(blocked), active, blocked)
    {
      hide EdgeCount, Whole, Settled, CanOpen, Kept, Opened, Ids, Untouched, Destroyed;
      ghost var stops := FullBlossoms(n, blocked, dual);
      ghost var family0, outer0, active0, blocked0, mate0, free0, shallow0 :=
        family, outer, active, blocked, mate, free, shallow;
      FullAgrees(n, blocked, dual, Ids(tree));
      OpensAt(family, n, active, free, deep, shallow, outer, tree, stops);
      DestroyBlossom(i, tree, {}, stops);
      KeptSettled(settled, n, free0, deep, shallow0, family0, tree, stops, outer0, active0, blocked0, dual);
      DestroyedFacts(family0, family, n, active0, active, tree, stops, blocked0, blocked, mate0, mate, free0, free,
        deep, shallow, outer0, outer);
      SettledAfter(settled, i, family0, n, free0, deep, shallow0, tree, stops, outer0, active0, blocked0, dual, outer,
        active, blocked);
      CanOpenAfterDestroy(family0, family, settled, n, mate0, mate, slack, tree, stops);
    }

    method ExpandUnblocked(i: int, ghost settled: set<int>, ghost tree: Tree, ghost strong: bool,
                           ghost family0: set<Tree>, ghost mate0: seq<int>)
      requires Valid() && Settled(settled, n, outer, active, blocked, dual) && CanOpen(family, settled, n, mate, slack)
      requires n <= i < 2 * n && tree in family && tree.id == i && dual[i] == 0.0 && TightTree(tree, slack, n)
      requires HasMate(family, tree, mate, slack, n)
      requires strong ==> Strong(family0, mate0, family, settled, n, active, blocked, dual, mate, slack)
      modifies `shallow, `outer, `active, `free, `mate, `family, `blocked
      ensures Valid() && Settled(settled + {i}, n, outer, active, blocked, dual)
      ensures CanOpen(family, settled, n, mate, slack)
      ensures !active[i] && OnlyCloses(n, old(active), old(blocked), active, blocked)
      ensures strong ==> Strong(family0, mate0, family, settled + {i}, n, active, blocked, dual, mate, slack)
    {
      hide EdgeCount, Whole, Settled, CanOpen, Kept, Opened, Ids, Untouched, Destroyed, Mutual, TightTree,
        MatchedExcept, Leaves, Strong,
        MatesOutside, BlockedOnes, HasMate;
      ghost var family1, outer0, active0, blocked0, mate1, free0, shallow0 :=
        family, outer, active, blocked, mate, free, shallow;
      ghost var partner := PartnerOf(family, n, active, free, deep, shallow, outer, mate, slack, tree);
      blocked := blocked[i := false];
      ghost var stops := BlockedOnes(n, blocked);
      BlockedBlocks(n, blocked, Ids(tree));
      OpensAt(family, n, active, free, deep, shallow, outer, tree, stops);
      ghost var piece := Expand(i, false, tree, partner, stops);
      KeptSettled(settled, n, free0, deep, shallow0, family1, tree, stops, outer0, active0, blocked0, dual);
      ExpandedFacts(family1, family, n, active0, active, tree, partner, piece, stops, free0, free, deep, shallow0,
        shallow, outer0, outer, mate, slack);
      NestedStops(settled, n, family1, free0, deep, shallow0, outer0, active0, blocked0, blocked, dual, tree, stops);
      SettledAfter(settled, i, family1, n, free0, deep, shallow0, tree, stops, outer0, active0, blocked0, dual, outer,
        active, blocked);
      CanOpenAfterExpand(family1, family, settled, n, mate1, mate, slack, tree, partner, piece, stops);
      if strong {
        StrongExpand(family0, mate0, family1, settled, n, active0, blocked0, dual, mate1, slack, tree, partner, piece,
          stops, family, active, blocked, mate);
      }
    }

    /** One step of the duals: it respects every bound and meets one of them unless it is zero, moves duals
        and slacks together so that the certificate holds again, and opens the blossoms whose dual is gone.
        After a phase of growth no node becomes unmatched, and the next reset finds everything ready. */
    method UpdateDualCosts(ghost costs: seq<real>, ghost strong: bool, ghost base: set<Tree>,
                           ghost stops: set<int>) returns (ghost e: real)
      requires Valid() && Labels(kind, n) && Certified(n, costs, slack, dual, deep) && TightFamily(family, slack, n)
      requires |outer| == 2 * n && |active| == 2 * n && Settled(Upto(n, 2 * n), n, outer, active, blocked, dual)
      requires OppositeMates(family, n, kind, mate, slack)
      requires strong ==> Growing(base, stops)
      modifies `dual, `slack, `shallow, `outer, `active, `free, `mate, `family, `blocked
      ensures Valid() && Certified(n, costs, slack, dual, deep)
      ensures Settled(Upto(n, 2 * n), n, outer, active, blocked, dual)
      ensures |old(slack)| == EdgeCount(n) && |old(outer)| == 2 * n && |old(active)| == 2 * n && |old(dual)| == 2 * n
      ensures IsStep(e, n, old(outer), old(active), kind, old(slack), old(dual))
      ensures forall j :: 0 <= j < 2 * n ==> dual[j] == old(dual)[j] + DualChange(j, old(outer), old(active), kind, e)
      ensures forall u, v :: 0 <= u < v < n ==> Moved(u, v, n, old(outer), kind, old(slack), slack, e)
      ensures |old(blocked)| == 2 * n && |active| == 2 * n && |blocked| == 2 * n && |dual| == 2 * n
      ensures forall j :: n <= j < 2 * n && old(active)[j] && old(blocked)[j] && !(dual[j] > 0.0) ==> !active[j]
      ensures strong ==> Ready(KeptOf(family, FullBlossoms(n, blocked, dual)), FullBlossoms(n, blocked, dual))
      ensures strong ==> FewerExposed(old(family), old(mate), family, mate, n)
    {
      hide EdgeCount, Whole, Certified, TightFamily, Settled, OppositeMates, IsStep, CanOpen, DualChange, SlackOf,
        IsReady, IsForest, IsWork,
        Labels, AllMoved, Unlabelled, KeptOf, FullBlossoms, Strong, Upto, FewerExposed, Moved;
      var step := MoveBoth(costs);
      e := step;
      ghost var family0, active0, free0, shallow0, outer0, mate0, blocked0 :=
        family, active, free, shallow, outer, mate, blocked;
      ghost var settled := Unlabelled(n, outer, kind);
      CanOpenStep(family, n, active, free, deep, shallow, outer, kind, mate, old(slack), slack, step);
      if strong {
        StrongStart(family, base, stops, n, active, free, deep, shallow, outer, forest, kind, root, mate, old(slack),
          blocked, old(dual), slack, dual, step);
      }
      Unblock(settled, strong);
      MateSize();
      if strong {
        RoundReady(family0, base, stops, n, active0, free0, deep, shallow0, outer0, forest, kind, root, mate0, blocked0,
          old(dual), old(slack), step,
          family, active, free, shallow, outer, blocked, dual, mate, slack);
      }
    }

    /** The duals and the slacks move together. */
    method MoveBoth(ghost costs: seq<real>) returns (e: real)
      requires Valid() && Labels(kind, n) && Certified(n, costs, slack, dual, deep)
      requires |outer| == 2 * n && |active| == 2 * n && Settled(Upto(n, 2 * n), n, outer, active, blocked, dual)
      modifies `dual, `slack
      ensures Valid() && Certified(n, costs, slack, dual, deep) && |kind| == 2 * n
      ensures Settled(Unlabelled(n, outer, kind), n, outer, active, blocked, dual)
      ensures |old(slack)| == EdgeCount(n) && |slack| == EdgeCount(n) && |old(dual)| == 2 * n && |dual| == 2 * n
      ensures e >= 0.0
      ensures IsStep(e, n, outer, active, kind, old(slack), old(dual))
      ensures forall j :: 0 <= j < 2 * n ==> dual[j] == old(dual)[j] + DualChange(j, outer, active, kind, e)
      ensures forall u, v :: 0 <= u < v < n ==> Moved(u, v, n, outer, kind, old(slack), slack, e)
      ensures AllMoved(n, outer, kind, old(slack), slack, e)
    {
      hide EdgeCount, Whole, Certified, Settled, IsStep, Moved, DualChange, SlackOf;
      MateSize();
      ghost var slack0, dual0 := slack, dual;
      CertifiedFacts(n, costs, slack, dual, deep);
      e := StepSize();
      MoveDuals(e);
      MoveSlacks(e);
      AllAllowed(family, n, active, free, deep, shallow, outer, kind, slack0, dual0, e);
      StepKeepsCertificate(family, n, active, free, deep, shallow, outer, kind, costs, slack0, slack, dual0, dual, e);
      SettledStep(n, outer, active, blocked, kind, costs, slack, dual0, dual, deep, e);
    }

    /** One round of the solver: match greedily, grow, move the duals, reset. True if everything is matched. */
    method SolveRound(ghost costs: seq<real>, ghost unit: real, ghost base: set<Tree>, ghost stops: set<int>)
      returns (perfect: bool, ghost base': set<Tree>, ghost stops': set<int>)
      requires Ready(base, stops) && family == base && InUnits(n, costs, slack, dual, deep, unit)
      requires BareAlike(base, mate, slack, n, unit)
      requires n % 2 == 0 && unit > 0.0
      modifies this
      ensures Ready(base', stops') && family == base' && InUnits(n, costs, slack, dual, deep, unit)
      ensures BareAlike(base', mate, slack, n, unit)
      ensures perfect ==> MatchedWithin(family, mate, slack, n)
      ensures !perfect ==> Sum(TwiceDuals(dual), 2 * n) >= Sum(TwiceDuals(old(dual)), 2 * n) + 2.0 * unit
    {
      hide EdgeCount, Whole, IsReady, IsForest, IsWork, Labels, Certified, KeptOf, FullBlossoms, PartlyMatched,
        TightFamily, Settled, OppositeMates, Upto,
        Good, Blocking, Exposed, FewerExposed, MatchedWithin, IsStep, Moved, DualChange, Laminar, InUnits, BareAlike,
        AllMultiple, Sum, TwiceDuals,
        Promising, Exhausted;
      UnitParts(n, costs, slack, dual, deep, unit);
      ghost var mate0 := mate;
      ReadyParts(family, base, stops, n, active, blocked, dual, mate, slack);
      GoodPartly(family, stops, mate, slack, n);
      LaminarOf(family, n, active, free, deep, shallow, outer);
      Heuristic();
      MatchedStay(base, mate0, mate);
      FewerBare(base, mate0, mate, slack, n, unit);
      ClosedFamily(family, stops, mate, slack, n);
      MakeReady(family, base, stops, n, active, blocked, dual, mate, slack);
      ghost var deep0, mate2 := deep, mate;
      perfect := Grow(base, stops);
      CertifiedStays(n, costs, slack, dual, deep0, deep);
      FewerBare(base, mate2, mate, slack, n, unit);
      MakeUnits(n, costs, slack, dual, deep, unit);
      UpdateAfterGrowth(costs, unit, base, stops, perfect);
      MateSize();
      stops' := FullBlossoms(n, blocked, dual);
      base' := KeptOf(family, stops');
      ghost var mate1 := mate;
      LaminarOf(family, n, active, free, deep, shallow, outer);
      ReadyParts(family, base', stops', n, active, blocked, dual, mate, slack);
      if perfect {
        NoneExposed(family, base', stops', mate, slack, n);
      }
      Restart(base', stops');
      FewerBare(base', mate1, mate, slack, n, unit);
      ReadyParts(family, base', stops', n, active, blocked, dual, mate, slack);
      if perfect {
        LaminarOf(family, n, active, free, deep, shallow, outer);
        GoodPartly(family, stops', mate, slack, n);
        PerfectlyMatched(family, mate, slack, n);
      }
    }

    /** The move of the duals after the forest has grown. */
    method UpdateAfterGrowth(ghost costs: seq<real>, ghost unit: real, ghost base: set<Tree>, ghost stops: set<int>,
                             ghost perfect: bool)
      requires Growing(base, stops) && InUnits(n, costs, slack, dual, deep, unit)
      requires BareAlike(base, mate, slack, n, unit)
      requires n % 2 == 0 && unit > 0.0 && |mate| == 2 * n && |kind| == 2 * n
      requires forall u, v :: !Promising(u, v, n, outer, kind, slack)
      requires perfect <==> forall t :: t in family && 0 <= t.id < 2 * n ==> mate[t.id] != -1
      modifies `dual, `slack, `shallow, `outer, `active, `free, `mate, `family, `blocked
      ensures |blocked| == 2 * n && |dual| == 2 * n && |mate| == 2 * n
      ensures Ready(KeptOf(family, FullBlossoms(n, blocked, dual)), FullBlossoms(n, blocked, dual))
      ensures InUnits(n, costs, slack, dual, deep, unit)
      ensures BareAlike(KeptOf(family, FullBlossoms(n, blocked, dual)), mate, slack, n, unit)
      ensures !perfect ==> Sum(TwiceDuals(dual), 2 * n) >= Sum(TwiceDuals(old(dual)), 2 * n) + 2.0 * unit
      ensures perfect ==> forall t :: t in family && 0 <= t.id < 2 * n ==> mate[t.id] != -1
    {
      hide EdgeCount, Whole, IsReady, IsForest, IsWork, Labels, Certified, KeptOf, FullBlossoms, PartlyMatched,
        TightFamily, Settled, OppositeMates, Upto,
        Good, Blocking, IsStep, Moved, DualChange, Laminar, FewerExposed, InUnits, BareAlike, AllMultiple, Sum,
        TwiceDuals, Promising, AllMoved;
      UnitParts(n, costs, slack, dual, deep, unit);
      MateSize();
      WholeSizes(family, {}, n, active, free, deep, shallow, outer);
      ReadyParts(family, base, stops, n, active, blocked, dual, mate, slack);
      ForestParts(family, stops, n, outer, forest, kind, root, mate, deep, slack);
      LaminarOf(family, n, active, free, deep, shallow, outer);
      GoodIsPartly(family, stops, mate, slack, n);
      ForestMates(family, stops, n, active, free, deep, shallow, outer, forest, kind, root, mate, slack);
      BlockingSettles(n, outer, active, blocked, dual);
      ghost var family0, mate0 := family, mate;
      ghost var active0, free0, shallow0, outer0, slack0, blocked0, dual0 :=
        active, free, shallow, outer, slack, blocked, dual;
      ghost var e := UpdateDualCosts(costs, true, base, stops);
      MateSize();
      StillPerfect(family0, mate0, family, mate, n);
      LaminarOf(family, n, active, free, deep, shallow, outer);
      AllMovedBy(n, outer0, kind, slack0, slack, e);
      RoundUnits(family0, base, stops, n, active0, free0, deep, shallow0, outer0, forest, kind, root, mate0, slack0,
        blocked0, dual0, costs, e, unit,
        family, KeptOf(family, FullBlossoms(n, blocked, dual)), FullBlossoms(n, blocked,
          dual), active, blocked, dual, mate, slack);
      MakeUnits(n, costs, slack, dual, deep, unit);
    }

    /** The rounds of the solver, and the matching read off at the end. The duals rise by at least two units in every
        round but the last, and stay below the cost of any perfect matching. */
    method Solve(costmatrix: seq<real>, ghost costs: seq<real>, ghost unit: real) returns (obj: real,
                 res: seq<(int, int)>)
      requires Valid() && family == Vertices(n) && mate == seq(2 * n, _ => -1) && Labels(kind, n)
      requires TightFamily(family, slack, n)
      requires |outer| == 2 * n && |active| == 2 * n && |blocked| == 2 * n && dual == seq(2 * n, _ => 0.0)
      requires Blocking(n, active, blocked, dual) && Certified(n, costs, slack, dual, deep)
      requires n % 2 == 0 && unit > 0.0 && AllMultiple(costs, 2.0 * unit) && AllMultiple(slack, 2.0 * unit)
      requires |costmatrix| == n * n
      requires forall u, v :: 0 <= u < n && 0 <= v < n && u != v ==>
        CostOf(costmatrix, n)(u, v) == CostOf(costmatrix, n)(v, u)
      modifies this
      ensures |mate| == 2 * n
      ensures IsPerfect(mate[..n], n) && 2.0 * obj == TwiceCost(CostOf(costmatrix, n), mate[..n])
      ensures PairsOf(res, seq(n, _ => true), mate[..n], n)
      ensures forall other :: IsPerfect(other, n) ==>
        TwiceCost(EdgeFunction(costs, n), mate[..n]) <= TwiceCost(EdgeFunction(costs, n), other)
    {
      hide EdgeCount, Whole, IsReady, Labels, Certified, KeptOf, FullBlossoms, PartlyMatched, TightFamily, Good,
        Blocking, MatchedWithin, Laminar,
        IsPerfect, TwiceCost, PairsOf, Vertices, CostOf, EdgeFunction, InUnits, BareAlike, AllMultiple, Sum,
        TwiceDuals, RoundsLeft, Neighbours;
      MateSize();
      LaminarOf(family, n, active, free, deep, shallow, outer);
      ghost var stops := FullBlossoms(n, blocked, dual);
      ghost var base := family;
      StartReady(n, stops, active, blocked, dual, mate, slack);
      StartUnits(n, base, mate, slack, dual, unit);
      MakeUnits(n, costs, slack, dual, deep, unit);
      ghost var bound := TwiceCost(EdgeFunction(costs, n), Neighbours(n));
      NeighboursPerfect(n);
      Bounded(base, stops, costs, unit);
      var perfect := false;
      while !perfect
        invariant Ready(base, stops) && family == base && InUnits(n, costs, slack, dual, deep, unit)
        invariant BareAlike(base, mate, slack, n, unit)
        invariant perfect ==> MatchedWithin(family, mate, slack, n)
        invariant Sum(TwiceDuals(dual), 2 * n) <= bound
        decreases !perfect, RoundsLeft(bound, Sum(TwiceDuals(dual), 2 * n), unit)
      {
        ghost var total := Sum(TwiceDuals(dual), 2 * n);
        perfect, base, stops := SolveRound(costs, unit, base, stops);
        Bounded(base, stops, costs, unit);
        if !perfect {
          RoundsShrink(bound, total, Sum(TwiceDuals(dual), 2 * n), unit);
        }
      }
      MateSize();
      UnitParts(n, costs, slack, dual, deep, unit);
      ReadyParts(family, base, stops, n, active, blocked, dual, mate, slack);
      WholeSizes(family, {}, n, active, free, deep, shallow, outer);
      InactiveNoDual(n, active, blocked, dual);
      ExpandAll(costs);
      obj, res := ReadMatching(costmatrix);
    }

    /** The sum of the duals is below the cost of a perfect matching. */
    lemma Bounded(base: set<Tree>, stops: set<int>, costs: seq<real>, unit: real)
      requires Ready(base, stops) && InUnits(n, costs, slack, dual, deep, unit) && IsPerfect(Neighbours(n), n)
      ensures Sum(TwiceDuals(dual), 2 * n) <= TwiceCost(EdgeFunction(costs, n), Neighbours(n))
    {
      hide EdgeCount, Whole, IsReady, Labels, Certified, Blocking, IsPerfect, TwiceCost, EdgeFunction, InUnits,
        AllMultiple, Sum, TwiceDuals, Neighbours;
      MateSize();
      UnitParts(n, costs, slack, dual, deep, unit);
      ReadyParts(family, base, stops, n, active, blocked, dual, mate, slack);
      DualsBounded(family, n, active, free, deep, shallow, outer, blocked, costs, slack, dual, Neighbours(n));
    }

    /** The last loop of the solver: with all outermost nodes matched without slack, opening everything
        leaves a perfect matching of the vertices that costs no more than any other. */
    method ExpandAll(ghost costs: seq<real>)
      requires Valid() && Certified(n, costs, slack, dual, deep) && TightFamily(family, slack, n)
      requires MatchedWithin(family, mate, slack, n) && |active| == 2 * n
      requires forall j :: n <= j < 2 * n && !active[j] ==> dual[j] == 0.0
      modifies `shallow, `outer, `active, `free, `mate, `family
      ensures Valid() && |mate| == 2 * n && IsPerfect(mate[..n], n)
      ensures forall other :: IsPerfect(other, n) ==>
        TwiceCost(EdgeFunction(costs, n), mate[..n]) <= TwiceCost(EdgeFunction(costs, n), other)
    {
      hide EdgeCount, Whole, Certified, TightFamily, MatchedWithin, Retrieved, Laminar, Blocks, Mutual, MatchedExcept,
        AllOnce, Kept, Ids, TightTree,
        IsPerfect, TwiceCost;
      ghost var family0, active0, free0, shallow0, outer0 := family, active, free, shallow, outer;
      WholeSizes(family, {}, n, active, free, deep, shallow, outer);
      WholeLaminar(family, n, active, free, deep, shallow, outer);
      RetrieveStart(family, n, mate, slack);
      for i := 0 to 2 * n
        invariant Valid() && |mate| == 2 * n && Retrieved(family0, family, i, n, mate, slack)
      {
        ExpandOne(i, family0);
      }
      forall other | IsPerfect(other, n)
        ensures IsPerfect(mate[..n], n)
        ensures TwiceCost(EdgeFunction(costs, n), mate[..n]) <= TwiceCost(EdgeFunction(costs, n), other)
      {
        RetrievedIsOptimal(family0, family, n, active0, free0, deep, shallow0, outer0, active, free, shallow, outer,
          mate, costs, slack, dual, other);
      }
      RetrievedIsPerfect(family0, family, n, active, free, deep, shallow, outer, mate, slack);
    }

    /** One pass of the last loop. */
    method ExpandOne(i: int, ghost family0: set<Tree>)
      requires Valid() && |mate| == 2 * n && 0 <= i < 2 * n && Laminar(family0, {}, n) && TightFamily(family0, slack, n)
      requires Retrieved(family0, family, i, n, mate, slack)
      modifies `shallow, `outer, `active, `free, `mate, `family
      ensures Valid() && |mate| == 2 * n && Retrieved(family0, family, i + 1, n, mate, slack)
    {
      hide EdgeCount, Whole, TightFamily, Retrieved, Laminar, Blocks, Mutual, MatchedExcept, AllOnce, Kept, Ids,
        TightTree;
      WholeSizes(family, {}, n, active, free, deep, shallow, outer);
      if active[i] && outer[i] == i {
        ghost var t, partner := RetrieveReady(family0, family, n, active, free, deep, shallow, outer, mate, slack, i);
        NothingBlocks(Ids(t), blocked, n);
        ghost var family1, mate1 := family, mate;
        if mate[i] != -1 {
          ghost var piece := Expand(i, true, t, partner, {});
          RetrieveStep(family0, family1, family, i, n, mate1, mate, slack, t, partner, piece);
        }
      } else {
        NoHead(family, n, active, free, deep, shallow, outer, i);
        RetrieveSkip(family0, family, i, n, mate, slack);
      }
    }

    /** How many edges without slack each vertex has. */
    method Degrees() returns (degree: seq<int>)
      requires Valid()
      ensures |degree| == n
    {
      hide EdgeCount, Whole;
      degree := seq(n, _ => 0);
      for u := 0 to n
        invariant |degree| == n
      {
        for v := u + 1 to n
          invariant |degree| == n
        {
          if !IsEdgeBlocked(slack, n, u, v) {
            degree := degree[u := degree[u] + 1];
            degree := degree[v := degree[v] + 1];
          }
        }
      }
    }

    /** The candidate of least degree for u, if there is one. */
    method PickPartner(u: int, degree: seq<int>) returns (min: int)
      requires Valid() && 0 <= u < n && |degree| == n && |outer| == 2 * n
      requires forall x :: 0 <= x < n ==> 0 <= outer[x] < 2 * n
      ensures min == -1 ==> forall v :: 0 <= v < n ==> !Candidate(u, v, n, slack, outer, mate)
      ensures min != -1 ==> Candidate(u, min, n, slack, outer, mate)
      ensures min != -1 ==> forall v :: 0 <= v < n && Candidate(u, v, n, slack, outer, mate) ==>
        degree[min] <= degree[v]
    {
      hide EdgeCount, Whole, SlackOf;
      min := -1;
      for v := 0 to n
        invariant min == -1 ==> forall x :: 0 <= x < v ==> !Candidate(u, x, n, slack, outer, mate)
        invariant min != -1 ==> Candidate(u, min, n, slack, outer, mate) && min < v
        invariant min != -1 ==> forall x :: 0 <= x < v && Candidate(u, x, n, slack, outer, mate) ==>
          degree[min] <= degree[x]
      {
        if u != v && !(IsEdgeBlocked(slack, n, u, v) || outer[u] == outer[v] || mate[outer[v]] != -1) {
          if min == -1 || degree[v] < degree[min] {
            min := v;
          }
        }
      }
    }

    /** A greedy matching of the outermost nodes: whatever it leaves unmatched cannot be matched directly. */
    method Heuristic()
      requires Valid() && PartlyMatched(family, mate, slack, n)
      modifies `mate
      ensures Valid() && PartlyMatched(family, mate, slack, n) && |outer| == 2 * n
      ensures forall u :: 0 <= u < n ==> Exhausted(u, n, slack, outer, mate)
      ensures |mate| == 2 * n && |old(mate)| == 2 * n
      ensures forall i :: 0 <= i < 2 * n && old(mate)[i] != -1 ==> mate[i] == old(mate)[i]
    {
      hide EdgeCount, Whole, PartlyMatched, Exhausted;
      OuterInRange(family, n, active, free, deep, shallow, outer);
      var degree := Degrees();
      for u := 0 to n
        invariant Valid() && PartlyMatched(family, mate, slack, n) && |mate| == 2 * n
        invariant forall x :: 0 <= x < u ==> Exhausted(x, n, slack, outer, mate)
        invariant forall i :: 0 <= i < 2 * n && old(mate)[i] != -1 ==> mate[i] == old(mate)[i]
      {
        ghost var before := mate;
        if mate[outer[u]] == -1 {
          var min := PickPartner(u, degree);
          if min != -1 {
            MatchPair(u, min);
          }
        }
        StillExhausted(u, n, slack, outer, before, mate);
      }
    }

    method MatchPair(u: int, v: int)
      requires Valid() && PartlyMatched(family, mate, slack, n) && |mate| == 2 * n && |outer| == 2 * n
      requires 0 <= u < n && 0 <= outer[u] < 2 * n && mate[outer[u]] == -1 && Candidate(u, v, n, slack, outer, mate)
      modifies `mate
      ensures Valid() && PartlyMatched(family, mate, slack, n) && |mate| == 2 * n && |old(mate)| == 2 * n
      ensures mate[outer[u]] != -1
      ensures forall i :: 0 <= i < 2 * n ==> mate[i] == old(mate)[i] || (old(mate)[i] == -1 && mate[i] >= 0)
    {
      hide EdgeCount, Whole, PartlyMatched, Laminar, Leaves;
      WholeLaminar(family, n, active, free, deep, shallow, outer);
      ghost var s := VertexTree(family, n, active, free, deep, shallow, outer, u);
      ghost var t := VertexTree(family, n, active, free, deep, shallow, outer, v);
      CandidateTight(u, v, n, slack, outer, mate);
      MatchTwo(family, n, mate, slack, s, t, u, v);
      mate := mate[outer[u] := v];
      mate := mate[outer[v] := u];
    }

    /** The pairs of the matching and their cost, each pair counted once. */
    method ReadMatching(costmatrix: seq<real>) returns (obj: real, res: seq<(int, int)>)
      requires |mate| == 2 * n && IsPerfect(mate[..n], n) && |costmatrix| == n * n
      requires forall u, v :: 0 <= u < n && 0 <= v < n && u != v ==>
        CostOf(costmatrix, n)(u, v) == CostOf(costmatrix, n)(v, u)
      ensures 2.0 * obj == TwiceCost(CostOf(costmatrix, n), mate[..n])
      ensures PairsOf(res, seq(n, _ => true), mate[..n], n)
    {
      ghost var partner, cost := mate[..n], CostOf(costmatrix, n);
      var hit := seq(n, _ => false);
      res := [];
      obj := 0.0;
      NoneHit(cost, partner, n, hit);
      hide PairsOf, HitCost;
      for u := 0 to n
        invariant |hit| == n && PairsOf(res, hit, partner, n) && 2.0 * obj == Sum(HitCost(hit, cost, partner), n)
        invariant forall x :: 0 <= x < u ==> hit[x]
      {
        if !hit[u] {
          NextPair(res, hit, partner, n, u);
          var v := mate[u];
          assert v == partner[u];
          NextCost(hit, cost, partner, n, u);
          AtInjective(u, v, u, v, n);
          assert costmatrix[u * n + v] == cost(u, v);
          hit := hit[u := true];
          hit := hit[v := true];
          obj := obj + costmatrix[u * n + v];
          res := res + [(u, v)];
        }
      }
      assert hit == seq(n, _ => true);
      AllHit(hit, cost, partner, n);
    }
  }
}
