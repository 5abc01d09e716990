/** The alternating forest: every even node climbs to an unmatched root, and growing keeps it so. */
module AlternatingForest {
  import opened BlossomTree
  import opened BlossomFamily
  import opened BlossomPartition
  import opened BlossomCircuit
  import opened BlossomMates
  import opened MatchingFacts
  import opened BlossomExpand
  import opened BlossomDuals
  import opened MatchingStart

  /** Each even node of the path is matched to the odd one above it. */
  ghost predicate Coupled(path: seq<int>, n: nat, outer: seq<int>, mate: seq<int>) {
    |mate| == 2 * n && |outer| == 2 * n && forall i :: 0 <= i < |path| - 1 && i % 2 == 0 ==>
      Leads(path[i], path[i + 1], n, outer, mate)
  }

  /** The link of p is a vertex of q. */
  ghost predicate Leads(p: int, q: int, n: nat, outer: seq<int>, link: seq<int>) {
    0 <= p < |link| && 0 <= link[p] < n <= |outer| && outer[link[p]] == q
  }

  /** An alternating path without slack from w up to an unmatched root, whose number all its nodes share. */
  ghost predicate Climbs(path: seq<int>, w: int, n: nat, outer: seq<int>, forest: seq<int>, kind: seq<int>,
                         root: seq<int>, mate: seq<int>,
                         deep: seq<seq<int>>, slack: seq<real>)
  {
    && RootPath(path, n, outer, forest) && Alternates(path, n, kind) && PathTight(path, deep, slack, n) && Coupled(path,
      n, outer, mate)
    && path[0] == w && |root| == 2 * n && root[w] == root[path[|path| - 1]] && mate[path[|path| - 1]] == -1
  }

  ghost predicate HasClimb(w: int, n: nat, outer: seq<int>, forest: seq<int>, kind: seq<int>, root: seq<int>,
                           mate: seq<int>,
                           deep: seq<seq<int>>, slack: seq<real>)
  {
    exists path :: Climbs(path, w, n, outer, forest, kind, root, mate, deep, slack)
  }

  ghost predicate EvensClimb(family: set<Tree>, n: nat, outer: seq<int>, forest: seq<int>, kind: seq<int>,
                             root: seq<int>, mate: seq<int>,
                             deep: seq<seq<int>>, slack: seq<real>)
  {
    forall t :: t in family && 0 <= t.id < |kind| && kind[t.id] == EVEN ==>
      HasClimb(t.id, n, outer, forest, kind, root, mate, deep, slack)
  }

  /** The unmatched nodes are even and have different root numbers; the mates of odd nodes are even. */
  ghost predicate Labelling(family: set<Tree>, n: nat, outer: seq<int>, kind: seq<int>, root: seq<int>,
                            mate: seq<int>) {
    && |outer| == 2 * n && |kind| == 2 * n && |root| == 2 * n && |mate| == 2 * n
    && (forall t :: t in family && 0 <= t.id < 2 * n && mate[t.id] == -1 ==> kind[t.id] == EVEN)
    && (forall t :: t in family && 0 <= t.id < 2 * n && kind[t.id] == ODD ==> MateIs(t.id, EVEN, n, outer, kind, mate))
    && (forall s, t ::
          s in family && t in family && 0 <= s.id < 2 * n && 0 <= t.id < 2 * n && s.id != t.id &&
          mate[s.id] == -1 && mate[t.id] == -1 ==>
          root[s.id] != root[t.id])
  }

  /** The mate of p lies in a node with the label. */
  ghost predicate MateIs(p: int, sort: int, n: nat, outer: seq<int>, kind: seq<int>, mate: seq<int>) {
    0 <= p < |mate| && 0 <= mate[p] < n <= |outer| && 0 <= outer[mate[p]] < |kind| && kind[outer[mate[p]]] == sort
  }

  // Climbing is deterministic --------------------------------------------------------------------------------

  /** From a common node on two climbs are the same. */
  lemma {:induction false} SameClimb(p: seq<int>, q: seq<int>, n: nat, outer: seq<int>, forest: seq<int>, i: int,
                                     j: int, k: int)
    requires RootPath(p, n, outer, forest) && RootPath(q, n, outer, forest) && 0 <= i < |p| && 0 <= j < |q|
    requires p[i] == q[j]
    requires 0 <= k < |p| - i
    ensures |p| - i == |q| - j && p[i + k] == q[j + k]
    decreases |p| - i
  {
    hide RootPath;
    PathNext(p, n, outer, forest, i);
    PathNext(q, n, outer, forest, j);
    if i < |p| - 1 {
      SameClimb(p, q, n, outer, forest, i + 1, j + 1, if k == 0 then 0 else k - 1);
    }
  }

  lemma ClimbParts(path: seq<int>, w: int, n: nat, outer: seq<int>, forest: seq<int>, kind: seq<int>, root: seq<int>,
                   mate: seq<int>,
                   deep: seq<seq<int>>, slack: seq<real>)
    requires Climbs(path, w, n, outer, forest, kind, root, mate, deep, slack)
    ensures RootPath(path, n, outer, forest) && Alternates(path, n, kind) && PathTight(path, deep, slack, n)
    ensures Coupled(path, n, outer, mate)
    ensures path != [] && path[0] == w && |root| == 2 * n && |mate| == 2 * n
    ensures 0 <= w < 2 * n && 0 <= path[|path| - 1] < 2 * n && root[w] == root[path[|path| - 1]]
    ensures mate[path[|path| - 1]] == -1
  {
  }

  lemma MakeClimb(path: seq<int>, w: int, n: nat, outer: seq<int>, forest: seq<int>, kind: seq<int>, root: seq<int>,
                  mate: seq<int>,
                  deep: seq<seq<int>>, slack: seq<real>)
    requires RootPath(path, n, outer, forest) && Alternates(path, n, kind) && PathTight(path, deep, slack, n)
    requires Coupled(path, n, outer, mate)
    requires path != [] && path[0] == w && |root| == 2 * n && |mate| == 2 * n
    requires 0 <= w < 2 * n && 0 <= path[|path| - 1] < 2 * n && root[w] == root[path[|path| - 1]]
    requires mate[path[|path| - 1]] == -1
    ensures HasClimb(w, n, outer, forest, kind, root, mate, deep, slack)
  {
    assert Climbs(path, w, n, outer, forest, kind, root, mate, deep, slack);
  }

  lemma PickClimb(w: int, n: nat, outer: seq<int>, forest: seq<int>, kind: seq<int>, root: seq<int>, mate: seq<int>,
                  deep: seq<seq<int>>, slack: seq<real>) returns (path: seq<int>)
    requires HasClimb(w, n, outer, forest, kind, root, mate, deep, slack)
    ensures Climbs(path, w, n, outer, forest, kind, root, mate, deep, slack)
  {
    path :| Climbs(path, w, n, outer, forest, kind, root, mate, deep, slack);
  }

  lemma ClimbOf(family: set<Tree>, t: Tree, n: nat, outer: seq<int>, forest: seq<int>, kind: seq<int>, root: seq<int>,
                mate: seq<int>,
                deep: seq<seq<int>>, slack: seq<real>) returns (path: seq<int>)
    requires EvensClimb(family, n, outer, forest, kind, root, mate, deep, slack) && t in family && 0 <= t.id < |kind|
    requires kind[t.id] == EVEN
    ensures Climbs(path, t.id, n, outer, forest, kind, root, mate, deep, slack)
  {
    hide Climbs;
    path := PickClimb(t.id, n, outer, forest, kind, root, mate, deep, slack);
  }

  lemma LabelAt(path: seq<int>, n: nat, kind: seq<int>, i: int)
    requires Alternates(path, n, kind) && 0 <= i < |path|
    ensures |kind| == 2 * n && 0 <= path[i] < 2 * n && kind[path[i]] == if i % 2 == 0 then EVEN else ODD
  {
  }

  /** Climbs with different root numbers have no node in common. */
  lemma ClimbsApart(p: seq<int>, q: seq<int>, x: int, y: int, n: nat, outer: seq<int>, forest: seq<int>, kind: seq<int>,
                    root: seq<int>,
                    mate: seq<int>, deep: seq<seq<int>>, slack: seq<real>, i: int, j: int)
    requires Climbs(p, x, n, outer, forest, kind, root, mate, deep, slack)
    requires Climbs(q, y, n, outer, forest, kind, root, mate, deep, slack)
    requires |root| == 2 * n && 0 <= x < 2 * n && 0 <= y < 2 * n && root[x] != root[y] && 0 <= i < |p| && 0 <= j < |q|
    ensures p[i] != q[j]
  {
    hide *;
    ClimbParts(p, x, n, outer, forest, kind, root, mate, deep, slack);
    ClimbParts(q, y, n, outer, forest, kind, root, mate, deep, slack);
    if p[i] == q[j] {
      SameClimb(p, q, n, outer, forest, i, j, |p| - 1 - i);
    }
  }

  // Mates of outermost nodes ----------------------------------------------------------------------------------

  /** The mate of a matched node lies in another node, whose mate lies in the first. */
  lemma MateBack(family: set<Tree>, n: nat, active: seq<bool>, free: seq<int>, deep: seq<seq<int>>,
                 shallow: seq<seq<int>>, outer: seq<int>,
                 mate: seq<int>, slack: seq<real>, t: Tree) returns (r: Tree)
    requires Whole(family, {}, n, active, free, deep, shallow, outer) && PartlyMatched(family, mate, slack, n)
    requires t in family
    requires 0 <= t.id < |mate| && mate[t.id] != -1
    ensures r in family && r != t && Mutual(t, r, mate, slack, n) && Leads(t.id, r.id, n, outer, mate)
    ensures Leads(r.id, t.id, n, outer, mate)
    ensures r.id != t.id && Joined(deep, slack, n, t.id, r.id)
  {
    hide Mutual, Whole, Leaves;
    TreeFacts(family, n, active, free, deep, shallow, outer, t);
    r := PartlyMate(family, mate, slack, n, t);
    TreeFacts(family, n, active, free, deep, shallow, outer, r);
    FamilyApart(family, n, active, free, deep, shallow, outer, t, r);
    WholeSizes(family, {}, n, active, free, deep, shallow, outer);
    LeadsBy(t, r, mate, slack, n, outer);
    MutualLinked(t, r, mate, slack, n);
  }

  lemma PartlyMate(family: set<Tree>, mate: seq<int>, slack: seq<real>, n: nat, t: Tree) returns (r: Tree)
    requires PartlyMatched(family, mate, slack, n) && t in family && 0 <= t.id < |mate| && mate[t.id] != -1
    ensures r in family && r != t && Mutual(t, r, mate, slack, n)
  {
    hide Mutual;
    r :| r in family && r != t && Mutual(t, r, mate, slack, n);
  }

  lemma LeadsBy(t: Tree, r: Tree, mate: seq<int>, slack: seq<real>, n: nat, outer: seq<int>)
    requires Mutual(t, r, mate, slack, n) && |outer| == 2 * n
    requires (forall v :: v in Leaves(t) ==> 0 <= v < n && outer[v] == t.id)
    requires forall v :: v in Leaves(r) ==> 0 <= v < n && outer[v] == r.id
    ensures Leads(t.id, r.id, n, outer, mate) && Leads(r.id, t.id, n, outer, mate)
  {
  }

  lemma MutualLinked(t: Tree, r: Tree, mate: seq<int>, slack: seq<real>, n: nat)
    requires Mutual(t, r, mate, slack, n)
    ensures Linked(slack, n, Leaves(t), Leaves(r))
  {
    assert Tight(slack, n, mate[r.id], mate[t.id]);
  }

  /** Trees with the same number are the same. */
  lemma SameId(family: set<Tree>, n: nat, s: Tree, t: Tree)
    requires Laminar(family, {}, n) && s in family && t in family && s.id == t.id
    ensures s == t
  {
    IdInTree(s);
    IdInTree(t);
  }

  lemma PickTree(family: set<Tree>, id: int) returns (t: Tree)
    requires HasTree(family, id)
    ensures t in family && t.id == id
  {
    t :| t in family && t.id == id;
  }

  lemma HasTreeBy(family: set<Tree>, t: Tree)
    requires t in family
    ensures HasTree(family, t.id)
  {
  }

  lemma LaminarOf(family: set<Tree>, n: nat, active: seq<bool>, free: seq<int>, deep: seq<seq<int>>,
                  shallow: seq<seq<int>>, outer: seq<int>)
    requires Whole(family, {}, n, active, free, deep, shallow, outer)
    ensures Laminar(family, {}, n)
  {
  }

  /** Every node of a climb is an outermost tree. */
  lemma ClimbTree(family: set<Tree>, n: nat, active: seq<bool>, free: seq<int>, deep: seq<seq<int>>,
                  shallow: seq<seq<int>>, outer: seq<int>,
                  forest: seq<int>, path: seq<int>, i: int)
    requires Whole(family, {}, n, active, free, deep, shallow, outer) && RootPath(path, n, outer, forest)
    requires HasTree(family, path[0])
    requires 0 <= i < |path|
    ensures HasTree(family, path[i])
  {
    hide Whole, HasTree, RootPath;
    if i > 0 {
      PathNext(path, n, outer, forest, i - 1);
      var t := VertexTree(family, n, active, free, deep, shallow, outer, forest[path[i - 1]]);
      HasTreeBy(family, t);
    }
  }

  // Labelling two more nodes -----------------------------------------------------------------------------------

  /** Labels change at x and y only, which had none. */
  lemma ClimbStays(path: seq<int>, w: int, n: nat, outer: seq<int>, forest: seq<int>, kind: seq<int>, root: seq<int>,
                   mate: seq<int>,
                   deep: seq<seq<int>>, slack: seq<real>, x: int, y: int, u: int, v: int, r: int)
    requires Climbs(path, w, n, outer, forest, kind, root, mate, deep, slack)
    requires 0 <= x < 2 * n && 0 <= y < 2 * n && |kind| == 2 * n && kind[x] == UNLABELED && kind[y] == UNLABELED
    ensures |forest| == 2 * n && |root| == 2 * n
    ensures HasClimb(w, n, outer, forest[x := u][y := v], kind[x := ODD][y := EVEN], root[x := r][y := r], mate, deep,
      slack)
  {
    ClimbParts(path, w, n, outer, forest, kind, root, mate, deep, slack);
    PathBounds(path, n, outer, forest);
    forall i | 0 <= i < |path|
      ensures path[i] != x && path[i] != y
    {
      LabelAt(path, n, kind, i);
    }
    var forest', kind', root' := forest[x := u][y := v], kind[x := ODD][y := EVEN], root[x := r][y := r];
    RootPathStays(path, n, outer, forest, forest');
    AlternatesStays(path, n, kind, kind');
    hide *;
    MakeClimb(path, w, n, outer, forest', kind', root', mate, deep, slack);
  }

  lemma RootPathStays(path: seq<int>, n: nat, outer: seq<int>, forest: seq<int>, forest': seq<int>)
    requires RootPath(path, n, outer, forest) && |forest'| == 2 * n
    requires forall i :: 0 <= i < |path| ==> forest'[path[i]] == forest[path[i]]
    ensures RootPath(path, n, outer, forest')
  {
  }

  lemma AlternatesStays(path: seq<int>, n: nat, kind: seq<int>, kind': seq<int>)
    requires Alternates(path, n, kind) && |kind'| == 2 * n
    requires forall i :: 0 <= i < |path| ==> kind'[path[i]] == kind[path[i]]
    ensures Alternates(path, n, kind')
  {
  }

  /** The climb of a node that was just reached: over its mate and the edge that led there. */
  lemma NewClimb(path: seq<int>, w: int, n: nat, outer: seq<int>, forest: seq<int>, kind: seq<int>, root: seq<int>,
                 mate: seq<int>,
                 deep: seq<seq<int>>, slack: seq<real>, x: int, y: int, u: int, v: int)
    requires Climbs(path, w, n, outer, forest, kind, root, mate, deep, slack)
    requires 0 <= x < 2 * n && 0 <= y < 2 * n && x != y && |kind| == 2 * n && kind[x] == UNLABELED
    requires kind[y] == UNLABELED
    requires 0 <= u < n && 0 <= v < n && outer[u] == w && outer[v] == x && Leads(y, x, n, outer, mate)
    requires Joined(deep, slack, n, y, x) && Joined(deep, slack, n, x, w)
    ensures |forest| == 2 * n && |root| == 2 * n && 0 <= w < 2 * n
    ensures HasClimb(y, n, outer, forest[x := u][y := v], kind[x := ODD][y := EVEN], root[x := root[w]][y := root[w]],
      mate, deep, slack)
  {
    ClimbParts(path, w, n, outer, forest, kind, root, mate, deep, slack);
    PathBounds(path, n, outer, forest);
    forall i | 0 <= i < |path|
      ensures path[i] != x && path[i] != y
    {
      LabelAt(path, n, kind, i);
    }
    var more := [y, x] + path;
    var forest', kind', root' := forest[x := u][y := v], kind[x := ODD][y := EVEN], root[x := root[w]][y := root[w]];
    assert forall i :: 2 <= i < |more| ==> more[i] == path[i - 2];
    NewRootPath(path, w, n, outer, forest, forest', x, y);
    NewAlternates(path, n, kind, kind', x, y);
    NewTight(path, w, n, deep, slack, x, y);
    NewCoupled(path, n, outer, mate, x, y);
    assert more[|more| - 1] == path[|path| - 1];
    hide *;
    MakeClimb(more, y, n, outer, forest', kind', root', mate, deep, slack);
  }

  lemma NewRootPath(path: seq<int>, w: int, n: nat, outer: seq<int>, forest: seq<int>, forest': seq<int>, x: int,
                    y: int)
    requires RootPath(path, n, outer, forest) && path[0] == w && |forest'| == 2 * n && x != y && 0 <= x < 2 * n
    requires 0 <= y < 2 * n
    requires (forall i :: 0 <= i < |path| ==> path[i] != x && path[i] != y && forest'[path[i]] == forest[path[i]])
    requires 0 <= forest'[x] < n && outer[forest'[x]] == w && 0 <= forest'[y] < n && outer[forest'[y]] == x
    ensures RootPath([y, x] + path, n, outer, forest')
  {
    var more := [y, x] + path;
    assert forall i :: 2 <= i < |more| ==> more[i] == path[i - 2];
  }

  lemma NewAlternates(path: seq<int>, n: nat, kind: seq<int>, kind': seq<int>, x: int, y: int)
    requires Alternates(path, n, kind) && |kind'| == 2 * n && 0 <= x < 2 * n && 0 <= y < 2 * n && kind'[x] == ODD
    requires kind'[y] == EVEN
    requires forall i :: 0 <= i < |path| ==> kind'[path[i]] == kind[path[i]]
    ensures Alternates([y, x] + path, n, kind')
  {
    var more := [y, x] + path;
    assert forall i :: 2 <= i < |more| ==> more[i] == path[i - 2];
  }

  lemma NewTight(path: seq<int>, w: int, n: nat, deep: seq<seq<int>>, slack: seq<real>, x: int, y: int)
    requires PathTight(path, deep, slack, n) && path != [] && path[0] == w
    requires Joined(deep, slack, n, y, x) && Joined(deep, slack, n, x, w)
    ensures PathTight([y, x] + path, deep, slack, n)
  {
    hide Joined;
    var more := [y, x] + path;
    assert forall i :: 2 <= i < |more| ==> more[i] == path[i - 2];
  }

  lemma NewCoupled(path: seq<int>, n: nat, outer: seq<int>, mate: seq<int>, x: int, y: int)
    requires Coupled(path, n, outer, mate) && Leads(y, x, n, outer, mate)
    ensures Coupled([y, x] + path, n, outer, mate)
  {
    hide Leads;
    var more := [y, x] + path;
    assert forall i :: 2 <= i < |more| ==> more[i] == path[i - 2];
  }

  lemma LabelFacts(family: set<Tree>, n: nat, outer: seq<int>, kind: seq<int>, root: seq<int>, mate: seq<int>, t: Tree)
    requires Labelling(family, n, outer, kind, root, mate) && t in family && 0 <= t.id < 2 * n
    ensures |kind| == 2 * n && |root| == 2 * n && |mate| == 2 * n && |outer| == 2 * n
    ensures mate[t.id] == -1 ==> kind[t.id] == EVEN
    ensures kind[t.id] == ODD ==> MateIs(t.id, EVEN, n, outer, kind, mate)
  {
  }

  lemma RootsDiffer(family: set<Tree>, n: nat, outer: seq<int>, kind: seq<int>, root: seq<int>, mate: seq<int>, s: Tree,
                    t: Tree)
    requires Labelling(family, n, outer, kind, root, mate) && s in family && t in family && 0 <= s.id < 2 * n
    requires 0 <= t.id < 2 * n
    requires s.id != t.id && mate[s.id] == -1 && mate[t.id] == -1
    ensures root[s.id] != root[t.id]
  {
  }

  /** An even node that is matched has an odd mate. */
  lemma EvenMate(path: seq<int>, w: int, n: nat, outer: seq<int>, forest: seq<int>, kind: seq<int>, root: seq<int>,
                 mate: seq<int>,
                 deep: seq<seq<int>>, slack: seq<real>)
    requires Climbs(path, w, n, outer, forest, kind, root, mate, deep, slack) && 0 <= w < |mate| && mate[w] != -1
    ensures |path| >= 2 && MateIs(w, ODD, n, outer, kind, mate)
  {
    ClimbParts(path, w, n, outer, forest, kind, root, mate, deep, slack);
    LabelAt(path, n, kind, 0);
    if |path| >= 2 {
      LabelAt(path, n, kind, 1);
      assert Leads(path[0], path[1], n, outer, mate);
    }
  }

  /** The mate of an unlabelled node is unlabelled. */
  lemma FreshPair(family: set<Tree>, n: nat, active: seq<bool>, free: seq<int>, deep: seq<seq<int>>,
                  shallow: seq<seq<int>>, outer: seq<int>,
                  forest: seq<int>, kind: seq<int>, root: seq<int>, mate: seq<int>, slack: seq<real>,
                  s: Tree) returns (t: Tree)
    requires Whole(family, {}, n, active, free, deep, shallow, outer) && PartlyMatched(family, mate, slack, n)
    requires EvensClimb(family, n, outer, forest, kind, root, mate, deep, slack)
    requires Labelling(family, n, outer, kind, root, mate)
    requires Labels(kind, n) && s in family && 0 <= s.id < 2 * n && kind[s.id] == UNLABELED
    ensures t in family && t != s && t.id != s.id && 0 <= t.id < 2 * n && kind[t.id] == UNLABELED
    ensures Mutual(s, t, mate, slack, n) && Leads(s.id, t.id, n, outer, mate) && Leads(t.id, s.id, n, outer, mate)
    ensures Joined(deep, slack, n, t.id, s.id)
  {
    hide *;
    SortsDiffer();
    LabelFacts(family, n, outer, kind, root, mate, s);
    t := MateBack(family, n, active, free, deep, shallow, outer, mate, slack, s);
    TreeFacts(family, n, active, free, deep, shallow, outer, t);
    LabelFacts(family, n, outer, kind, root, mate, t);
    JoinedBack(deep, slack, n, s.id, t.id);
    LeadsFacts(t.id, s.id, n, outer, mate);
    if kind[t.id] == EVEN {
      var path := ClimbOf(family, t, n, outer, forest, kind, root, mate, deep, slack);
      EvenMate(path, t.id, n, outer, forest, kind, root, mate, deep, slack);
      MateLabel(t.id, s.id, ODD, n, outer, kind, mate);
    } else if kind[t.id] == ODD {
      MateLabel(t.id, s.id, EVEN, n, outer, kind, mate);
    }
    LabelsAt(kind, n, t.id);
  }

  lemma SortsDiffer()
    ensures EVEN != ODD && EVEN != UNLABELED && ODD != UNLABELED
  {
  }

  lemma LeadsFacts(p: int, q: int, n: nat, outer: seq<int>, mate: seq<int>)
    requires Leads(p, q, n, outer, mate)
    ensures 0 <= p < |mate| && 0 <= mate[p] < n <= |outer| && outer[mate[p]] == q
  {
  }

  lemma MateLabel(p: int, q: int, sort: int, n: nat, outer: seq<int>, kind: seq<int>, mate: seq<int>)
    requires Leads(p, q, n, outer, mate) && MateIs(p, sort, n, outer, kind, mate)
    ensures 0 <= q < |kind| && kind[q] == sort
  {
  }

  lemma LabelsAt(kind: seq<int>, n: nat, i: int)
    requires Labels(kind, n) && 0 <= i < 2 * n
    ensures |kind| == 2 * n && (kind[i] == EVEN || kind[i] == ODD || kind[i] == UNLABELED)
  {
  }

  /** The labels after a step of growth. */
  lemma LabellingGrows(family: set<Tree>, n: nat, outer: seq<int>, kind: seq<int>, root: seq<int>, mate: seq<int>,
                       s: Tree, t: Tree, r: int)
    requires Laminar(family, {}, n) && Labelling(family, n, outer, kind, root, mate) && s in family && t in family
    requires s.id != t.id
    requires 0 <= s.id < 2 * n && 0 <= t.id < 2 * n && kind[s.id] == UNLABELED && kind[t.id] == UNLABELED
    requires Leads(s.id, t.id, n, outer, mate)
    ensures Labelling(family, n, outer, kind[s.id := ODD][t.id := EVEN], root[s.id := r][t.id := r], mate)
  {
    hide Laminar;
    var kind', root' := kind[s.id := ODD][t.id := EVEN], root[s.id := r][t.id := r];
    LabelFacts(family, n, outer, kind, root, mate, s);
    LabelFacts(family, n, outer, kind, root, mate, t);
    forall k | k in family && 0 <= k.id < 2 * n && kind'[k.id] == ODD
      ensures MateIs(k.id, EVEN, n, outer, kind', mate)
    {
      if k.id != s.id {
        assert MateIs(k.id, EVEN, n, outer, kind, mate);
      }
    }
  }

  lemma EvensGrow(family: set<Tree>, n: nat, outer: seq<int>, forest: seq<int>, kind: seq<int>, root: seq<int>,
                  mate: seq<int>,
                  deep: seq<seq<int>>, slack: seq<real>, w: Tree, s: Tree, t: Tree, u: int, v: int)
    requires EvensClimb(family, n, outer, forest, kind, root, mate, deep, slack) && w in family
    requires |kind| == 2 * n && |forest| == 2 * n && |root| == 2 * n && |outer| == 2 * n && 0 <= w.id < 2 * n
    requires kind[w.id] == EVEN
    requires 0 <= s.id < 2 * n && 0 <= t.id < 2 * n && s.id != t.id && kind[s.id] == UNLABELED
    requires kind[t.id] == UNLABELED
    requires 0 <= u < n && 0 <= v < n && outer[u] == w.id && outer[v] == s.id && Leads(t.id, s.id, n, outer, mate)
    requires Joined(deep, slack, n, t.id, s.id) && Joined(deep, slack, n, s.id, w.id)
    ensures EvensClimb(family, n, outer, forest[s.id := u][t.id := v], kind[s.id := ODD][t.id := EVEN],
              root[s.id := root[w.id]][t.id := root[w.id]], mate, deep, slack)
  {
    hide Climbs, HasClimb, Joined, Leads;
    var forest', kind', root' := forest[s.id := u][t.id := v], kind[s.id := ODD][t.id := EVEN],
      root[s.id := root[w.id]][t.id := root[w.id]];
    forall k | k in family && 0 <= k.id < |kind'| && kind'[k.id] == EVEN
      ensures HasClimb(k.id, n, outer, forest', kind', root', mate, deep, slack)
    {
      if k.id == t.id {
        var path := ClimbOf(family, w, n, outer, forest, kind, root, mate, deep, slack);
        NewClimb(path, w.id, n, outer, forest, kind, root, mate, deep, slack, s.id, t.id, u, v);
      } else {
        var path := ClimbOf(family, k, n, outer, forest, kind, root, mate, deep, slack);
        ClimbStays(path, k.id, n, outer, forest, kind, root, mate, deep, slack, s.id, t.id, u, v, root[w.id]);
      }
    }
  }

  lemma LabelsGrow(kind: seq<int>, n: nat, x: int, y: int)
    requires Labels(kind, n) && 0 <= x < 2 * n && 0 <= y < 2 * n
    ensures Labels(kind[x := ODD][y := EVEN], n)
  {
  }

  /** A step of growth: from an even node over an edge without slack to an unlabelled node and on to its mate. */
  lemma LabelTwo(family: set<Tree>, n: nat, active: seq<bool>, free: seq<int>, deep: seq<seq<int>>,
                 shallow: seq<seq<int>>, outer: seq<int>,
                 forest: seq<int>, kind: seq<int>, root: seq<int>, mate: seq<int>, slack: seq<real>, u: int, v: int)
    requires Whole(family, {}, n, active, free, deep, shallow, outer) && PartlyMatched(family, mate, slack, n)
    requires EvensClimb(family, n, outer, forest, kind, root, mate, deep, slack)
    requires Labelling(family, n, outer, kind, root, mate)
    requires Labels(kind, n) && |forest| == 2 * n && 0 <= u < n && 0 <= v < n && Tight(slack, n, u, v)
    requires |outer| == 2 * n && 0 <= outer[u] < |kind| && 0 <= outer[v] < |kind| && kind[outer[u]] == EVEN
    requires kind[outer[v]] == UNLABELED
    ensures |mate| == 2 * n && 0 <= outer[v] < 2 * n && 0 <= mate[outer[v]] < n && 0 <= outer[mate[outer[v]]] < 2 * n
    ensures |root| == 2 * n && |kind| == 2 * n && kind[outer[mate[outer[v]]]] == UNLABELED
    ensures outer[mate[outer[v]]] != outer[v]
    ensures Labels(kind[outer[v] := ODD][outer[mate[outer[v]]] := EVEN], n)
    ensures EvensClimb(family, n, outer, forest[outer[v] := u][outer[mate[outer[v]]] := v],
      kind[outer[v] := ODD][outer[mate[outer[v]]] := EVEN],
              root[outer[v] := root[outer[u]]][outer[mate[outer[v]]] := root[outer[u]]], mate, deep, slack)
    ensures Labelling(family, n, outer, kind[outer[v] := ODD][outer[mate[outer[v]]] := EVEN],
              root[outer[v] := root[outer[u]]][outer[mate[outer[v]]] := root[outer[u]]], mate)
  {
    hide *;
    var w := VertexTree(family, n, active, free, deep, shallow, outer, u);
    var s := VertexTree(family, n, active, free, deep, shallow, outer, v);
    LabelFacts(family, n, outer, kind, root, mate, s);
    var t := FreshPair(family, n, active, free, deep, shallow, outer, forest, kind, root, mate, slack, s);
    LeadsFacts(s.id, t.id, n, outer, mate);
    JoinedByEdge(family, n, active, free, deep, shallow, outer, slack, u, v);
    JoinedBack(deep, slack, n, outer[u], outer[v]);
    LaminarOf(family, n, active, free, deep, shallow, outer);
    EvensGrow(family, n, outer, forest, kind, root, mate, deep, slack, w, s, t, u, v);
    LabellingGrows(family, n, outer, kind, root, mate, s, t, root[w.id]);
    LabelsGrow(kind, n, s.id, t.id);
  }
}
