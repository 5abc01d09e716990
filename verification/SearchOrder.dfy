/** What the search has still to look at: no edge without slack that could go on is ever forgotten. */
module SearchOrder {
  import opened Duality
  import opened EdgeIndex
  import opened BlossomTree
  import opened BlossomFamily
  import opened BlossomPartition
  import opened BlossomCircuit
  import opened MatchingFacts
  import opened BlossomExpand
  import opened BlossomUnblock
  import opened AlternatingForest
  import opened ForestContraction
  import opened ForestGrowth

  /** An edge without slack from an even node to another one that is not odd. */
  ghost predicate Promising(u: int, v: int, n: nat, outer: seq<int>, kind: seq<int>, slack: seq<real>) {
    && 0 <= u < n && 0 <= v < n && Tight(slack, n, u, v) && |outer| == 2 * n && |kind| == 2 * n
    && 0 <= outer[u] < 2 * n && 0 <= outer[v] < 2 * n && outer[u] != outer[v] && kind[outer[u]] == EVEN &&
      kind[outer[v]] != ODD
  }

  lemma PromisingBack(u: int, v: int, n: nat, outer: seq<int>, kind: seq<int>, slack: seq<real>)
    requires Promising(u, v, n, outer, kind, slack) && kind[outer[v]] == EVEN
    ensures Promising(v, u, n, outer, kind, slack)
  {
    IndexInRange(n, u, v);
  }

  /** Some entry of the work list leads to r. */
  ghost predicate OnList(list: seq<int>, outer: seq<int>, r: int) {
    exists k :: 0 <= k < |list| && 0 <= list[k] < |outer| && outer[list[k]] == r
  }

  /** The edges at u will be looked at: its node is on the list, it is one of the later vertices of the node being
      explored, or it is the vertex u0 itself and v is still to come. */
  ghost predicate Due(u: int, v: int, list: seq<int>, outer: seq<int>, later: set<int>, u0: int, v0: int) {
    u in later || (u == u0 && v >= v0) || (0 <= u < |outer| && OnList(list, outer, outer[u]))
  }

  /** Every promising edge will be looked at from an even end. */
  ghost predicate Pending(list: seq<int>, later: set<int>, u0: int, v0: int, n: nat, outer: seq<int>, kind: seq<int>,
                          slack: seq<real>) {
    forall u, v :: Promising(u, v, n, outer, kind, slack) ==>
      Due(u, v, list, outer, later, u0, v0) || (kind[outer[v]] == EVEN && Due(v, u, list, outer, later, u0, v0))
  }

  /** Only even nodes are marked as visited. */
  ghost predicate SeenAreEven(visited: seq<bool>, kind: seq<int>, n: nat) {
    |visited| == 2 * n && |kind| == 2 * n && forall j :: 0 <= j < 2 * n && visited[j] ==> kind[j] == EVEN
  }

  /** The vertices lie in the outermost node w. */
  ghost predicate AllIn(later: set<int>, w: int, n: nat, outer: seq<int>) {
    |outer| == 2 * n && forall x :: x in later ==> 0 <= x < n && outer[x] == w
  }

  ghost predicate AllVertices(list: seq<int>, n: nat) {
    forall k :: 0 <= k < |list| ==> 0 <= list[k] < n
  }

  /** All entries are vertices, but the last may be a blossom that was just contracted. */
  ghost predicate ListShape(list: seq<int>, n: nat, outer: seq<int>) {
    && |outer| == 2 * n && (forall k :: 0 <= k < |list| - 1 ==> 0 <= list[k] < n)
    && (list != [] ==>
          0 <= list[|list| - 1] < n || (n <= list[|list| - 1] < 2 * n && outer[list[|list| - 1]] == list[|list| - 1]))
  }

  lemma VerticesShape(list: seq<int>, n: nat, outer: seq<int>)
    requires AllVertices(list, n) && |outer| == 2 * n
    ensures ListShape(list, n, outer)
  {
  }

  lemma ShapeLess(list: seq<int>, n: nat, outer: seq<int>)
    requires ListShape(list, n, outer) && list != []
    ensures AllVertices(list[..|list| - 1], n)
  {
  }

  // At the start ---------------------------------------------------------------------------------------------

  lemma WorkVertices(list: seq<int>, n: nat, outer: seq<int>, mate: seq<int>)
    requires IsWorkList(list, n, outer, mate)
    ensures AllVertices(list, n)
  {
  }

  /** After a reset all even nodes are on the list. */
  lemma PendingStart(list: seq<int>, n: nat, outer: seq<int>, mate: seq<int>, kind: seq<int>, slack: seq<real>)
    requires Labelled(n, n, outer, mate, kind) && IsWorkList(list, n, outer, mate)
    ensures Pending(list, {}, -1, 0, n, outer, kind, slack)
  {
    hide Tight;
    forall u, v | Promising(u, v, n, outer, kind, slack)
      ensures Due(u, v, list, outer, {}, -1, 0)
    {
      assert mate[outer[u]] == -1;
      var k :| 0 <= k < |list| && outer[list[k]] == outer[u];
      assert OnList(list, outer, outer[u]);
    }
  }

  lemma SeenStart(list: seq<int>, n: nat, outer: seq<int>, mate: seq<int>, kind: seq<int>, visited: seq<bool>)
    requires Labelled(n, n, outer, mate, kind) && Listed(list, n, n, outer, mate, visited)
    ensures SeenAreEven(visited, kind, n)
  {
    forall r | 0 <= r < 2 * n && visited[r]
      ensures kind[r] == EVEN
    {
      var k :| 0 <= k < |list| && outer[list[k]] == r;
      assert 0 <= list[k] < n;
    }
  }

  /** Where the vertices are after a contraction of a circuit that starts at the node of u. */
  lemma NewOuter(family: set<Tree>, n: nat, active: seq<bool>, free: seq<int>, deep: seq<seq<int>>,
                 shallow: seq<seq<int>>, outer: seq<int>,
                 kids: seq<Tree>, t: int, active': seq<bool>, free': seq<int>, deep': seq<seq<int>>,
                 shallow': seq<seq<int>>, outer': seq<int>,
                 up: seq<int>, a: int, vp: seq<int>, b: int)
    requires Whole(family, {}, n, active, free, deep, shallow, outer) && Picked(family, kids) && kids != []
    requires Whole(family - Members(kids) + {Tree(t, kids)}, {}, n, active', free', deep', shallow', outer')
    requires 0 <= a < |up| && 0 <= b < |vp| && Roots(kids) == Circuit(up, a, vp, b)
    ensures |outer| == 2 * n && |outer'| == 2 * n && 0 <= t < 2 * n && outer'[t] == t && up[0] in Roots(kids)
    ensures forall x :: 0 <= x < n ==> outer'[x] == Image(Roots(kids), t, outer[x])
    ensures forall x :: 0 <= x < n ==> 0 <= outer[x] < 2 * n && outer[x] != t
  {
    hide *;
    LaminarOf(family, n, active, free, deep, shallow, outer);
    LaminarOf(family - Members(kids) + {Tree(t, kids)}, n, active', free', deep', shallow', outer');
    NewNumber(family, kids, t, n);
    IsContracted(family, n, active, free, deep, shallow, outer, kids, t, active', free', deep', shallow', outer');
    ContractedOuter(family, kids, t, n, deep, outer, deep', outer');
    UpOnCircuit(up, a, vp, b, 0);
    assert Tree(t, kids) in family - Members(kids) + {Tree(t, kids)};
    TreeFacts(family - Members(kids) + {Tree(t, kids)}, n, active', free', deep', shallow', outer', Tree(t, kids));
    forall x | 0 <= x < n
      ensures 0 <= outer[x] < 2 * n && outer[x] != t
    {
      var s := VertexTree(family, n, active, free, deep, shallow, outer, x);
      HasTreeBy(family, s);
    }
  }

  lemma ContractedOuter(family: set<Tree>, kids: seq<Tree>, t: int, n: nat, deep: seq<seq<int>>, outer: seq<int>,
                        deep': seq<seq<int>>, outer': seq<int>)
    requires Contracted(family, kids, t, n, deep, outer, deep', outer')
    ensures |outer| == 2 * n && |outer'| == 2 * n && !HasTree(family, t)
    ensures forall x :: 0 <= x < n ==> outer'[x] == Image(Roots(kids), t, outer[x])
  {
  }

  // Taking an entry from the list ------------------------------------------------------------------------------

  lemma PendingTake(list: seq<int>, n: nat, outer: seq<int>, kind: seq<int>, slack: seq<real>, later: set<int>)
    requires Pending(list, {}, -1, 0, n, outer, kind, slack) && list != [] && |outer| == 2 * n
    requires 0 <= list[|list| - 1] < 2 * n
    requires forall u :: 0 <= u < n && outer[u] == outer[list[|list| - 1]] ==> u in later
    ensures Pending(list[..|list| - 1], later, -1, 0, n, outer, kind, slack)
  {
    hide Tight;
    var less := list[..|list| - 1];
    forall u, v | 0 <= u < n && 0 <= v < n && Due(u, v, list, outer, {}, -1, 0)
      ensures Due(u, v, less, outer, later, -1, 0)
    {
      var k :| 0 <= k < |list| && 0 <= list[k] < |outer| && outer[list[k]] == outer[u];
      if k < |list| - 1 {
        assert less[k] == list[k];
        assert OnList(less, outer, outer[u]);
      }
    }
    hide Due;
    forall u, v | Promising(u, v, n, outer, kind, slack)
      ensures Due(u, v, less, outer, later, -1, 0) || (kind[outer[v]] == EVEN && Due(v, u, less, outer, later, -1, 0))
    {
    }
  }

  /** The number of an outermost node, and the vertices in it. */
  ghost predicate IsNode(w: int, n: nat, outer: seq<int>, deep: seq<seq<int>>) {
    && |outer| == 2 * n && |deep| == 2 * n && 0 <= w < 2 * n
    && forall x :: x in deep[w] <==> 0 <= x < n && outer[x] == w
  }

  /** The last entry of the list leads to an outermost node. */
  lemma EntryTree(family: set<Tree>, n: nat, active: seq<bool>, free: seq<int>, deep: seq<seq<int>>,
                  shallow: seq<seq<int>>, outer: seq<int>, list: seq<int>,
                  kind: seq<int>) returns (t: Tree)
    requires Whole(family, {}, n, active, free, deep, shallow, outer) && ListShape(list, n, outer) && list != []
    requires InEven(list[|list| - 1], family, kind)
    ensures 0 <= list[|list| - 1] < 2 * n && |outer| == 2 * n && t in family && outer[list[|list| - 1]] == t.id
  {
    hide Whole, Ids;
    var x := list[|list| - 1];
    WholeSizes(family, {}, n, active, free, deep, shallow, outer);
    if x < n {
      t := VertexTree(family, n, active, free, deep, shallow, outer, x);
    } else {
      var s :| s in family && x in Ids(s) && 0 <= s.id < |kind| && kind[s.id] == EVEN;
      ActiveIds(family, n, active, free, deep, shallow, outer, s);
      t := OutermostTree(family, {}, n, active, free, deep, shallow, outer, x);
    }
  }

  lemma TreeNode(family: set<Tree>, n: nat, active: seq<bool>, free: seq<int>, deep: seq<seq<int>>,
                 shallow: seq<seq<int>>, outer: seq<int>, t: Tree)
    requires Whole(family, {}, n, active, free, deep, shallow, outer) && t in family
    ensures 0 <= t.id < 2 * n && IsNode(t.id, n, outer, deep) && |deep| == 2 * n
  {
    hide Whole, Leaves;
    WholeSizes(family, {}, n, active, free, deep, shallow, outer);
    TreeFacts(family, n, active, free, deep, shallow, outer, t);
    forall u
      ensures u in deep[t.id] <==> 0 <= u < n && outer[u] == t.id
    {
      if 0 <= u < n {
        DeepIffOuter(family, n, active, free, deep, shallow, outer, t, u);
      }
    }
  }

  lemma EntryNode(family: set<Tree>, n: nat, active: seq<bool>, free: seq<int>, deep: seq<seq<int>>,
                  shallow: seq<seq<int>>, outer: seq<int>, list: seq<int>,
                  kind: seq<int>)
    requires Whole(family, {}, n, active, free, deep, shallow, outer) && ListShape(list, n, outer) && list != []
    requires InEven(list[|list| - 1], family, kind)
    ensures var x := list[|list| - 1];
      0 <= x < 2 * n && |outer| == 2 * n && |deep| == 2 * n && 0 <= outer[x] < 2 * n && IsNode(outer[x], n, outer, deep)
        && forall u :: 0 <= u < n && outer[u] == outer[x] ==> u in Elements(deep[outer[x]])
  {
    hide Whole, ListShape, InEven;
    var t := EntryTree(family, n, active, free, deep, shallow, outer, list, kind);
    TreeNode(family, n, active, free, deep, shallow, outer, t);
  }

  lemma ElementsFrom(s: seq<int>, k: int)
    requires 0 <= k < |s|
    ensures Elements(s[k..]) == Elements(s[k + 1..]) + {s[k]}
  {
    assert s[k..] == [s[k]] + s[k + 1..];
  }

  lemma PartElements(s: seq<int>, k: int)
    requires 0 <= k <= |s|
    ensures Elements(s[k..]) <= Elements(s)
  {
  }

  lemma LaterInNode(w: int, n: nat, outer: seq<int>, deep: seq<seq<int>>, k: int)
    requires IsNode(w, n, outer, deep) && 0 <= k < |deep[w]|
    ensures 0 <= deep[w][k] < n && outer[deep[w][k]] == w
    ensures AllIn(Elements(deep[w][k + 1..]), w, n, outer)
  {
    assert deep[w][k] in deep[w];
    assert Elements(deep[w][k + 1..]) <= Elements(deep[w]) by {
      PartElements(deep[w], k + 1);
    }
    assert forall x :: x in Elements(deep[w]) ==> x in deep[w];
  }

  lemma SeenSize(visited: seq<bool>, kind: seq<int>, n: nat)
    requires SeenAreEven(visited, kind, n)
    ensures |visited| == 2 * n
  {
  }

  /** The next vertex of the node. */
  lemma PendingAt(list: seq<int>, later: set<int>, u0: int, n: nat, outer: seq<int>, kind: seq<int>, slack: seq<real>)
    requires Pending(list, later + {u0}, -1, 0, n, outer, kind, slack)
    ensures Pending(list, later, u0, 0, n, outer, kind, slack)
  {
    hide OnList, Tight;
    forall u, v | Promising(u, v, n, outer, kind, slack)
      ensures Due(u, v, list, outer, later, u0, 0) || (kind[outer[v]] == EVEN && Due(v, u, list, outer, later, u0, 0))
    {
      assert Due(u, v, list, outer, later + {u0}, -1, 0) || (kind[outer[v]] == EVEN && Due(v, u, list, outer,
        later + {u0}, -1, 0));
    }
  }

  /** All edges at the vertex have been looked at. */
  lemma PendingLeft(list: seq<int>, later: set<int>, u0: int, n: nat, outer: seq<int>, kind: seq<int>, slack: seq<real>)
    requires Pending(list, later, u0, n, n, outer, kind, slack)
    ensures Pending(list, later, -1, 0, n, outer, kind, slack)
  {
    hide OnList, Tight;
    forall u, v | Promising(u, v, n, outer, kind, slack)
      ensures Due(u, v, list, outer, later, -1, 0) || (kind[outer[v]] == EVEN && Due(v, u, list, outer, later, -1, 0))
    {
      assert Due(u, v, list, outer, later, u0, n) || (kind[outer[v]] == EVEN && Due(v, u, list, outer, later, u0, n));
    }
  }

  /** Nothing is left when the list is empty. */
  lemma NothingPending(n: nat, outer: seq<int>, kind: seq<int>, slack: seq<real>, u: int, v: int)
    requires Pending([], {}, -1, 0, n, outer, kind, slack)
    ensures !Promising(u, v, n, outer, kind, slack)
  {
  }

  // Looking at one edge -----------------------------------------------------------------------------------------

  /** An edge that is not promising needs nothing. */
  lemma PendingSkip(list: seq<int>, later: set<int>, u0: int, v0: int, n: nat, outer: seq<int>, kind: seq<int>,
                    slack: seq<real>)
    requires Pending(list, later, u0, v0, n, outer, kind, slack) && !Promising(u0, v0, n, outer, kind, slack)
    ensures Pending(list, later, u0, v0 + 1, n, outer, kind, slack)
  {
    hide OnList, Tight;
    forall u, v | Promising(u, v, n, outer, kind, slack)
      ensures Due(u, v, list, outer, later, u0, v0 + 1) || (kind[outer[v]] == EVEN && Due(v, u, list, outer, later, u0,
        v0 + 1))
    {
      assert Due(u, v, list, outer, later, u0, v0) || (kind[outer[v]] == EVEN && Due(v, u, list, outer, later, u0, v0));
      if v == u0 && u == v0 && kind[outer[v]] == EVEN {
        PromisingBack(u, v, n, outer, kind, slack);
      }
    }
  }

  /** The forest grew over the edge: the reached node is odd, and its mate is even and on the list. */
  lemma PendingGrow(list: seq<int>, later: set<int>, u0: int, v0: int, n: nat, outer: seq<int>, kind: seq<int>,
                    slack: seq<real>, vm: int)
    requires Pending(list, later, u0, v0, n, outer, kind, slack) && 0 <= v0 < n && 0 <= vm < n && |outer| == 2 * n
    requires |kind| == 2 * n
    requires 0 <= outer[v0] < 2 * n && 0 <= outer[vm] < 2 * n && outer[vm] != outer[v0]
    requires kind[outer[v0]] == UNLABELED && kind[outer[vm]] == UNLABELED
    ensures Pending(list + [vm], later, u0, v0 + 1, n, outer, kind[outer[v0] := ODD][outer[vm] := EVEN], slack)
  {
    hide Tight;
    var kind' := kind[outer[v0] := ODD][outer[vm] := EVEN];
    forall u, v | Promising(u, v, n, outer, kind', slack)
      ensures Due(u, v, list + [vm], outer, later, u0, v0 + 1) || (kind'[outer[v]] == EVEN && Due(v, u, list + [vm],
        outer, later, u0, v0 + 1))
    {
      if outer[u] == outer[vm] {
        assert (list + [vm])[|list|] == vm;
        assert OnList(list + [vm], outer, outer[u]);
      } else {
        assert Promising(u, v, n, outer, kind, slack);
        DueMore(u, v, list, outer, later, u0, v0, vm);
        DueMore(v, u, list, outer, later, u0, v0, vm);
      }
    }
  }

  lemma DueMore(u: int, v: int, list: seq<int>, outer: seq<int>, later: set<int>, u0: int, v0: int, x: int)
    ensures Due(u, v, list, outer, later, u0, v0) && !(u == u0 && v == v0) ==>
      Due(u, v, list + [x], outer, later, u0, v0 + 1)
  {
    if 0 <= u < |outer| && OnList(list, outer, outer[u]) {
      var k :| 0 <= k < |list| && 0 <= list[k] < |outer| && outer[list[k]] == outer[u];
      assert (list + [x])[k] == list[k];
    }
  }

  /** A contraction: everything that was being explored is inside the new node, which is on the list. */
  lemma PendingContract(list: seq<int>, later: set<int>, u0: int, v0: int, n: nat, outer: seq<int>, kind: seq<int>,
                        slack: seq<real>,
                        b: int, outer': seq<int>, c: seq<int>)
    requires Pending(list, later, u0, v0, n, outer, kind, slack) && AllVertices(list, n) && 0 <= u0 < n
    requires |outer| == 2 * n && |outer'| == 2 * n && |kind| == 2 * n && 0 <= b < 2 * n
    requires (forall x :: 0 <= x < n ==> outer'[x] == Image(c, b, outer[x])) && outer'[b] == b
    requires (forall x :: 0 <= x < n ==> 0 <= outer[x] < 2 * n && outer[x] != b)
    requires outer[u0] in c && AllIn(later, outer[u0], n, outer)
    ensures Pending(list + [b], {}, -1, 0, n, outer', kind[b := EVEN], slack)
  {
    hide Tight;
    var kind' := kind[b := EVEN];
    assert (list + [b])[|list|] == b;
    assert OnList(list + [b], outer', b);
    forall u, v | Promising(u, v, n, outer', kind', slack)
      ensures Due(u, v, list + [b], outer', {}, -1, 0) || (kind'[outer'[v]] == EVEN && Due(v, u, list + [b], outer', {},
        -1, 0))
    {
      if outer'[u] != b && outer'[v] != b {
        assert Promising(u, v, n, outer, kind, slack);
        DueImage(u, v, list, later, u0, v0, n, outer, b, outer', c);
        DueImage(v, u, list, later, u0, v0, n, outer, b, outer', c);
      }
    }
  }

  lemma DueImage(u: int, v: int, list: seq<int>, later: set<int>, u0: int, v0: int, n: nat, outer: seq<int>, b: int,
                 outer': seq<int>, c: seq<int>)
    requires 0 <= u < n && |outer| == 2 * n && |outer'| == 2 * n && AllVertices(list, n) && 0 <= u0 < n
    requires 0 <= b < 2 * n
    requires (forall x :: 0 <= x < n ==> outer'[x] == Image(c, b, outer[x])) && outer'[u] != b
    requires outer[u0] in c && AllIn(later, outer[u0], n, outer)
    ensures Due(u, v, list, outer, later, u0, v0) ==> Due(u, v, list + [b], outer', {}, -1, 0)
  {
    if Due(u, v, list, outer, later, u0, v0) {
      assert outer[u] !in c;
      var k :| 0 <= k < |list| && 0 <= list[k] < |outer| && outer[list[k]] == outer[u];
      assert (list + [b])[k] == list[k] && outer'[list[k]] == outer'[u];
    }
  }

  lemma SeenGrow(visited: seq<bool>, kind: seq<int>, n: nat, x: int, y: int)
    requires SeenAreEven(visited, kind, n) && 0 <= x < 2 * n && 0 <= y < 2 * n && kind[x] == UNLABELED
    requires kind[y] == UNLABELED
    ensures !visited[y] && SeenAreEven(visited[y := true], kind[x := ODD][y := EVEN], n)
  {
  }

  lemma SeenContract(visited: seq<bool>, kind: seq<int>, n: nat, b: int)
    requires SeenAreEven(visited, kind, n) && 0 <= b < 2 * n
    ensures SeenAreEven(visited[b := true], kind[b := EVEN], n)
  {
  }

  lemma AddVertex(list: seq<int>, n: nat, x: int)
    requires AllVertices(list, n) && 0 <= x < n
    ensures AllVertices(list + [x], n)
  {
  }

  lemma AddBlossom(list: seq<int>, n: nat, x: int, outer: seq<int>)
    requires AllVertices(list, n) && n <= x < 2 * n && |outer| == 2 * n && outer[x] == x
    ensures ListShape(list + [x], n, outer)
  {
  }
}
