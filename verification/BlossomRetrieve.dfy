/** From a perfect matching of the outermost nodes to a cheapest perfect matching of the vertices. */
module BlossomRetrieve {
  import opened Sums
  import opened Duality
  import opened EdgeIndex
  import opened BlossomTree
  import opened BlossomFamily
  import opened BlossomPartition
  import opened BlossomCircuit
  import opened BlossomMates
  import opened BlossomExpand
  import opened BlossomDuals
  import opened BlossomUnblock
  import opened BlossomCrossing

  /** The numbers below i have been expanded: everything is matched, what is left above the vertices is as
      at the start, and the blossoms opened since are left over one edge each. */
  ghost predicate Retrieved(family0: set<Tree>, family: set<Tree>, i: int, n: nat, mate: seq<int>, slack: seq<real>) {
    && MatchedWithin(family, mate, slack, n) && (i <= n ==> family == family0)
    && (forall t :: t in family ==> (t in family0 || t.id < n) && (t.id < n || t.id >= i))
    && (forall t :: t in family0 ==> t in family || (t.id >= n && AllOnce(t, {}, mate, slack, n)))
  }

  lemma {:induction false} LeafKept(t: Tree, n: nat, x: int)
    requires Shape(t, n) && x in Leaves(t)
    ensures Tree(x, []) in Kept(t, {})
    decreases t
  {
    if t.kids != [] {
      LeafOfKid(t.kids, x);
      var i :| 0 <= i < |t.kids| && x in Leaves(t.kids[i]);
      KidShape(t.kids, n, i);
      LeafKept(t.kids[i], n, x);
      KeptOfKid(t.kids, {}, Tree(x, []));
    }
  }

  /** With nothing to stop at only vertices remain. */
  lemma KeptAreLeaves(t: Tree, n: nat, k: Tree)
    requires Shape(t, n) && k in Kept(t, {})
    ensures k.id < n && k == Tree(k.id, []) && k.id in Leaves(t) && Leaves(k) == [k.id]
  {
    KeptStops(t, {}, n, k);
    KeptCovered(t, {}, n);
    LeafIffId(t, n, k.id);
  }

  /** Expanding one node keeps all matched. */
  lemma AllStayMatched(family: set<Tree>, family': set<Tree>, n: nat, mate: seq<int>, mate': seq<int>, slack: seq<real>,
                       t: Tree, partner: Tree, piece: Tree, stops: set<int>)
    requires Laminar(family, {}, n) && t in family && partner in family && t != partner && |mate| == 2 * n
    requires MatchedWithin(family, mate, slack, n) && Mutual(t, partner, mate, slack, n)
    requires family' == family - {t} + Kept(t, stops)
    requires MatesOutside(Ids(t) + {partner.id}, mate, mate')
    requires MatchedExcept(Kept(t, stops), piece, partner, mate', slack, n)
    ensures MatchedWithin(family', mate', slack, n)
  {
    hide *;
    PieceApart(family, n, t, partner, stops, piece, mate', slack);
    MutualBack(piece, partner, mate', slack, n);
    forall s | s in family'
      ensures HasMate(family', s, mate', slack, n)
    {
      if s == partner {
        HasMateBy(family', s, piece, mate', slack, n);
      } else if s == piece {
        HasMateBy(family', s, partner, mate', slack, n);
      } else if s in Kept(t, stops) {
        PieceMate(Kept(t, stops), piece, partner, s, mate', slack, n);
        HasMateMore(Kept(t, stops) - {piece}, family', s, mate', slack, n);
      } else {
        MateOf(family, s, mate, slack, n);
        OtherKeepsMate(family, family', n, mate, mate', slack, t, partner, s);
      }
    }
    Within(family', mate', slack, n);
  }

  lemma PieceApart(family: set<Tree>, n: nat, t: Tree, partner: Tree, stops: set<int>, piece: Tree, mate: seq<int>,
                   slack: seq<real>)
    requires Laminar(family, {}, n) && t in family && partner in family && t != partner
    requires MatchedExcept(Kept(t, stops), piece, partner, mate, slack, n)
    ensures piece in Kept(t, stops) && piece != partner && Mutual(piece, partner, mate, slack, n)
  {
    KeptCovered(t, stops, n);
    IdInTree(partner);
    hide Kept, Ids, Shape;
  }

  lemma HasMateBy(family: set<Tree>, s: Tree, r: Tree, mate: seq<int>, slack: seq<real>, n: nat)
    requires r in family && r != s && Mutual(s, r, mate, slack, n)
    ensures HasMate(family, s, mate, slack, n)
  {
  }

  lemma HasMateMore(family: set<Tree>, more: set<Tree>, s: Tree, mate: seq<int>, slack: seq<real>, n: nat)
    requires HasMate(family, s, mate, slack, n) && family <= more
    ensures HasMate(more, s, mate, slack, n)
  {
    hide Mutual;
  }

  lemma PieceMate(family: set<Tree>, piece: Tree, partner: Tree, s: Tree, mate: seq<int>, slack: seq<real>, n: nat)
    requires MatchedExcept(family, piece, partner, mate, slack, n) && s in family && s != piece
    ensures HasMate(family - {piece}, s, mate, slack, n)
  {
    hide HasMate;
  }

  lemma MateOf(family: set<Tree>, s: Tree, mate: seq<int>, slack: seq<real>, n: nat)
    requires MatchedWithin(family, mate, slack, n) && s in family
    ensures HasMate(family, s, mate, slack, n)
  {
    hide HasMate;
  }

  lemma Within(family: set<Tree>, mate: seq<int>, slack: seq<real>, n: nat)
    requires forall s :: s in family ==> HasMate(family, s, mate, slack, n)
    ensures MatchedWithin(family, mate, slack, n)
  {
    hide HasMate;
  }

  lemma OtherKeepsMate(family: set<Tree>, family': set<Tree>, n: nat, mate: seq<int>, mate': seq<int>, slack: seq<real>,
                       t: Tree, partner: Tree, s: Tree)
    requires Laminar(family, {}, n) && t in family && partner in family && s in family && s != t && s != partner
    requires family - {t} <= family' && Mutual(t, partner, mate, slack, n)
    requires MatesOutside(Ids(t) + {partner.id}, mate, mate')
    requires HasMate(family, s, mate, slack, n)
    ensures HasMate(family', s, mate', slack, n)
  {
    IdInTree(s);
    IdInTree(partner);
    hide Shape, Ids;
    var r :| r in family && r != s && Mutual(s, r, mate, slack, n);
    if r == t {
      LeavesApart(family, n, s, partner, mate[t.id]);
    }
    if r == partner {
      LeavesApart(family, n, s, t, mate[partner.id]);
    }
    IdInTree(r);
    RootOutside(s, Ids(t) + {partner.id}, mate, mate');
    RootOutside(r, Ids(t) + {partner.id}, mate, mate');
    MutualFrame(s, r, mate, mate', slack, n);
  }

  lemma SameVertex(t: Tree, n: nat, k: Tree)
    requires Shape(t, n) && k == Tree(k.id, []) && k.id < n && k != t
    ensures k.id != t.id
  {
  }

  /** Blossoms opened earlier are still left over one edge. */
  lemma EarlierStay(family0: set<Tree>, n: nat, mate: seq<int>, mate': seq<int>, slack: seq<real>, t0: Tree, t: Tree,
                    partner: Tree, piece: Tree)
    requires Laminar(family0, {}, n) && t0 in family0 && t in family0 && t0 != t && Shape(partner, n)
    requires AllOnce(t0, {}, mate, slack, n) && Mutual(t, partner, mate, slack, n)
    requires MatesOutside(Ids(t) + {partner.id}, mate, mate')
    requires MatchedExcept(Kept(t, {}), piece, partner, mate', slack, n)
    requires partner in family0 || partner.id < n
    ensures AllOnce(t0, {}, mate', slack, n)
  {
    KeptAreLeaves(t, n, piece);
    LeavesDisjoint(t0, t, n, mate[partner.id]);
    LeavesDisjoint(t0, t, n, mate'[partner.id]);
    KeptCovered(t0, {}, n);
    forall k | k in Kept(t0, {}) && k != partner && 0 <= k.id < |mate|
      ensures mate'[k.id] == mate[k.id]
    {
      KeptAreLeaves(t0, n, k);
      SameVertex(partner, n, k);
      assert k.id !in Ids(t);
    }
    hide AllOnce, Ids, Kept, Shape;
    AllOnceFrame(t0, {}, partner, mate, mate', slack, n);
  }

  /** One step of the loop. */
  lemma RetrieveStep(family0: set<Tree>, family: set<Tree>, family': set<Tree>, i: int, n: nat, mate: seq<int>,
                     mate': seq<int>, slack: seq<real>,
                     t: Tree, partner: Tree, piece: Tree)
    requires Laminar(family0, {}, n) && Laminar(family, {}, n) && t in family && partner in family && t != partner
    requires t.id == i && |mate| == 2 * n
    requires Retrieved(family0, family, i, n, mate, slack) && Mutual(t, partner, mate, slack, n)
    requires family' == family - {t} + Kept(t, {})
    requires MatesOutside(Ids(t) + {partner.id}, mate, mate')
    requires MatchedExcept(Kept(t, {}), piece, partner, mate', slack, n)
    requires AllOnce(t, {}, mate', slack, n)
    ensures Retrieved(family0, family', i + 1, n, mate', slack)
  {
    hide AllOnce, Ids, MatchedWithin, Mutual, MatchedExcept, Shape, Laminar, Kept, MatesOutside;
    AllStayMatched(family, family', n, mate, mate', slack, t, partner, piece, {});
    FamilyShape(family, n, t);
    FamilyShape(family, n, partner);
    forall k | k in Kept(t, {})
      ensures k.id < n
    {
      KeptAreLeaves(t, n, k);
    }
    RootsApart(family, n, t);
    VertexStays(t, n);
    if i < n {
      assert family' == family;
    } else {
      forall t0 | t0 in family0 && t0 !in family'
        ensures t0.id >= n && AllOnce(t0, {}, mate', slack, n)
      {
        if t0 != t {
          assert t0 !in family;
          EarlierStay(family0, n, mate, mate', slack, t0, t, partner, piece);
        }
      }
    }
  }

  lemma FamilyShape(family: set<Tree>, n: nat, t: Tree)
    requires Laminar(family, {}, n) && t in family
    ensures Shape(t, n)
  {
  }

  lemma RootsApart(family: set<Tree>, n: nat, t: Tree)
    requires Laminar(family, {}, n) && t in family
    ensures forall s :: s in family && s != t ==> s.id != t.id
  {
    forall s | s in family && s != t
      ensures s.id != t.id
    {
      IdInTree(s);
      IdInTree(t);
    }
  }

  lemma VertexStays(t: Tree, n: nat)
    requires Shape(t, n)
    ensures t.id < n ==> Kept(t, {}) == {t}
  {
  }

  // The perfect matching --------------------------------------------------------------------------------------

  /** A node inside a tree, with what is known of it. */
  lemma {:induction false} FindNode(t: Tree, n: nat, j: int, deep: seq<seq<int>>, shallow: seq<seq<int>>,
                                    outer: seq<int>,
                                    mate: seq<int>, slack: seq<real>) returns (b: Tree)
    requires Shape(t, n) && Fits(t, deep, shallow, outer) && AllOnce(t, {}, mate, slack, n) && j in Ids(t)
    ensures Shape(b, n) && b.id == j && 0 <= j < |deep| && deep[j] == Leaves(b) && Once(b, {}, mate, slack, n)
    decreases t
  {
    if j == t.id {
      b := t;
    } else {
      IdOfKid(t.kids, j);
      var i :| 0 <= i < |t.kids| && j in Ids(t.kids[i]);
      KidShape(t.kids, n, i);
      KidFits(t.kids, t.id, deep, shallow, outer, i);
      b := FindNode(t.kids[i], n, j, deep, shallow, outer, mate, slack);
    }
  }

  /** A vertex of an opened tree whose mate is outside is the one that leaves it. */
  lemma OnlyOneLeaves(t: Tree, n: nat, piece: Tree, mate: seq<int>, slack: seq<real>, u: int)
    requires Shape(t, n) && OnceBy(t, {}, piece, mate, slack, n) && u in Leaves(t) && 0 <= u < |mate|
    requires mate[u] !in Leaves(t)
    ensures u == piece.id
  {
    LeafKept(t, n, u);
    var k := Tree(u, []);
    if k != piece {
      assert HasMate(Kept(t, {}) - {piece}, k, mate, slack, n);
      var r :| r in Kept(t, {}) - {piece} && r != k && Mutual(k, r, mate, slack, n);
      KeptLeaves(t, {}, n, r, mate[u]);
    }
  }

  lemma OnceCrossed(t: Tree, n: nat, mate: seq<int>, slack: seq<real>)
    requires Shape(t, n) && Once(t, {}, mate, slack, n) && |mate| == 2 * n
    ensures CrossedOnce(Leaves(t), mate[..n])
  {
    var piece :| OnceBy(t, {}, piece, mate, slack, n);
    forall u, v | 0 <= u < n && 0 <= v < n && u in Leaves(t) && v in Leaves(t) && mate[..n][u] !in Leaves(t) &&
      mate[..n][v] !in Leaves(t)
      ensures u == v
    {
      OnlyOneLeaves(t, n, piece, mate, slack, u);
      OnlyOneLeaves(t, n, piece, mate, slack, v);
    }
  }

  /** Once only vertices are left the mates are a perfect matching on edges without slack. */
  lemma VerticesMatched(family: set<Tree>, n: nat, active: seq<bool>, free: seq<int>, deep: seq<seq<int>>,
                        shallow: seq<seq<int>>, outer: seq<int>,
                        mate: seq<int>, slack: seq<real>)
    requires Whole(family, {}, n, active, free, deep, shallow, outer) && MatchedWithin(family, mate, slack, n)
    requires |mate| == 2 * n
    requires forall t :: t in family ==> t.id < n
    ensures IsPerfect(mate[..n], n) && forall u :: 0 <= u < n ==> Tight(slack, n, u, mate[u])
  {
    forall u | 0 <= u < n
      ensures 0 <= mate[u] < n && mate[u] != u && mate[mate[u]] == u && Tight(slack, n, u, mate[u])
    {
      VertexMatched(family, n, active, free, deep, shallow, outer, mate, slack, u);
    }
  }

  lemma VertexMatched(family: set<Tree>, n: nat, active: seq<bool>, free: seq<int>, deep: seq<seq<int>>,
                      shallow: seq<seq<int>>, outer: seq<int>,
                      mate: seq<int>, slack: seq<real>, u: int)
    requires Whole(family, {}, n, active, free, deep, shallow, outer) && MatchedWithin(family, mate, slack, n)
    requires |mate| == 2 * n
    requires (forall t :: t in family ==> t.id < n) && 0 <= u < n
    ensures 0 <= mate[u] < n && mate[u] != u && mate[mate[u]] == u && Tight(slack, n, u, mate[u])
  {
    var t := VertexTree(family, n, active, free, deep, shallow, outer, u);
    FamilyShape(family, n, t);
    MateOf(family, t, mate, slack, n);
    var r :| r in family && r != t && Mutual(t, r, mate, slack, n);
    FamilyShape(family, n, r);
    RootsApart(family, n, t);
    assert Leaves(t) == [t.id] && Leaves(r) == [r.id];
  }

  /** The slack and the cost as functions of two vertices. */
  function EdgeFunction(values: seq<real>, n: nat): (int, int) -> real {
    (u, v) => if 0 <= u < n && 0 <= v < n && u != v && |values| == EdgeCount(n) then SlackOf(values, n, u, v) else 0.0
  }

  lemma CertificateHolds(n: nat, costs: seq<real>, slack: seq<real>, dual: seq<real>, deep: seq<seq<int>>)
    requires Certified(n, costs, slack, dual, deep) && forall j :: 0 <= j < n ==> deep[j] == [j]
    requires forall j :: n <= j < 2 * n && dual[j] > 0.0 ==> IsOddSet(deep[j], n)
    ensures Certificate(n, EdgeFunction(costs, n), EdgeFunction(slack, n), dual, deep)
  {
    var c, s := EdgeFunction(costs, n), EdgeFunction(slack, n);
    forall u, v | 0 <= u < n && 0 <= v < n && u != v
      ensures s(u, v) >= 0.0 && s(u, v) == c(u, v) - DualSum(dual, deep, u, v)
    {
      var a, b := if u < v then u else v, if u < v then v else u;
      IndexIsBijection(n, u, v, a, b);
      DualSumSymmetric(dual, deep, u, v);
      assert SlackOf(slack, n, a, b) >= 0.0 && SlackOf(slack, n, a, b) == SlackOf(costs, n, a, b) - DualSum(dual, deep,
        a, b);
    }
  }

  lemma DualSumSymmetric(dual: seq<real>, deep: seq<seq<int>>, u: int, v: int)
    ensures DualSum(dual, deep, u, v) == DualSum(dual, deep, v, u)
  {
    SumEqual(Shares(dual, deep, u, v), Shares(dual, deep, v, u), |dual|);
  }

  lemma TreeOfActive(family: set<Tree>, n: nat, active: seq<bool>, free: seq<int>, deep: seq<seq<int>>,
                     shallow: seq<seq<int>>, outer: seq<int>, j: int)
    returns (t: Tree)
    requires Whole(family, {}, n, active, free, deep, shallow, outer) && 0 <= j < 2 * n && active[j]
    ensures t in family && j in Ids(t) && Shape(t, n) && Fits(t, deep, shallow, outer) && |deep| == 2 * n
  {
    assert j in Covered(family);
    t :| t in family && j in Ids(t);
    assert Outermost(t, deep, shallow, outer);
  }

  lemma OpenedOnce(family0: set<Tree>, family: set<Tree>, n: nat, mate: seq<int>, slack: seq<real>, t: Tree, j: int)
    requires Retrieved(family0, family, 2 * n, n, mate, slack) && t in family0 && Shape(t, n) && j in Ids(t) && j >= n
    ensures AllOnce(t, {}, mate, slack, n)
  {
    LeafIffId(t, n, j);
    hide AllOnce, MatchedWithin;
  }

  lemma OddSet(s: seq<int>, n: nat)
    requires Distinct(s) && |s| % 2 == 1 && forall y :: y in s ==> 0 <= y < n
    ensures IsOddSet(s, n)
  {
    forall i | 0 <= i < |s|
      ensures 0 <= s[i] < n
    {
      assert s[i] in s;
    }
  }

  /** A blossom with a dual was open at the start, so the matching leaves it over one edge. */
  lemma DualCrossedOnce(family0: set<Tree>, family: set<Tree>, n: nat, active0: seq<bool>, free0: seq<int>,
                        deep: seq<seq<int>>, shallow0: seq<seq<int>>,
                        outer0: seq<int>, mate: seq<int>, slack: seq<real>, j: int)
    requires Whole(family0, {}, n, active0, free0, deep, shallow0, outer0) && n <= j < 2 * n && active0[j]
    requires |mate| == 2 * n
    requires Retrieved(family0, family, 2 * n, n, mate, slack)
    ensures CrossedOnce(deep[j], mate[..n]) && IsOddSet(deep[j], n)
  {
    hide *;
    WholeSizes(family0, {}, n, active0, free0, deep, shallow0, outer0);
    ActiveNode(family0, n, active0, free0, deep, shallow0, outer0, j);
    OddSet(deep[j], n);
    var t := TreeOfActive(family0, n, active0, free0, deep, shallow0, outer0, j);
    OpenedOnce(family0, family, n, mate, slack, t, j);
    var b := FindNode(t, n, j, deep, shallow0, outer0, mate, slack);
    OnceCrossed(b, n, mate, slack);
  }

  /** What the last loop leaves is a cheapest perfect matching. */
  lemma RetrievedIsOptimal(family0: set<Tree>, family: set<Tree>, n: nat, active0: seq<bool>, free0: seq<int>,
                           deep: seq<seq<int>>, shallow0: seq<seq<int>>,
                           outer0: seq<int>, active: seq<bool>, free: seq<int>, shallow: seq<seq<int>>, outer: seq<int>,
                           mate: seq<int>, costs: seq<real>, slack: seq<real>, dual: seq<real>, other: seq<int>)
    requires Whole(family0, {}, n, active0, free0, deep, shallow0, outer0)
    requires Whole(family, {}, n, active, free, deep, shallow, outer)
    requires Retrieved(family0, family, 2 * n, n, mate, slack) && |mate| == 2 * n
    requires Certified(n, costs, slack, dual, deep)
    requires forall j :: n <= j < 2 * n && !active0[j] ==> dual[j] == 0.0
    requires IsPerfect(other, n)
    ensures IsPerfect(mate[..n], n)
    ensures TwiceCost(EdgeFunction(costs, n), mate[..n]) <= TwiceCost(EdgeFunction(costs, n), other)
  {
    VertexLists(family0, n, active0, free0, deep, shallow0, outer0);
    forall t | t in family
      ensures t.id < n
    {
      FamilyShape(family, n, t);
    }
    VerticesMatched(family, n, active, free, deep, shallow, outer, mate, slack);
    forall j | n <= j < 2 * n && dual[j] > 0.0
      ensures CrossedOnce(deep[j], mate[..n]) && IsOddSet(deep[j], n)
    {
      DualCrossedOnce(family0, family, n, active0, free0, deep, shallow0, outer0, mate, slack, j);
    }
    CertificateHolds(n, costs, slack, dual, deep);
    NoSlack(n, mate, slack, costs, dual, deep);
    ComplementaryIsOptimal(n, EdgeFunction(costs, n), EdgeFunction(slack, n), dual, deep, mate[..n], other);
  }

  lemma NoSlack(n: nat, mate: seq<int>, slack: seq<real>, costs: seq<real>, dual: seq<real>, deep: seq<seq<int>>)
    requires |mate| == 2 * n && Certified(n, costs, slack, dual, deep)
    requires forall u :: 0 <= u < n ==> Tight(slack, n, u, mate[u])
    ensures forall u :: 0 <= u < n ==> EdgeFunction(slack, n)(u, mate[..n][u]) == 0.0
  {
    forall u | 0 <= u < n
      ensures EdgeFunction(slack, n)(u, mate[..n][u]) == 0.0
    {
      var v := mate[u];
      assert Tight(slack, n, u, v);
      var a, b := if u < v then u else v, if u < v then v else u;
      IndexIsBijection(n, u, v, a, b);
      assert SlackOf(slack, n, a, b) >= 0.0;
    }
  }

  lemma VertexLists(family: set<Tree>, n: nat, active: seq<bool>, free: seq<int>, deep: seq<seq<int>>,
                    shallow: seq<seq<int>>, outer: seq<int>)
    requires Whole(family, {}, n, active, free, deep, shallow, outer)
    ensures forall j :: 0 <= j < n ==> deep[j] == [j]
  {
    forall j | 0 <= j < n
      ensures deep[j] == [j]
    {
      ActiveNode(family, n, active, free, deep, shallow, outer, j);
    }
  }

  lemma RetrieveStart(family: set<Tree>, n: nat, mate: seq<int>, slack: seq<real>)
    requires MatchedWithin(family, mate, slack, n) && forall t :: t in family ==> t.id >= 0
    ensures Retrieved(family, family, 0, n, mate, slack)
  {
  }

  /** A number that is not outermost heads no tree. */
  lemma RetrieveSkip(family0: set<Tree>, family: set<Tree>, i: int, n: nat, mate: seq<int>, slack: seq<real>)
    requires Retrieved(family0, family, i, n, mate, slack) && 0 <= i && forall t :: t in family ==> t.id != i
    ensures Retrieved(family0, family, i + 1, n, mate, slack)
  {
    hide AllOnce, MatchedWithin;
  }

  /** A node of the family and its partner, at the time it is expanded. */
  lemma RetrieveReady(family0: set<Tree>, family: set<Tree>, n: nat, active: seq<bool>, free: seq<int>,
                      deep: seq<seq<int>>, shallow: seq<seq<int>>,
                      outer: seq<int>, mate: seq<int>, slack: seq<real>, i: int) returns (t: Tree, partner: Tree)
    requires Whole(family, {}, n, active, free, deep, shallow, outer) && Laminar(family0, {}, n) && 0 <= i < 2 * n
    requires |mate| == 2 * n
    requires active[i] && outer[i] == i && Retrieved(family0, family, i, n, mate, slack)
    requires TightFamily(family0, slack, n)
    ensures t in family && t.id == i && partner in family && partner != t && Mutual(t, partner, mate, slack, n)
    ensures mate[i] != -1
    ensures 0 <= mate[i] < 2 * n && outer[mate[i]] == partner.id && Linked(slack, n, Leaves(t), Leaves(partner))
    ensures TightTree(t, slack, n)
    ensures Laminar(family, {}, n)
  {
    hide *;
    t := HeadTree(family, n, active, free, deep, shallow, outer, i);
    WholeLaminar(family, n, active, free, deep, shallow, outer);
    FamilyShape(family, n, t);
    RetrievedMatched(family0, family, i, n, mate, slack);
    MateOf(family, t, mate, slack, n);
    partner := PartnerOf(family, n, active, free, deep, shallow, outer, mate, slack, t);
    TightOne(family0, family, n, slack, t, i, mate);
  }

  lemma RetrievedMatched(family0: set<Tree>, family: set<Tree>, i: int, n: nat, mate: seq<int>, slack: seq<real>)
    requires Retrieved(family0, family, i, n, mate, slack)
    ensures MatchedWithin(family, mate, slack, n)
  {
  }

  lemma HeadTree(family: set<Tree>, n: nat, active: seq<bool>, free: seq<int>, deep: seq<seq<int>>,
                 shallow: seq<seq<int>>, outer: seq<int>, i: int)
    returns (t: Tree)
    requires Whole(family, {}, n, active, free, deep, shallow, outer) && 0 <= i < 2 * n && active[i] && outer[i] == i
    ensures t in family && t.id == i
  {
    if i < n {
      t := VertexTree(family, n, active, free, deep, shallow, outer, i);
    } else {
      t := OutermostTree(family, {}, n, active, free, deep, shallow, outer, i);
    }
  }

  lemma TightOne(family0: set<Tree>, family: set<Tree>, n: nat, slack: seq<real>, t: Tree, i: int, mate: seq<int>)
    requires Retrieved(family0, family, i, n, mate, slack) && t in family && Shape(t, n)
    requires TightFamily(family0, slack, n)
    ensures TightTree(t, slack, n)
  {
    if t !in family0 {
      assert t.kids == [];
    }
  }

  lemma NoHead(family: set<Tree>, n: nat, active: seq<bool>, free: seq<int>, deep: seq<seq<int>>,
               shallow: seq<seq<int>>, outer: seq<int>, i: int)
    requires Whole(family, {}, n, active, free, deep, shallow, outer) && 0 <= i < 2 * n && !(active[i] && outer[i] == i)
    ensures forall t :: t in family ==> t.id != i
  {
    forall t | t in family
      ensures t.id != i
    {
      IdInTree(t);
      InCovered(family, t);
      assert Outermost(t, deep, shallow, outer);
    }
  }

  lemma NothingBlocks(s: set<int>, blocked: seq<bool>, n: nat)
    requires |blocked| == 2 * n
    ensures Blocks({}, s, blocked, true, n)
  {
  }

  lemma WholeLaminar(family: set<Tree>, n: nat, active: seq<bool>, free: seq<int>, deep: seq<seq<int>>,
                     shallow: seq<seq<int>>, outer: seq<int>)
    requires Whole(family, {}, n, active, free, deep, shallow, outer)
    ensures Laminar(family, {}, n) && forall t :: t in family ==> t.id >= 0
  {
  }

  lemma RetrievedIsPerfect(family0: set<Tree>, family: set<Tree>, n: nat, active: seq<bool>, free: seq<int>,
                           deep: seq<seq<int>>, shallow: seq<seq<int>>,
                           outer: seq<int>, mate: seq<int>, slack: seq<real>)
    requires Whole(family, {}, n, active, free, deep, shallow, outer)
    requires Retrieved(family0, family, 2 * n, n, mate, slack) && |mate| == 2 * n
    ensures IsPerfect(mate[..n], n)
  {
    forall t | t in family
      ensures t.id < n
    {
      FamilyShape(family, n, t);
    }
    VerticesMatched(family, n, active, free, deep, shallow, outer, mate, slack);
  }
}
