/** Bookkeeping for the expansion of matched blossoms. */
module BlossomExpand {
  import opened BlossomTree
  import opened BlossomFamily
  import opened BlossomCircuit
  import opened BlossomMates
  import opened MatchingFacts

  /** stops are the blossoms that stay closed: the blocked ones, unless those are opened too. */
  ghost predicate Blocks(stops: set<int>, s: set<int>, blocked: seq<bool>, expandBlocked: bool, n: nat) {
    |blocked| == 2 * n && forall i :: i in s && n <= i < 2 * n ==> (i in stops <==> blocked[i] && !expandBlocked)
  }

  lemma BlocksPart(stops: set<int>, s: set<int>, part: set<int>, blocked: seq<bool>, expandBlocked: bool, n: nat)
    requires Blocks(stops, s, blocked, expandBlocked, n) && part <= s
    ensures Blocks(stops, part, blocked, expandBlocked, n)
  {
  }

  /** mate is unchanged except on s. */
  ghost predicate MatesOutside(s: set<int>, mate: seq<int>, mate': seq<int>) {
    |mate'| == |mate| && forall i :: 0 <= i < |mate| && i !in s ==> mate'[i] == mate[i]
  }

  lemma MatesTrans(s: set<int>, t: set<int>, mate0: seq<int>, mate1: seq<int>, mate2: seq<int>)
    requires MatesOutside(s, mate0, mate1) && MatesOutside(t, mate1, mate2)
    ensures MatesOutside(s + t, mate0, mate2)
  {
  }

  lemma OuterTrans(s: set<int>, t: set<int>, n: nat, outer0: seq<int>, outer1: seq<int>, outer2: seq<int>)
    requires Untouched(s, n, outer0, outer1) && Untouched(t, n, outer1, outer2)
    ensures Untouched(s + t, n, outer0, outer2)
  {
  }

  /** The roots of trees that s does not touch keep their mates. */
  lemma SameOutside(trees: set<Tree>, s: set<int>, mate: seq<int>, mate': seq<int>)
    requires MatesOutside(s, mate, mate') && Covered(trees) !! s
    ensures SameMates(trees, mate, mate')
  {
    hide Ids;
    forall t | t in trees && 0 <= t.id < |mate|
      ensures mate'[t.id] == mate[t.id]
    {
      InCovered(trees, t);
      IdInTree(t);
    }
  }

  lemma RootOutside(t: Tree, s: set<int>, mate: seq<int>, mate': seq<int>)
    requires MatesOutside(s, mate, mate') && t.id !in s && 0 <= t.id < |mate|
    ensures mate'[t.id] == mate[t.id]
  {
  }

  /** Kept nodes have only numbers of the opened tree. */
  lemma KeptCovered(t: Tree, stops: set<int>, n: nat)
    requires Shape(t, n)
    ensures Covered(Kept(t, stops)) <= Ids(t)
    ensures forall k :: k in Kept(t, stops) ==> k.id in Ids(t) && Shape(k, n) && Ids(k) <= Ids(t)
  {
    KeptSplits(t, stops, n);
    forall k | k in Kept(t, stops)
      ensures k.id in Ids(t) && Shape(k, n) && Ids(k) <= Ids(t)
    {
      InCovered(Kept(t, stops), k);
      IdInTree(k);
    }
  }

  lemma AllKeptCovered(ks: seq<Tree>, stops: set<int>, n: nat)
    requires AllShape(ks, n)
    ensures Covered(AllKept(ks, stops)) <= AllIds(ks)
    ensures forall k :: k in AllKept(ks, stops) ==> k.id in AllIds(ks)
  {
    AllKeptSplits(ks, stops, n);
    forall k | k in AllKept(ks, stops)
      ensures k.id in AllIds(ks)
    {
      InCovered(AllKept(ks, stops), k);
      IdInTree(k);
    }
  }

  /** The facts about an outermost tree that one call needs. */
  lemma TreeFacts(family: set<Tree>, n: nat, active: seq<bool>, free: seq<int>, deep: seq<seq<int>>,
                  shallow: seq<seq<int>>, outer: seq<int>, t: Tree)
    requires Whole(family, {}, n, active, free, deep, shallow, outer) && t in family
    ensures 0 <= t.id < 2 * n && deep[t.id] == Leaves(t) && outer[t.id] == t.id && Shape(t, n) && t.id in Ids(t)
    ensures shallow[t.id] == Roots(t.kids) && (t.kids == [] <==> t.id < n)
    ensures forall v :: v in Leaves(t) ==> 0 <= v < n && outer[v] == t.id
  {
    assert Outermost(t, deep, shallow, outer);
    LeavesInArray(t, n);
    IdInTree(t);
  }

  lemma FamilyApart(family: set<Tree>, n: nat, active: seq<bool>, free: seq<int>, deep: seq<seq<int>>,
                    shallow: seq<seq<int>>, outer: seq<int>, s: Tree, t: Tree)
    requires Whole(family, {}, n, active, free, deep, shallow, outer) && s in family && t in family && s != t
    ensures Ids(s) !! Ids(t) && s.id != t.id
  {
    IdInTree(s);
    IdInTree(t);
  }

  /** A mutual partner is found through the arrays. */
  lemma MutualFacts(family: set<Tree>, n: nat, active: seq<bool>, free: seq<int>, deep: seq<seq<int>>,
                    shallow: seq<seq<int>>, outer: seq<int>,
                    mate: seq<int>, slack: seq<real>, piece: Tree, t: Tree)
    requires Whole(family, {}, n, active, free, deep, shallow, outer) && piece in family
    requires Mutual(piece, t, mate, slack, n)
    ensures 0 <= t.id < |mate| && 0 <= mate[t.id] < 2 * n && outer[mate[t.id]] == piece.id
    ensures Linked(slack, n, Leaves(t), Leaves(piece))
  {
    TreeFacts(family, n, active, free, deep, shallow, outer, piece);
    assert Tight(slack, n, mate[piece.id], mate[t.id]);
  }

  lemma MutualMade(t: Tree, partner: Tree, mate: seq<int>, p: int, q: int, slack: seq<real>, n: nat)
    requires 0 <= t.id < |mate| && 0 <= partner.id < |mate| && t.id != partner.id
    requires p in Leaves(t) && q in Leaves(partner) && Tight(slack, n, p, q)
    ensures Mutual(t, partner, mate[t.id := q][partner.id := p], slack, n)
    ensures MatchedExcept({t}, t, partner, mate[t.id := q][partner.id := p], slack, n)
    ensures MatesOutside({t.id, partner.id}, mate, mate[t.id := q][partner.id := p])
  {
  }

  /** One pair of the circuit leaves the family and its pieces enter. */
  lemma PairStep(base: set<Tree>, r: seq<Tree>, i: int, n: nat, stops: set<int>)
    requires AllShape(r, n) && 0 <= i && i + 1 < |r| && base !! Members(r)
    requires forall t :: t in base ==> Ids(t) !! AllIds(r)
    ensures base + AllKept(r[..i], stops) + Members(r[i..]) - {r[i]} + Kept(r[i], stops) - {r[i + 1]} + Kept(r[i + 1],
      stops)
      == base + AllKept(r[..i + 2], stops) + Members(r[i + 2..])
  {
    KeptNext(r, i, stops);
    KeptNext(r, i + 1, stops);
    PrefixShape(r, n, i);
    AllKeptCovered(r[..i], stops, n);
    KidShape(r, n, i);
    KidShape(r, n, i + 1);
    KeptCovered(r[i], stops, n);
    PrefixApart(r, n, i, i);
    PrefixApart(r, n, i, i + 1);
    KidsDisjoint(r, n, i, i + 1);
    IdInTree(r[i]);
    IdInTree(r[i + 1]);
    MembersFrom(r, n, i);
    MembersFrom(r, n, i + 1);
    InMembers(r, i);
    InMembers(r, i + 1);
    hide *;
    Exchange(base, AllKept(r[..i], stops), Members(r[i + 2..]), r[i], r[i + 1], Kept(r[i], stops),
      Kept(r[i + 1], stops));
  }

  lemma Exchange<T>(base: set<T>, done: set<T>, later: set<T>, a: T, b: T, s: set<T>, t: set<T>)
    requires a !in base && b !in base && a !in done && b !in done && a !in later && b !in later && a != b && b !in s
    ensures base + done + ({a} + ({b} + later)) - {a} + s - {b} + t == base + (done + s + t) + later
  {
  }

  lemma InMembers(r: seq<Tree>, i: int)
    requires 0 <= i < |r|
    ensures r[i] in Members(r)
  {
  }

  lemma MembersFrom(r: seq<Tree>, n: nat, i: int)
    requires AllShape(r, n) && 0 <= i < |r|
    ensures Members(r[i..]) == {r[i]} + Members(r[i + 1..]) && r[i] !in Members(r[i + 1..])
  {
    hide Ids;
    forall j | i < j < |r|
      ensures r[j] != r[i]
    {
      KidsDisjoint(r, n, i, j);
      IdInTree(r[i]);
    }
    assert r[i..] == [r[i]] + r[i + 1..];
  }

  lemma PrefixApart(r: seq<Tree>, n: nat, i: int, j: int)
    requires AllShape(r, n) && 0 <= i <= j < |r|
    ensures AllIds(r[..i]) !! Ids(r[j]) && AllIds(r[..i]) <= AllIds(r)
  {
    forall x | x in AllIds(r[..i])
      ensures x !in Ids(r[j]) && x in AllIds(r)
    {
      IdOfKid(r[..i], x);
      var k :| 0 <= k < i && x in Ids(r[..i][k]);
      KidsDisjoint(r, n, k, j);
      KidIds(r, k);
    }
  }

  /** The state right after the circuit was turned, with the tree still to be opened. */
  lemma TurnedWhole(family: set<Tree>, n: nat, active: seq<bool>, free: seq<int>, deep: seq<seq<int>>,
                    shallow: seq<seq<int>>, outer: seq<int>,
                    t: Tree, k: int)
    requires Whole(family, Ids(t), n, active, free, deep, shallow, outer) && Shape(t, n)
    requires Fits(t, deep, shallow, outer)
    requires 0 <= k < |t.kids|
    ensures 0 <= t.id < 2 * n
    ensures var r := Turned(t.kids, k); var shallow' := shallow[t.id := Roots(r)]; var t' := Tree(t.id, r);
      && Shape(t', n) && Ids(t') == Ids(t) && Whole(family, Ids(t'), n, active, free, deep, shallow', outer)
      && (forall i :: 0 <= i < |r| ==> Fits(r[i], deep, shallow', outer)) && t.id !in Roots(r)
  {
    var r := Turned(t.kids, k);
    var shallow', t' := shallow[t.id := Roots(r)], Tree(t.id, r);
    TurnedShape(t.kids, k, n);
    TurnedAt(t.kids, k);
    forall x | x in Covered(family)
      ensures x != t.id
    {
      var s :| s in family && x in Ids(s);
      IdInTree(t);
    }
    ArraysFrame(family, Ids(t), n, deep, shallow, outer, deep, shallow', outer);
    forall i | 0 <= i < |r|
      ensures Fits(r[i], deep, shallow', outer) && r[i].id != t.id
    {
      TurnedKidFits(n, deep, shallow, outer, t, r, k, i);
    }
    hide Laminar, Accounted, FreeList, Arrays, Fits;
  }

  lemma TurnedKidFits(n: nat, deep: seq<seq<int>>, shallow: seq<seq<int>>, outer: seq<int>, t: Tree, r: seq<Tree>,
                      k: int, i: int)
    requires Shape(t, n) && Fits(t, deep, shallow, outer) && 0 <= k < |t.kids| && r == Turned(t.kids, k) && 0 <= i < |r|
    requires |deep| == 2 * n && |shallow| == 2 * n && |outer| == 2 * n
    ensures Fits(r[i], deep, shallow[t.id := Roots(r)], outer) && r[i].id != t.id
  {
    TurnedAt(t.kids, k);
    var j := if k + i < |t.kids| then k + i else k + i - |t.kids|;
    KidFits(t.kids, t.id, deep, shallow, outer, j);
    KidShape(t.kids, n, j);
    KidIds(t.kids, j);
    IdInTree(t.kids[j]);
    FitsFrame(t.kids[j], n, deep, shallow, outer, deep, shallow[t.id := Roots(r)], outer);
  }

  lemma StaysClosed(t: Tree, stops: set<int>, n: nat)
    requires Shape(t, n) && (t.id < n || t.id in stops)
    ensures Kept(t, stops) == {t}
  {
  }

  lemma MatesWeaken(s: set<int>, t: set<int>, mate: seq<int>, mate': seq<int>)
    requires MatesOutside(s, mate, mate') && s <= t
    ensures MatesOutside(t, mate, mate')
  {
  }

  /** The other pieces of a tree share no number with another tree and one piece. */
  lemma RestOutside(s: Tree, t: Tree, x: Tree, stops: set<int>, n: nat)
    requires Shape(s, n) && Shape(t, n) && Ids(s) !! Ids(t) && x in Kept(s, stops)
    ensures Covered(Kept(s, stops) - {x}) !! Ids(t) + {x.id}
  {
    KeptCovered(s, stops, n);
    KeptSplits(s, stops, n);
    IdInTree(x);
    hide Shape, Kept, Ids;
    forall z | z in Covered(Kept(s, stops) - {x})
      ensures z !in Ids(t) + {x.id}
    {
      var k :| k in Kept(s, stops) - {x} && z in Ids(k);
      assert Ids(k) <= Ids(s) && Ids(k) !! Ids(x);
    }
  }

  /** After both neighbours are expanded everything that remains of them is matched within. */
  lemma PairMatched(s: Tree, t: Tree, x: Tree, y: Tree, stops: set<int>, n: nat, mate1: seq<int>, mate2: seq<int>,
                    slack: seq<real>)
    requires Shape(s, n) && Shape(t, n) && Ids(s) !! Ids(t)
    requires MatchedExcept(Kept(s, stops), x, t, mate1, slack, n)
    requires MatchedExcept(Kept(t, stops), y, x, mate2, slack, n) && MatesOutside(Ids(t) + {x.id}, mate1, mate2)
    ensures MatchedWithin(Kept(s, stops) + Kept(t, stops), mate2, slack, n)
  {
    RestOutside(s, t, x, stops, n);
    hide Shape, Leaves, Kept, Mutual, MatchedWithin, Tight, Covered, Ids;
    var rest := Kept(s, stops) - {x};
    SameOutside(rest, Ids(t) + {x.id}, mate1, mate2);
    MatchedFrame(rest, mate1, mate2, slack, n);
    MutualBack(y, x, mate2, slack, n);
    MatchedPair(Kept(s, stops), Kept(t, stops), x, y, mate2, slack, n);
  }

  lemma PairFrames(s: Tree, t: Tree, x: Tree, n: nat, outer0: seq<int>, outer1: seq<int>, outer2: seq<int>,
                   mate0: seq<int>, mate1: seq<int>, mate2: seq<int>)
    requires x.id in Ids(s) && t.id in Ids(t)
    requires Untouched(Ids(s), n, outer0, outer1) && Untouched(Ids(t), n, outer1, outer2)
    requires MatesOutside(Ids(s) + {t.id}, mate0, mate1) && MatesOutside(Ids(t) + {x.id}, mate1, mate2)
    ensures Untouched(Ids(s) + Ids(t), n, outer0, outer2) && MatesOutside(Ids(s) + Ids(t), mate0, mate2)
  {
    hide Ids;
  }

  lemma OpenedKids(t: Tree, n: nat, deep: seq<seq<int>>, shallow: seq<seq<int>>, outer: seq<int>, stops: set<int>)
    requires Shape(t, n) && Outermost(t, deep, shallow, outer) && t.id >= n && t.id !in stops && |deep| == 2 * n
    ensures |t.kids| >= 3 && |t.kids| % 2 == 1 && Leaves(t) == AllLeaves(t.kids)
    ensures Kept(t, stops) == AllKept(t.kids, stops)
    ensures Fits(t, deep, shallow, outer)
    ensures forall i :: 0 <= i < |t.kids| ==> 0 <= t.kids[i].id < 2 * n && deep[t.kids[i].id] == Leaves(t.kids[i])
  {
    KidsFit(t, deep, shallow, outer);
  }

  lemma ShapeKids(t: Tree, n: nat)
    requires Shape(t, n) && t.id >= n
    ensures AllShape(t.kids, n) && |t.kids| >= 3 && |t.kids| % 2 == 1
  {
  }

  /** The circuit of the opened blossom is apart from the rest, has no slack and keeps its blocked nodes. */
  lemma CircuitReady(family: set<Tree>, n: nat, active: seq<bool>, free: seq<int>, deep: seq<seq<int>>,
                     shallow: seq<seq<int>>, outer: seq<int>,
                     t: Tree, k: int, stops: set<int>, blocked: seq<bool>, expandBlocked: bool, slack: seq<real>,
                     partner: Tree)
    requires Whole(family, {}, n, active, free, deep, shallow, outer) && t in family && 0 <= k < |t.kids|
    requires partner in family && partner != t
    requires Blocks(stops, Ids(t), blocked, expandBlocked, n) && TightTree(t, slack, n)
    ensures AllShape(Turned(t.kids, k), n)
    ensures forall s :: s in family - {t} ==> Ids(s) !! AllIds(Turned(t.kids, k))
    ensures family - {t} !! Members(Turned(t.kids, k)) && partner in family - {t}
    ensures forall i :: 0 <= i < |t.kids| ==> TightTree(t.kids[i], slack, n)
    ensures Ring(t.kids, slack, n) && Blocks(stops, AllIds(Turned(t.kids, k)), blocked, expandBlocked, n)
  {
    TurnedShape(t.kids, k, n);
    TurnedAt(t.kids, k);
    var r := Turned(t.kids, k);
    forall i | 0 <= i < |t.kids|
      ensures TightTree(t.kids[i], slack, n)
    {
      KidTight(t.kids, slack, n, i);
    }
    hide TightTree;
    BlocksPart(stops, Ids(t), AllIds(r), blocked, expandBlocked, n);
    forall s | s in family - {t}
      ensures Ids(s) !! AllIds(r) && s !in Members(r)
    {
      assert Ids(s) !! Ids(t);
      if i :| 0 <= i < |r| && r[i] == s {
        KidIds(r, i);
        IdInTree(s);
      }
    }
  }

  lemma OpenFrames(t: Tree, r: seq<Tree>, n: nat, partner: int, q: int, outer0: seq<int>, outer1: seq<int>,
                   outer2: seq<int>,
                   mate0: seq<int>, mate1: seq<int>, mate2: seq<int>, mate3: seq<int>)
    requires Untouched(Ids(Tree(t.id, r)), n, outer0, outer1) && Untouched(AllIds(r), n, outer1, outer2)
    requires MatesOutside(Ids(t) + {partner}, mate0, mate1) && Rematched(r, |r|, q, mate1, mate2)
    requires MatesOutside(AllIds(r) + {partner}, mate2, mate3) && Ids(Tree(t.id, r)) == Ids(t)
    ensures Untouched(Ids(t), n, outer0, outer2) && MatesOutside(Ids(t) + {partner}, mate0, mate3)
  {
    assert AllIds(r) <= Ids(t);
    forall x | x in Roots(r)
      ensures x in AllIds(r)
    {
      var i :| 0 <= i < |r| && r[i].id == x;
      IdInTree(r[i]);
      KidIds(r, i);
    }
    hide Ids, AllIds;
  }

  /** The first node of the turned circuit can be expanded with the partner of the blossom. */
  lemma FirstReady(family: set<Tree>, base: set<Tree>, n: nat, active: seq<bool>, free: seq<int>, deep: seq<seq<int>>,
                   shallow: seq<seq<int>>, outer: seq<int>,
                   r: seq<Tree>, partner: Tree, p: int, q: int, mate1: seq<int>, mate: seq<int>, slack: seq<real>,
                   stops: set<int>, blocked: seq<bool>, expandBlocked: bool)
    requires Whole(family, {}, n, active, free, deep, shallow, outer) && family == base + Members(r) && r != []
    requires AllShape(r, n)
    requires partner in base && base !! Members(r) && |mate| == 2 * n && Rematched(r, |r|, q, mate1, mate)
    requires p in Leaves(r[0]) && q in Leaves(partner) && Tight(slack, n, p, q)
    requires Blocks(stops, AllIds(r), blocked, expandBlocked, n)
    ensures r[0] in family && partner in family && r[0] != partner && |outer| == 2 * n && 0 <= r[0].id < 2 * n
    ensures 0 <= mate[r[0].id] < 2 * n && outer[mate[r[0].id]] == partner.id
    ensures Linked(slack, n, Leaves(r[0]), Leaves(partner))
    ensures Blocks(stops, Ids(r[0]), blocked, expandBlocked, n) && partner.id in Ids(partner)
  {
    InMembers(r, 0);
    TreeFacts(family, n, active, free, deep, shallow, outer, partner);
    TreeFacts(family, n, active, free, deep, shallow, outer, r[0]);
    KidIds(r, 0);
    BlocksPart(stops, AllIds(r), Ids(r[0]), blocked, expandBlocked, n);
    hide Whole, Shape, Ids, Leaves, AllIds, AllShape;
  }

  lemma FirstStep(base: set<Tree>, r: seq<Tree>, n: nat, stops: set<int>)
    requires AllShape(r, n) && r != [] && base !! Members(r)
    ensures base + Members(r) - {r[0]} + Kept(r[0], stops) == base + AllKept(r[..1], stops) + Members(r[1..])
    ensures AllKept(r[..1], stops) == Kept(r[0], stops) && AllIds(r[..1]) == Ids(r[0])
  {
    MembersFrom(r, n, 0);
    InMembers(r, 0);
    assert r[0..] == r;
    assert r[..1][..0] == [];
  }

  /** The next two nodes are still matched to each other. */
  lemma PairReady(r: seq<Tree>, i: int, n: nat, partner: int, q: int, mate1: seq<int>, mate0: seq<int>, mate: seq<int>,
                  stops: set<int>, blocked: seq<bool>, expandBlocked: bool, base: set<Tree>)
    requires AllShape(r, n) && 1 <= i < |r| && i % 2 == 1 && |r| % 2 == 1 && Rematched(r, |r|, q, mate1, mate0)
    requires |mate0| == 2 * n
    requires MatesOutside(AllIds(r[..i]) + {partner}, mate0, mate) && partner !in AllIds(r)
    requires Blocks(stops, AllIds(r), blocked, expandBlocked, n)
    ensures i + 1 < |r| && r[i] in Members(r[i..]) && r[i + 1] in Members(r[i..]) && r[i] != r[i + 1]
    ensures 0 <= r[i].id < 2 * n && 0 <= r[i + 1].id < 2 * n && mate[r[i].id] == r[i + 1].id
    ensures mate[r[i + 1].id] == r[i].id
    ensures Blocks(stops, Ids(r[i]), blocked, expandBlocked, n)
    ensures Blocks(stops, Ids(r[i + 1]), blocked, expandBlocked, n)
  {
    DistinctAt(r, n, i, i + 1);
    DistinctAt(r, n, i + 1, i);
    PrefixApart(r, n, i, i);
    PrefixApart(r, n, i, i + 1);
    KidIds(r, i);
    KidIds(r, i + 1);
    IdInTree(r[i]);
    IdInTree(r[i + 1]);
    MembersFrom(r, n, i);
    InMembers(r[i + 1..], 0);
    hide Ids, AllIds, AllShape, Members;
    RootOutside(r[i], AllIds(r[..i]) + {partner}, mate0, mate);
    RootOutside(r[i + 1], AllIds(r[..i]) + {partner}, mate0, mate);
    BlocksPart(stops, AllIds(r), Ids(r[i]), blocked, expandBlocked, n);
    BlocksPart(stops, AllIds(r), Ids(r[i + 1]), blocked, expandBlocked, n);
  }

  /** What the pair leaves joins what was there before. */
  lemma PairJoins(r: seq<Tree>, i: int, n: nat, stops: set<int>, piece: Tree, partner: Tree, base: set<Tree>,
                  mate1: seq<int>, mate2: seq<int>, slack: seq<real>)
    requires AllShape(r, n) && 1 <= i && i + 1 < |r| && partner in base && forall t :: t in base ==> Ids(t) !! AllIds(r)
    requires MatchedExcept(AllKept(r[..i], stops), piece, partner, mate1, slack, n)
    requires MatchedWithin(Kept(r[i], stops) + Kept(r[i + 1], stops), mate2, slack, n)
    requires MatesOutside(Ids(r[i]) + Ids(r[i + 1]), mate1, mate2)
    ensures MatchedExcept(AllKept(r[..i + 2], stops), piece, partner, mate2, slack, n)
  {
    hide *;
    var before, more, s := AllKept(r[..i], stops), Kept(r[i], stops) + Kept(r[i + 1], stops), Ids(r[i]) + Ids(r[i + 1]);
    PairApart(r, i, n, stops, partner, base);
    KeptNext(r, i, stops);
    KeptNext(r, i + 1, stops);
    PieceIn(before, piece, partner, mate1, slack, n);
    SameOutside(before + {partner}, s, mate1, mate2);
    ExceptFrame(before, piece, partner, mate1, mate2, slack, n);
    ExceptUnion(before, more, piece, partner, mate2, slack, n);
    assert before + more == before + Kept(r[i], stops) + Kept(r[i + 1], stops);
  }

  lemma PieceIn(s: set<Tree>, piece: Tree, partner: Tree, mate: seq<int>, slack: seq<real>, n: nat)
    requires MatchedExcept(s, piece, partner, mate, slack, n)
    ensures piece in s && Mutual(piece, partner, mate, slack, n)
  {
  }

  /** What came before a pair shares no number with it. */
  lemma PairApart(r: seq<Tree>, i: int, n: nat, stops: set<int>, partner: Tree, base: set<Tree>)
    requires AllShape(r, n) && 1 <= i && i + 1 < |r| && partner in base && forall t :: t in base ==> Ids(t) !! AllIds(r)
    ensures Covered(AllKept(r[..i], stops) + {partner}) !! Ids(r[i]) + Ids(r[i + 1])
    ensures AllKept(r[..i], stops) !! Kept(r[i], stops) + Kept(r[i + 1], stops)
  {
    PrefixShape(r, n, i);
    AllKeptCovered(r[..i], stops, n);
    KidShape(r, n, i);
    KidShape(r, n, i + 1);
    KeptCovered(r[i], stops, n);
    KeptCovered(r[i + 1], stops, n);
    PrefixApart(r, n, i, i);
    PrefixApart(r, n, i, i + 1);
    KidIds(r, i);
    KidIds(r, i + 1);
    CoveredUnion(AllKept(r[..i], stops), {partner});
    CoveredOne(partner);
    hide Shape, AllShape, Ids, AllIds, Kept, AllKept, Covered;
  }

  lemma PairPrefix(r: seq<Tree>, i: int, n: nat, partner: int, outer0: seq<int>, outer1: seq<int>, outer2: seq<int>,
                   mate0: seq<int>, mate1: seq<int>, mate2: seq<int>)
    requires 0 <= i && i + 1 < |r|
    requires Untouched(AllIds(r[..i]), n, outer0, outer1) && Untouched(Ids(r[i]) + Ids(r[i + 1]), n, outer1, outer2)
    requires MatesOutside(AllIds(r[..i]) + {partner}, mate0, mate1)
    requires MatesOutside(Ids(r[i]) + Ids(r[i + 1]), mate1, mate2)
    ensures Untouched(AllIds(r[..i + 2]), n, outer0, outer2)
    ensures MatesOutside(AllIds(r[..i + 2]) + {partner}, mate0, mate2)
  {
    assert r[..i + 1][..i] == r[..i] && r[..i + 2][..i + 1] == r[..i + 1];
    assert AllIds(r[..i + 2]) == AllIds(r[..i]) + Ids(r[i]) + Ids(r[i + 1]);
    hide Ids, AllIds;
  }
}
