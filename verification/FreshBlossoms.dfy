/** Blossoms contracted since the last reset: what they hide is still matched, but for one exposed piece. */
module FreshBlossoms {
  import opened BlossomTree
  import opened BlossomFamily
  import opened BlossomCircuit
  import opened BlossomMates
  import opened BlossomExpand
  import opened BlossomRetrieve
  import opened MatchingStart

  /** Opened down to the stops, the tree leaves one piece that carries its mate; the rest is matched within. */
  ghost predicate Loose(t: Tree, piece: Tree, stops: set<int>, mate: seq<int>, slack: seq<real>, n: nat) {
    && piece in Kept(t, stops) && 0 <= t.id < |mate| && 0 <= piece.id < |mate| && mate[piece.id] == mate[t.id]
    && MatchedWithin(Kept(t, stops) - {piece}, mate, slack, n)
  }

  ghost predicate HasPiece(t: Tree, stops: set<int>, mate: seq<int>, slack: seq<real>, n: nat) {
    exists piece :: Loose(t, piece, stops, mate, slack, n)
  }

  /** What a reset would leave is partly matched, and every outermost tree has its exposed piece. */
  ghost predicate Good(family: set<Tree>, stops: set<int>, mate: seq<int>, slack: seq<real>, n: nat) {
    PartlyMatched(KeptOf(family, stops), mate, slack, n) && forall t :: t in family ==>
      HasPiece(t, stops, mate, slack, n)
  }

  // Kept trees ---------------------------------------------------------------------------------------------

  lemma KeptLeaf(t: Tree, stops: set<int>, n: nat, k: Tree, x: int)
    requires Shape(t, n) && k in Kept(t, stops) && x in Leaves(k)
    ensures x in Leaves(t) && 0 <= x < n
  {
    KeptCovered(t, stops, n);
    LeavesInArray(k, n);
    LeafIffId(k, n, x);
    LeafIffId(t, n, x);
  }

  lemma InKeptOf(family: set<Tree>, stops: set<int>, t: Tree, k: Tree)
    requires t in family && k in Kept(t, stops)
    ensures k in KeptOf(family, stops)
  {
  }

  lemma OwnerOf(family: set<Tree>, stops: set<int>, k: Tree) returns (t: Tree)
    requires k in KeptOf(family, stops)
    ensures t in family && k in Kept(t, stops)
  {
    t :| t in family && k in Kept(t, stops);
  }

  /** The numbers of kept trees are in range, and different trees have different ones. */
  lemma KeptId(family: set<Tree>, stops: set<int>, n: nat, k: Tree)
    requires Laminar(family, {}, n) && k in KeptOf(family, stops)
    ensures 0 <= k.id < 2 * n && Shape(k, n)
  {
    var t := OwnerOf(family, stops, k);
    KeptCovered(t, stops, n);
  }

  // The piece of one tree meets the piece of its partner ------------------------------------------------------

  lemma MatchedHas(s: set<Tree>, t: Tree, mate: seq<int>, slack: seq<real>, n: nat) returns (r: Tree)
    requires MatchedWithin(s, mate, slack, n) && t in s
    ensures r in s && r != t && Mutual(t, r, mate, slack, n)
  {
    assert HasMate(s, t, mate, slack, n);
    r :| r in s && r != t && Mutual(t, r, mate, slack, n);
  }

  lemma PartlyHas(s: set<Tree>, t: Tree, mate: seq<int>, slack: seq<real>, n: nat) returns (r: Tree)
    requires PartlyMatched(s, mate, slack, n) && t in s && 0 <= t.id < 2 * n && mate[t.id] != -1
    ensures r in s && r != t && Mutual(t, r, mate, slack, n)
  {
    r :| r in s && r != t && Mutual(t, r, mate, slack, n);
  }

  lemma MutualLeaves(a: Tree, b: Tree, mate: seq<int>, slack: seq<real>, n: nat)
    requires Mutual(a, b, mate, slack, n)
    ensures 0 <= a.id < |mate| && 0 <= b.id < |mate| && mate[a.id] in Leaves(b) && mate[b.id] in Leaves(a)
    ensures Tight(slack, n, mate[b.id], mate[a.id]) && 0 <= mate[a.id] < n && 0 <= mate[b.id] < n
  {
  }

  lemma MakeMutual(a: Tree, b: Tree, mate: seq<int>, slack: seq<real>, n: nat)
    requires 0 <= a.id < |mate| && 0 <= b.id < |mate| && mate[a.id] in Leaves(b) && mate[b.id] in Leaves(a)
    requires Tight(slack, n, mate[b.id], mate[a.id])
    ensures Mutual(a, b, mate, slack, n) && Mutual(b, a, mate, slack, n)
  {
  }

  lemma PieceFacts(t: Tree, piece: Tree, stops: set<int>, mate: seq<int>, slack: seq<real>, n: nat)
    requires Loose(t, piece, stops, mate, slack, n)
    ensures piece in Kept(t, stops) && 0 <= t.id < |mate| && 0 <= piece.id < |mate| && mate[piece.id] == mate[t.id]
    ensures MatchedWithin(Kept(t, stops) - {piece}, mate, slack, n)
  {
  }

  lemma GoodFacts(family: set<Tree>, stops: set<int>, mate: seq<int>, slack: seq<real>, n: nat,
                  t: Tree) returns (piece: Tree)
    requires Good(family, stops, mate, slack, n) && t in family
    ensures Loose(t, piece, stops, mate, slack, n) && PartlyMatched(KeptOf(family, stops), mate, slack, n)
    ensures |mate| == 2 * n
  {
    assert HasPiece(t, stops, mate, slack, n);
    piece :| Loose(t, piece, stops, mate, slack, n);
  }

  /** The partner of an exposed piece is the exposed piece of another tree. */
  lemma PiecePartner(family: set<Tree>, stops: set<int>, mate: seq<int>, slack: seq<real>, n: nat, s: Tree, ps: Tree)
    returns (t: Tree, pt: Tree)
    requires Laminar(family, {}, n) && Good(family, stops, mate, slack, n) && s in family
    requires Loose(s, ps, stops, mate, slack, n)
    requires 0 <= s.id < |mate| && mate[s.id] != -1
    ensures t in family && t != s && Loose(t, pt, stops, mate, slack, n) && Mutual(ps, pt, mate, slack, n)
    ensures Mutual(s, t, mate, slack, n)
  {
    hide *;
    PieceFacts(s, ps, stops, mate, slack, n);
    var other := GoodFacts(family, stops, mate, slack, n, s);
    InKeptOf(family, stops, s, ps);
    KeptId(family, stops, n, ps);
    FamilyShape(family, n, s);
    var r := PartlyHas(KeptOf(family, stops), ps, mate, slack, n);
    t := OwnerOf(family, stops, r);
    FamilyShape(family, n, t);
    pt := GoodFacts(family, stops, mate, slack, n, t);
    PieceFacts(t, pt, stops, mate, slack, n);
    MutualLeaves(ps, r, mate, slack, n);
    OwnPartner(s, ps, r, stops, mate, slack, n);
    NotInner(family, s, t, ps, r, pt, stops, mate, slack, n);
    KeptLeaf(t, stops, n, pt, mate[ps.id]);
    KeptLeaf(s, stops, n, ps, mate[pt.id]);
    MakeMutual(s, t, mate, slack, n);
  }

  /** The exposed piece is not matched inside its own tree. */
  lemma OwnPartner(s: Tree, ps: Tree, r: Tree, stops: set<int>, mate: seq<int>, slack: seq<real>, n: nat)
    requires Shape(s, n) && ps in Kept(s, stops) && r != ps && Mutual(ps, r, mate, slack, n)
    requires MatchedWithin(Kept(s, stops) - {ps}, mate, slack, n)
    ensures r !in Kept(s, stops)
  {
    hide *;
    if r in Kept(s, stops) {
      var q := MatchedHas(Kept(s, stops) - {ps}, r, mate, slack, n);
      MutualLeaves(r, q, mate, slack, n);
      MutualLeaves(ps, r, mate, slack, n);
      KeptSplits(s, stops, n);
      LeavesOnce(Kept(s, stops), n, q, ps, mate[r.id]);
    }
  }

  lemma LeavesOnce(family: set<Tree>, n: nat, s: Tree, t: Tree, x: int)
    requires Laminar(family, {}, n) && s in family && t in family && x in Leaves(s) && x in Leaves(t)
    ensures s == t
  {
    LeafIffId(s, n, x);
    LeafIffId(t, n, x);
  }

  /** Nor is it matched to an inner piece of another tree. */
  lemma NotInner(family: set<Tree>, s: Tree, t: Tree, ps: Tree, r: Tree, pt: Tree, stops: set<int>, mate: seq<int>,
                 slack: seq<real>, n: nat)
    requires Laminar(family, {}, n) && s in family && t in family && s != t
    requires ps in Kept(s, stops) && r in Kept(t, stops) && Mutual(ps, r, mate, slack, n)
    requires MatchedWithin(Kept(t, stops) - {pt}, mate, slack, n)
    ensures r == pt
  {
    hide *;
    if r != pt {
      var q := MatchedHas(Kept(t, stops) - {pt}, r, mate, slack, n);
      MutualLeaves(r, q, mate, slack, n);
      MutualLeaves(ps, r, mate, slack, n);
      FamilyShape(family, n, s);
      FamilyShape(family, n, t);
      KeptLeaf(t, stops, n, q, mate[r.id]);
      KeptLeaf(s, stops, n, ps, mate[r.id]);
      LeavesOnce(family, n, s, t, mate[r.id]);
    }
  }

  /** So the outermost trees are partly matched. */
  lemma GoodIsPartly(family: set<Tree>, stops: set<int>, mate: seq<int>, slack: seq<real>, n: nat)
    requires Laminar(family, {}, n) && Good(family, stops, mate, slack, n)
    ensures PartlyMatched(family, mate, slack, n)
  {
    hide Loose, Kept, Laminar, Mutual, MatchedWithin, KeptOf;
    forall t | t in family && 0 <= t.id < 2 * n && mate[t.id] != -1
      ensures HasMate(family, t, mate, slack, n)
    {
      var p := GoodFacts(family, stops, mate, slack, n, t);
      var r, q := PiecePartner(family, stops, mate, slack, n, t, p);
      HasMateBy(family, t, r, mate, slack, n);
    }
  }

  /** Two outermost trees that are matched meet at their pieces. */
  lemma PiecesMeet(family: set<Tree>, stops: set<int>, mate: seq<int>, slack: seq<real>, n: nat, s: Tree, t: Tree,
                   ps: Tree, pt: Tree)
    requires Laminar(family, {}, n) && Good(family, stops, mate, slack, n) && s in family && t in family
    requires s != t && Mutual(s, t, mate, slack, n) && Loose(s, ps, stops, mate, slack, n)
    requires Loose(t, pt, stops, mate, slack, n)
    ensures Mutual(ps, pt, mate, slack, n)
  {
    hide *;
    MutualLeaves(s, t, mate, slack, n);
    PieceFacts(s, ps, stops, mate, slack, n);
    PieceFacts(t, pt, stops, mate, slack, n);
    var r, q := PiecePartner(family, stops, mate, slack, n, s, ps);
    MutualLeaves(s, r, mate, slack, n);
    LeavesOnce(family, n, r, t, mate[s.id]);
    PieceFacts(t, q, stops, mate, slack, n);
    MutualLeaves(ps, q, mate, slack, n);
    NotInner(family, s, t, ps, q, pt, stops, mate, slack, n);
  }

  /** A tree that opening would not touch is its own piece. */
  lemma ClosedPiece(t: Tree, stops: set<int>, mate: seq<int>, slack: seq<real>, n: nat)
    requires Kept(t, stops) == {t} && 0 <= t.id < |mate|
    ensures HasPiece(t, stops, mate, slack, n)
  {
    assert Kept(t, stops) - {t} == {};
    assert Loose(t, t, stops, mate, slack, n);
  }

  lemma ClosedFamily(family: set<Tree>, stops: set<int>, mate: seq<int>, slack: seq<real>, n: nat)
    requires Laminar(family, {}, n) && KeptOf(family, stops) == family && PartlyMatched(family, mate, slack, n)
    ensures Good(family, stops, mate, slack, n)
  {
    hide PartlyMatched, HasPiece, Shape, MatchedWithin;
    forall t | t in family
      ensures HasPiece(t, stops, mate, slack, n)
    {
      FamilyShape(family, n, t);
      SelfKept(family, stops, t, n);
      PartlySize(family, mate, slack, n);
      RootsApart(family, n, t);
      ClosedPiece(t, stops, mate, slack, n);
    }
  }

  lemma PartlySize(family: set<Tree>, mate: seq<int>, slack: seq<real>, n: nat)
    requires PartlyMatched(family, mate, slack, n)
    ensures |mate| == 2 * n
  {
  }

  lemma SelfKept(family: set<Tree>, stops: set<int>, t: Tree, n: nat)
    requires KeptOf(family, stops) == family && t in family && Laminar(family, {}, n)
    ensures Kept(t, stops) == {t}
  {
    var s := OwnerOf(family, stops, t);
    KeptStable(s, stops, t);
  }

  // Contraction ----------------------------------------------------------------------------------------------

  /** On the circuit the parts behind the first are matched in pairs. */
  ghost predicate PairedAround(kids: seq<Tree>, mate: seq<int>, slack: seq<real>, n: nat) {
    forall j :: 1 <= j < |kids| - 1 && j % 2 == 1 ==> Mutual(kids[j], kids[j + 1], mate, slack, n)
  }

  lemma PairAt(kids: seq<Tree>, mate: seq<int>, slack: seq<real>, n: nat, i: int) returns (j: int)
    requires PairedAround(kids, mate, slack, n) && 1 <= i < |kids| && |kids| % 2 == 1
    ensures 1 <= j < |kids| && j != i && Mutual(kids[i], kids[j], mate, slack, n)
  {
    if i % 2 == 1 {
      j := i + 1;
    } else {
      j := i - 1;
      MutualBack(kids[j], kids[i], mate, slack, n);
    }
  }

  lemma KidsApart(family: set<Tree>, n: nat, kids: seq<Tree>, stops: set<int>, i: int, j: int, k: Tree, l: Tree)
    requires Laminar(family, {}, n) && Picked(family, kids) && 0 <= i < |kids| && 0 <= j < |kids| && i != j
    requires k in Kept(kids[i], stops) && l in Kept(kids[j], stops)
    ensures kids[i] != kids[j] && k != l
  {
    KeptCovered(kids[i], stops, n);
    KeptCovered(kids[j], stops, n);
    assert kids[i] != kids[j];
  }

  lemma PickedIn(family: set<Tree>, kids: seq<Tree>, i: int)
    requires Picked(family, kids) && 0 <= i < |kids|
    ensures kids[i] in family
  {
  }

  lemma PickedDiffer(family: set<Tree>, kids: seq<Tree>, i: int, j: int)
    requires Picked(family, kids) && 0 <= i < |kids| && 0 <= j < |kids| && i != j
    ensures kids[i] != kids[j]
  {
  }

  lemma KidOwner(kids: seq<Tree>, stops: set<int>, k: Tree) returns (i: int)
    requires k in AllKept(kids, stops)
    ensures 0 <= i < |kids| && k in Kept(kids[i], stops)
  {
    KeptOfKid(kids, stops, k);
    i :| 0 <= i < |kids| && k in Kept(kids[i], stops);
  }

  lemma OwnedByKid(kids: seq<Tree>, stops: set<int>, i: int, k: Tree)
    requires 0 <= i < |kids| && k in Kept(kids[i], stops)
    ensures k in AllKept(kids, stops)
  {
    KeptOfKid(kids, stops, k);
  }

  /** What lies inside the circuit is matched there, but for the piece of the first part. */
  lemma InsideMatched(family: set<Tree>, stops: set<int>, mate: seq<int>, slack: seq<real>, n: nat, kids: seq<Tree>,
                      p0: Tree, k: Tree)
    requires Laminar(family, {}, n) && Good(family, stops, mate, slack, n) && Picked(family, kids) && |kids| % 2 == 1
    requires PairedAround(kids, mate, slack, n) && Loose(kids[0], p0, stops, mate, slack, n)
    requires k in AllKept(kids, stops) && k != p0
    ensures HasMate(AllKept(kids, stops) - {p0}, k, mate, slack, n)
  {
    hide *;
    var i := KidOwner(kids, stops, k);
    PickedIn(family, kids, i);
    PickedIn(family, kids, 0);
    PieceFacts(kids[0], p0, stops, mate, slack, n);
    var p := GoodFacts(family, stops, mate, slack, n, kids[i]);
    p := if i == 0 then p0 else p;
    PieceFacts(kids[i], p, stops, mate, slack, n);
    var r: Tree;
    if k != p {
      r := MatchedHas(Kept(kids[i], stops) - {p}, k, mate, slack, n);
      OwnedByKid(kids, stops, i, r);
      if i != 0 {
        KidsApart(family, n, kids, stops, 0, i, p0, r);
      }
    } else {
      var j := PairAt(kids, mate, slack, n, i);
      PickedIn(family, kids, j);
      PickedDiffer(family, kids, i, j);
      r := GoodFacts(family, stops, mate, slack, n, kids[j]);
      PieceFacts(kids[j], r, stops, mate, slack, n);
      PiecesMeet(family, stops, mate, slack, n, kids[i], kids[j], p, r);
      OwnedByKid(kids, stops, j, r);
      KidsApart(family, n, kids, stops, 0, j, p0, r);
      KidsApart(family, n, kids, stops, i, j, k, r);
    }
    HasMateBy(AllKept(kids, stops) - {p0}, k, r, mate, slack, n);
  }

  /** The crown blossom opens to what its parts open to. */
  lemma SameBase(family: set<Tree>, stops: set<int>, kids: seq<Tree>, t: int)
    requires Picked(family, kids) && t !in stops && kids != []
    ensures Kept(Tree(t, kids), stops) == AllKept(kids, stops)
    ensures KeptOf(family - Members(kids) + {Tree(t, kids)}, stops) == KeptOf(family, stops)
  {
    var crown := Tree(t, kids);
    var more := family - Members(kids) + {crown};
    assert Kept(crown, stops) == AllKept(kids, stops);
    hide Kept, AllKept;
    forall k
      ensures k in KeptOf(more, stops) <==> k in KeptOf(family, stops)
    {
      if k in KeptOf(more, stops) {
        var s := OwnerOf(more, stops, k);
        if s == crown {
          var i := KidOwner(kids, stops, k);
          InKeptOf(family, stops, kids[i], k);
        } else {
          InKeptOf(family, stops, s, k);
        }
      }
      if k in KeptOf(family, stops) {
        var s := OwnerOf(family, stops, k);
        if s in Members(kids) {
          var i :| 0 <= i < |kids| && kids[i] == s;
          OwnedByKid(kids, stops, i, k);
          InKeptOf(more, stops, crown, k);
        } else {
          InKeptOf(more, stops, s, k);
        }
      }
    }
  }

  lemma AllHaveMates(s: set<Tree>, mate: seq<int>, slack: seq<real>, n: nat)
    requires forall k :: k in s ==> HasMate(s, k, mate, slack, n)
    ensures MatchedWithin(s, mate, slack, n)
  {
  }

  /** Changing the mate of a number outside the family changes nothing inside it. */
  lemma NewMate(family: set<Tree>, stops: set<int>, mate: seq<int>, slack: seq<real>, n: nat, t: int, x: int,
                s: set<Tree>)
    requires Laminar(family, {}, n) && 0 <= t < |mate| && t !in Covered(family) && s <= KeptOf(family, stops)
    ensures SameMates(s, mate, mate[t := x])
  {
    forall k | k in s && 0 <= k.id < |mate|
      ensures mate[t := x][k.id] == mate[k.id]
    {
      var u := OwnerOf(family, stops, k);
      KeptCovered(u, stops, n);
      InCovered(family, u);
    }
  }

  lemma PartlyFrame(s: set<Tree>, mate: seq<int>, mate': seq<int>, slack: seq<real>, n: nat)
    requires PartlyMatched(s, mate, slack, n) && SameMates(s, mate, mate')
    ensures PartlyMatched(s, mate', slack, n)
  {
    hide Mutual;
    forall t | t in s && 0 <= t.id < 2 * n && mate'[t.id] != -1
      ensures HasMate(s, t, mate', slack, n)
    {
      var r := PartlyHas(s, t, mate, slack, n);
      MutualBounds(t, r, mate, slack, n);
      MutualFrame(t, r, mate, mate', slack, n);
      HasMateBy(s, t, r, mate', slack, n);
    }
  }

  lemma LooseFrame(t: Tree, piece: Tree, stops: set<int>, mate: seq<int>, mate': seq<int>, slack: seq<real>, n: nat)
    requires Loose(t, piece, stops, mate, slack, n) && SameMates(Kept(t, stops), mate, mate')
    requires mate'[t.id] == mate[t.id]
    ensures Loose(t, piece, stops, mate', slack, n)
  {
    MatchedFrame(Kept(t, stops) - {piece}, mate, mate', slack, n);
  }

  lemma SameAt(family: set<Tree>, n: nat, mate: seq<int>, t: int, x: int, s: Tree)
    requires Laminar(family, {}, n) && 0 <= t < |mate| && t !in Covered(family) && s in family && |mate| == 2 * n
    ensures 0 <= s.id < |mate| && mate[t := x][s.id] == mate[s.id]
  {
    IdInTree(s);
    InCovered(family, s);
  }

  lemma GoodPartly(family: set<Tree>, stops: set<int>, mate: seq<int>, slack: seq<real>, n: nat)
    requires Good(family, stops, mate, slack, n)
    ensures PartlyMatched(KeptOf(family, stops), mate, slack, n) && |mate| == 2 * n
  {
  }

  lemma MakeGood(family: set<Tree>, stops: set<int>, mate: seq<int>, slack: seq<real>, n: nat)
    requires PartlyMatched(KeptOf(family, stops), mate, slack, n)
    requires forall t :: t in family ==> HasPiece(t, stops, mate, slack, n)
    ensures Good(family, stops, mate, slack, n)
  {
  }

  lemma KeptIn(family: set<Tree>, stops: set<int>, t: Tree)
    requires t in family
    ensures Kept(t, stops) <= KeptOf(family, stops)
  {
  }

  lemma StillLoose(family: set<Tree>, stops: set<int>, mate: seq<int>, slack: seq<real>, n: nat, t: int, x: int,
                   s: Tree)
    requires Laminar(family, {}, n) && Good(family, stops, mate, slack, n) && s in family && 0 <= t < |mate|
    requires t !in Covered(family)
    ensures HasPiece(s, stops, mate[t := x], slack, n)
  {
    hide Laminar, Good, Kept, KeptOf, Loose, Covered;
    var p := GoodFacts(family, stops, mate, slack, n, s);
    KeptIn(family, stops, s);
    NewMate(family, stops, mate, slack, n, t, x, Kept(s, stops));
    SameAt(family, n, mate, t, x, s);
    LooseFrame(s, p, stops, mate, mate[t := x], slack, n);
  }

  lemma NewLoose(family: set<Tree>, stops: set<int>, mate: seq<int>, slack: seq<real>, n: nat, kids: seq<Tree>, t: int)
    requires Laminar(family, {}, n) && Good(family, stops, mate, slack, n) && Picked(family, kids) && |kids| % 2 == 1
    requires PairedAround(kids, mate, slack, n) && t !in stops && 0 <= t < 2 * n && t !in Covered(family)
    requires |mate| == 2 * n && 0 <= kids[0].id < 2 * n
    ensures HasPiece(Tree(t, kids), stops, mate[t := mate[kids[0].id]], slack, n)
  {
    hide *;
    PickedIn(family, kids, 0);
    var p0 := GoodFacts(family, stops, mate, slack, n, kids[0]);
    PieceFacts(kids[0], p0, stops, mate, slack, n);
    SameBase(family, stops, kids, t);
    OwnedByKid(kids, stops, 0, p0);
    var inside := AllKept(kids, stops) - {p0};
    forall k | k in inside
      ensures HasMate(inside, k, mate, slack, n)
    {
      InsideMatched(family, stops, mate, slack, n, kids, p0, k);
    }
    AllHaveMates(inside, mate, slack, n);
    InsideBase(family, stops, kids);
    var mate' := mate[t := mate[kids[0].id]];
    NewMate(family, stops, mate, slack, n, t, mate[kids[0].id], AllKept(kids, stops));
    SameMatesPart(AllKept(kids, stops), inside, mate, mate');
    MatchedFrame(inside, mate, mate', slack, n);
    SameMatesAt(AllKept(kids, stops), p0, mate, mate');
    MakeLoose(Tree(t, kids), p0, stops, mate', slack, n);
  }

  lemma InsideBase(family: set<Tree>, stops: set<int>, kids: seq<Tree>)
    requires Picked(family, kids)
    ensures AllKept(kids, stops) <= KeptOf(family, stops)
  {
    hide AllKept, Kept;
    forall k | k in AllKept(kids, stops)
      ensures k in KeptOf(family, stops)
    {
      var i := KidOwner(kids, stops, k);
      InKeptOf(family, stops, kids[i], k);
    }
  }

  lemma SameMatesPart(s: set<Tree>, part: set<Tree>, mate: seq<int>, mate': seq<int>)
    requires SameMates(s, mate, mate') && part <= s
    ensures SameMates(part, mate, mate')
  {
  }

  lemma SameMatesAt(s: set<Tree>, k: Tree, mate: seq<int>, mate': seq<int>)
    requires SameMates(s, mate, mate') && k in s && 0 <= k.id < |mate|
    ensures |mate'| == |mate| && mate'[k.id] == mate[k.id]
  {
  }

  lemma MakeLoose(t: Tree, piece: Tree, stops: set<int>, mate: seq<int>, slack: seq<real>, n: nat)
    requires piece in Kept(t, stops) && 0 <= t.id < |mate| && 0 <= piece.id < |mate| && mate[piece.id] == mate[t.id]
    requires MatchedWithin(Kept(t, stops) - {piece}, mate, slack, n)
    ensures HasPiece(t, stops, mate, slack, n)
  {
    assert Loose(t, piece, stops, mate, slack, n);
  }

  /** Contraction keeps everything good, and what a reset would leave stays the same. */
  lemma ContractGood(family: set<Tree>, stops: set<int>, mate: seq<int>, slack: seq<real>, n: nat, kids: seq<Tree>,
                     t: int)
    requires Laminar(family, {}, n) && Good(family, stops, mate, slack, n) && Picked(family, kids) && |kids| % 2 == 1
    requires PairedAround(kids, mate, slack, n) && t !in stops && 0 <= t < 2 * n && t !in Covered(family)
    requires |mate| == 2 * n && 0 <= kids[0].id < 2 * n
    ensures KeptOf(family - Members(kids) + {Tree(t, kids)}, stops) == KeptOf(family, stops)
    ensures Good(family - Members(kids) + {Tree(t, kids)}, stops, mate[t := mate[kids[0].id]], slack, n)
  {
    hide *;
    var mate' := mate[t := mate[kids[0].id]];
    var more := family - Members(kids) + {Tree(t, kids)};
    SameBase(family, stops, kids, t);
    NewLoose(family, stops, mate, slack, n, kids, t);
    GoodPartly(family, stops, mate, slack, n);
    NewMate(family, stops, mate, slack, n, t, mate[kids[0].id], KeptOf(family, stops));
    PartlyFrame(KeptOf(family, stops), mate, mate', slack, n);
    forall s | s in more
      ensures HasPiece(s, stops, mate', slack, n)
    {
      if s != Tree(t, kids) {
        StillLoose(family, stops, mate, slack, n, t, mate[kids[0].id], s);
      }
    }
    MakeGood(more, stops, mate', slack, n);
  }
}
