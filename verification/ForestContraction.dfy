/** Contracting an odd circuit keeps the alternating forest: climbs through the circuit go through the new node. */
module ForestContraction {
  import opened BlossomTree
  import opened BlossomFamily
  import opened BlossomPartition
  import opened BlossomCircuit
  import opened BlossomMates
  import opened MatchingFacts
  import opened BlossomExpand
  import opened BlossomRetrieve
  import opened MatchingStart
  import opened FreshBlossoms
  import opened AlternatingForest

  // The tip and the pairs of the circuit ------------------------------------------------------------------------

  /** Only one node has its mate in c. */
  lemma UniqueMate(family: set<Tree>, n: nat, active: seq<bool>, free: seq<int>, deep: seq<seq<int>>,
                   shallow: seq<seq<int>>, outer: seq<int>,
                   mate: seq<int>, slack: seq<real>, p: int, q: int, c: int)
    requires Whole(family, {}, n, active, free, deep, shallow, outer) && PartlyMatched(family, mate, slack, n)
    requires HasTree(family, p) && HasTree(family, q) && Leads(p, c, n, outer, mate) && Leads(q, c, n, outer, mate)
    ensures p == q
  {
    hide *;
    var s := PickTree(family, p);
    var t := PickTree(family, q);
    LeadsFacts(p, c, n, outer, mate);
    LeadsFacts(q, c, n, outer, mate);
    var x := MateBack(family, n, active, free, deep, shallow, outer, mate, slack, s);
    var y := MateBack(family, n, active, free, deep, shallow, outer, mate, slack, t);
    LeadsFacts(s.id, x.id, n, outer, mate);
    LeadsFacts(t.id, y.id, n, outer, mate);
    LeadsFacts(x.id, s.id, n, outer, mate);
    LeadsFacts(y.id, t.id, n, outer, mate);
  }

  lemma CoupledAt(path: seq<int>, n: nat, outer: seq<int>, mate: seq<int>, i: int)
    requires Coupled(path, n, outer, mate) && 0 <= i < |path| - 1 && i % 2 == 0
    ensures Leads(path[i], path[i + 1], n, outer, mate)
  {
  }

  lemma MeetsBefore(up: seq<int>, a: int, vp: seq<int>, b: int, i: int, j: int)
    requires Meets(up, a, vp, b) && 0 <= i < b && 0 <= j < |up|
    ensures i < |vp| && vp[i] != up[j]
  {
  }

  /** The tip of the circuit is even. */
  lemma TipIsEven(family: set<Tree>, n: nat, active: seq<bool>, free: seq<int>, deep: seq<seq<int>>,
                  shallow: seq<seq<int>>, outer: seq<int>,
                  forest: seq<int>, kind: seq<int>, mate: seq<int>, slack: seq<real>, up: seq<int>, a: int,
                  vp: seq<int>, b: int)
    requires Whole(family, {}, n, active, free, deep, shallow, outer) && PartlyMatched(family, mate, slack, n)
    requires RootPath(up, n, outer, forest) && Alternates(up, n, kind) && Coupled(up, n, outer, mate)
    requires RootPath(vp, n, outer, forest) && Alternates(vp, n, kind) && Coupled(vp, n, outer, mate)
    requires up != [] && vp != [] && HasTree(family, up[0]) && HasTree(family, vp[0]) && Meets(up, a, vp, b)
    ensures a % 2 == 0 && b % 2 == 0 && 0 <= a < |up| && 0 <= b < |vp| && vp[b] == up[a]
  {
    hide *;
    SortsDiffer();
    MeetBounds(up, a, vp, b);
    LabelAt(up, n, kind, a);
    LabelAt(vp, n, kind, b);
    if a % 2 == 1 {
      CoupledAt(up, n, outer, mate, a - 1);
      CoupledAt(vp, n, outer, mate, b - 1);
      ClimbTree(family, n, active, free, deep, shallow, outer, forest, up, a - 1);
      ClimbTree(family, n, active, free, deep, shallow, outer, forest, vp, b - 1);
      UniqueMate(family, n, active, free, deep, shallow, outer, mate, slack, up[a - 1], vp[b - 1], up[a]);
      MeetsBefore(up, a, vp, b, b - 1, a - 1);
    }
  }

  /** Two trees of which one leads to the other are matched. */
  lemma MutualByLead(family: set<Tree>, n: nat, active: seq<bool>, free: seq<int>, deep: seq<seq<int>>,
                     shallow: seq<seq<int>>, outer: seq<int>,
                     mate: seq<int>, slack: seq<real>, s: Tree, t: Tree)
    requires Whole(family, {}, n, active, free, deep, shallow, outer) && PartlyMatched(family, mate, slack, n)
    requires s in family && t in family
    requires Leads(s.id, t.id, n, outer, mate)
    ensures Mutual(s, t, mate, slack, n)
  {
    hide *;
    LeadsFacts(s.id, t.id, n, outer, mate);
    var r := MateBack(family, n, active, free, deep, shallow, outer, mate, slack, s);
    LeadsFacts(s.id, r.id, n, outer, mate);
    LaminarOf(family, n, active, free, deep, shallow, outer);
    SameId(family, n, r, t);
  }

  lemma RootAt(kids: seq<Tree>, i: int)
    requires 0 <= i < |kids|
    ensures |Roots(kids)| == |kids| && Roots(kids)[i] == kids[i].id
  {
  }

  /** Behind the tip the parts of the circuit are matched in pairs. */
  lemma CircuitPairs(family: set<Tree>, n: nat, active: seq<bool>, free: seq<int>, deep: seq<seq<int>>,
                     shallow: seq<seq<int>>, outer: seq<int>,
                     mate: seq<int>, slack: seq<real>, up: seq<int>, a: int, vp: seq<int>, b: int, kids: seq<Tree>)
    requires Whole(family, {}, n, active, free, deep, shallow, outer) && PartlyMatched(family, mate, slack, n)
    requires Picked(family, kids)
    requires Coupled(up, n, outer, mate) && Coupled(vp, n, outer, mate)
    requires 0 <= a < |up| && 0 <= b < |vp| && a % 2 == 0 && b % 2 == 0 && Roots(kids) == Circuit(up, a, vp, b)
    ensures PairedAround(kids, mate, slack, n)
  {
    hide Whole, PartlyMatched, Picked, Coupled, Circuit, Roots, Mutual, Leads;
    forall j | 1 <= j < |kids| - 1 && j % 2 == 1
      ensures Mutual(kids[j], kids[j + 1], mate, slack, n)
    {
      RootAt(kids, j);
      RootAt(kids, j + 1);
      CircuitAt(up, a, vp, b, 0);
      CircuitAt(up, a, vp, b, j);
      CircuitAt(up, a, vp, b, j + 1);
      PickedIn(family, kids, j);
      PickedIn(family, kids, j + 1);
      if j < a {
        CoupledAt(up, n, outer, mate, a - j - 1);
        MutualByLead(family, n, active, free, deep, shallow, outer, mate, slack, kids[j + 1], kids[j]);
        MutualBack(kids[j + 1], kids[j], mate, slack, n);
      } else {
        CoupledAt(vp, n, outer, mate, j - a - 1);
        MutualByLead(family, n, active, free, deep, shallow, outer, mate, slack, kids[j], kids[j + 1]);
      }
    }
  }

  // Where the circuit went -----------------------------------------------------------------------------------------

  /** The node that stands for p after the circuit c became t. */
  function Image(c: seq<int>, t: int, p: int): int {
    if p in c then t else p
  }

  /** The trees and arrays before and after. */
  ghost predicate Contracted(family: set<Tree>, kids: seq<Tree>, t: int, n: nat, deep: seq<seq<int>>, outer: seq<int>,
                             deep': seq<seq<int>>, outer': seq<int>)
  {
    && |outer| == 2 * n && |outer'| == 2 * n && |deep| == 2 * n && |deep'| == 2 * n && 0 <= t < 2 * n
    && (forall x :: 0 <= x < n ==> outer'[x] == Image(Roots(kids), t, outer[x]))
    && (forall p, x :: HasTree(family, p) && 0 <= p < 2 * n && x in deep[p] ==>
          0 <= Image(Roots(kids), t, p) < 2 * n && x in deep'[Image(Roots(kids), t, p)])
    && !HasTree(family, t)
  }

  lemma NotMember(family: set<Tree>, n: nat, kids: seq<Tree>, s: Tree)
    requires Laminar(family, {}, n) && Picked(family, kids) && s in family
    ensures s in Members(kids) <==> s.id in Roots(kids)
  {
    hide Laminar;
    if s.id in Roots(kids) {
      var i :| 0 <= i < |Roots(kids)| && Roots(kids)[i] == s.id;
      SameId(family, n, kids[i], s);
    }
    if s in Members(kids) {
      var i :| 0 <= i < |kids| && kids[i] == s;
      assert Roots(kids)[i] == s.id;
    }
  }

  lemma LeafOfMember(kids: seq<Tree>, s: Tree, t: int, x: int)
    requires s in Members(kids) && x in Leaves(s)
    ensures x in Leaves(Tree(t, kids))
  {
    var i :| 0 <= i < |kids| && kids[i] == s;
    KidLeaves(kids, i);
  }

  /** Where a vertex of s leads afterwards. */
  lemma NodeAfter(family: set<Tree>, n: nat, active: seq<bool>, free: seq<int>, deep: seq<seq<int>>,
                  shallow: seq<seq<int>>, outer: seq<int>,
                  kids: seq<Tree>, t: int, active': seq<bool>, free': seq<int>, deep': seq<seq<int>>,
                  shallow': seq<seq<int>>, outer': seq<int>,
                  s: Tree, x: int)
    requires Whole(family, {}, n, active, free, deep, shallow, outer) && Picked(family, kids) && s in family
    requires x in Leaves(s)
    requires Whole(family - Members(kids) + {Tree(t, kids)}, {}, n, active', free', deep', shallow', outer')
    ensures |outer'| == 2 * n && |deep'| == 2 * n && 0 <= x < n
    ensures outer'[x] == Image(Roots(kids), t, s.id)
    ensures 0 <= Image(Roots(kids), t, s.id) < 2 * n && x in deep'[Image(Roots(kids), t, s.id)]
  {
    hide Whole, Picked, Leaves, Members, Roots, Laminar;
    var more := family - Members(kids) + {Tree(t, kids)};
    LaminarOf(family, n, active, free, deep, shallow, outer);
    NotMember(family, n, kids, s);
    WholeSizes(more, {}, n, active', free', deep', shallow', outer');
    TreeFacts(family, n, active, free, deep, shallow, outer, s);
    if s in Members(kids) {
      LeafOfMember(kids, s, t, x);
      TreeFacts(more, n, active', free', deep', shallow', outer', Tree(t, kids));
    } else {
      TreeFacts(more, n, active', free', deep', shallow', outer', s);
    }
  }

  lemma IsContracted(family: set<Tree>, n: nat, active: seq<bool>, free: seq<int>, deep: seq<seq<int>>,
                     shallow: seq<seq<int>>, outer: seq<int>,
                     kids: seq<Tree>, t: int, active': seq<bool>, free': seq<int>, deep': seq<seq<int>>,
                     shallow': seq<seq<int>>, outer': seq<int>)
    requires Whole(family, {}, n, active, free, deep, shallow, outer) && Picked(family, kids) && t !in Covered(family)
    requires 0 <= t < 2 * n
    requires Whole(family - Members(kids) + {Tree(t, kids)}, {}, n, active', free', deep', shallow', outer')
    ensures Contracted(family, kids, t, n, deep, outer, deep', outer')
  {
    WholeSizes(family, {}, n, active, free, deep, shallow, outer);
    WholeSizes(family - Members(kids) + {Tree(t, kids)}, {}, n, active', free', deep', shallow', outer');
    hide Whole, Picked, Leaves, Members, Roots, Image, HasTree, Covered;
    forall x | 0 <= x < n
      ensures outer'[x] == Image(Roots(kids), t, outer[x])
    {
      var s := VertexTree(family, n, active, free, deep, shallow, outer, x);
      NodeAfter(family, n, active, free, deep, shallow, outer, kids, t, active', free', deep', shallow', outer', s, x);
    }
    forall p, x | HasTree(family, p) && 0 <= p < 2 * n && x in deep[p]
      ensures 0 <= Image(Roots(kids), t, p) < 2 * n && x in deep'[Image(Roots(kids), t, p)]
    {
      var s := PickTree(family, p);
      TreeFacts(family, n, active, free, deep, shallow, outer, s);
      NodeAfter(family, n, active, free, deep, shallow, outer, kids, t, active', free', deep', shallow', outer', s, x);
    }
    NoTree(family, t);
  }

  lemma NoTree(family: set<Tree>, t: int)
    requires t !in Covered(family)
    ensures !HasTree(family, t)
  {
    if HasTree(family, t) {
      var s :| s in family && s.id == t;
      IdInTree(s);
      InCovered(family, s);
    }
  }

  // Steps up and mates afterwards -------------------------------------------------------------------------

  lemma LeadsAfter(family: set<Tree>, kids: seq<Tree>, t: int, n: nat, deep: seq<seq<int>>, outer: seq<int>,
                   deep': seq<seq<int>>, outer': seq<int>,
                   link: seq<int>, link': seq<int>, p: int, q: int)
    requires Contracted(family, kids, t, n, deep, outer, deep', outer') && Leads(p, q, n, outer, link)
    requires 0 <= Image(Roots(kids), t, p) < |link'| && link'[Image(Roots(kids), t, p)] == link[p]
    ensures Leads(Image(Roots(kids), t, p), Image(Roots(kids), t, q), n, outer', link')
  {
    hide Image, Roots, HasTree;
  }

  lemma JoinedAfter(family: set<Tree>, kids: seq<Tree>, t: int, n: nat, deep: seq<seq<int>>, outer: seq<int>,
                    deep': seq<seq<int>>, outer': seq<int>,
                    slack: seq<real>, p: int, q: int)
    requires Contracted(family, kids, t, n, deep, outer, deep', outer') && Joined(deep, slack, n, p, q)
    requires HasTree(family, p) && HasTree(family, q)
    ensures Joined(deep', slack, n, Image(Roots(kids), t, p), Image(Roots(kids), t, q))
  {
    hide Image, Roots, HasTree, Tight;
    var x, y :| x in deep[p] && y in deep[q] && Tight(slack, n, x, y);
    var i, j := Image(Roots(kids), t, p), Image(Roots(kids), t, q);
    assert x in deep'[i] && y in deep'[j];
  }

  lemma ContractedFacts(family: set<Tree>, kids: seq<Tree>, t: int, n: nat, deep: seq<seq<int>>, outer: seq<int>,
                        deep': seq<seq<int>>, outer': seq<int>)
    requires Contracted(family, kids, t, n, deep, outer, deep', outer')
    ensures |outer| == 2 * n && |outer'| == 2 * n && |deep| == 2 * n && |deep'| == 2 * n && 0 <= t < 2 * n
    ensures !HasTree(family, t)
  {
  }

  // A climb that meets the circuit ------------------------------------------------------------------------

  /** The path enters the circuit at i, leaves it from the tip at k, and is outside before and after. */
  ghost predicate Crosses(path: seq<int>, c: seq<int>, tip: int, i: int, k: int) {
    && 0 <= i <= k < |path| && i % 2 == 0 && k % 2 == 0 && path[i] in c && path[k] == tip && tip in c
    && (forall m :: 0 <= m < i ==> path[m] !in c) && (forall m :: k < m < |path| ==> path[m] !in c)
  }

  /** The path with everything from i to k drawn together in t. */
  ghost function Short(path: seq<int>, c: seq<int>, t: int, i: int, k: int): (s: seq<int>)
    requires 0 <= i <= k < |path|
    ensures |s| == |path| - (k - i) && forall m :: 0 <= m < |s| ==> s[m] == Image(c, t, path[Place(i, k, m)])
  {
    seq(|path| - (k - i), m requires 0 <= m < |path| - (k - i) => Image(c, t, path[Place(i, k, m)]))
  }

  /** The place before the shortening; at i itself, where the tip was. */
  function Place(i: int, k: int, m: int): int {
    if m < i then m else m + (k - i)
  }

  lemma PlaceFacts(path: seq<int>, c: seq<int>, tip: int, i: int, k: int, m: int)
    requires Crosses(path, c, tip, i, k) && 0 <= m < |path| - (k - i)
    ensures 0 <= Place(i, k, m) < |path| && Place(i, k, m) % 2 == m % 2
    ensures path[Place(i, k, m)] in c <==> m == i
    ensures m == i ==> path[Place(i, k, m)] == tip
  {
  }

  /** The next place: from before i into the circuit, from the tip out of it. */
  lemma PlaceNext(path: seq<int>, c: seq<int>, tip: int, t: int, i: int, k: int, m: int)
    requires Crosses(path, c, tip, i, k) && 0 <= m && m + 1 < |path| - (k - i)
    ensures 0 <= Place(i, k, m) && Place(i, k, m) + 1 < |path|
    ensures Image(c, t, path[Place(i, k, m + 1)]) == Image(c, t, path[Place(i, k, m) + 1])
  {
  }

  lemma ShortHead(path: seq<int>, c: seq<int>, tip: int, t: int, i: int, k: int)
    requires Crosses(path, c, tip, i, k)
    ensures |Short(path, c, t, i, k)| >= 1
    ensures Short(path, c, t, i, k)[0] == Image(c, t, path[0])
    ensures Short(path, c, t, i, k)[|Short(path, c, t, i, k)| - 1] == Image(c, t, path[|path| - 1])
  {
    PlaceFacts(path, c, tip, i, k, 0);
  }

  ghost predicate AllTrees(family: set<Tree>, path: seq<int>) {
    forall m :: 0 <= m < |path| ==> HasTree(family, path[m])
  }

  /** What the arrays of the forest look like afterwards. */
  ghost predicate Moves(c: seq<int>, tip: int, t: int, n: nat, link: seq<int>, link': seq<int>) {
    |link| == 2 * n && |link'| == 2 * n && 0 <= tip < 2 * n && 0 <= t < 2 * n && tip in c &&
      link' == link[t := link[tip]]
  }

  lemma MovesAt(c: seq<int>, tip: int, t: int, n: nat, link: seq<int>, link': seq<int>, p: int)
    requires Moves(c, tip, t, n, link, link') && 0 <= p < 2 * n && (p !in c || p == tip) && p != t
    ensures 0 <= Image(c, t, p) < 2 * n && link'[Image(c, t, p)] == link[p]
  {
  }

  lemma NotNew(family: set<Tree>, path: seq<int>, t: int, m: int)
    requires AllTrees(family, path) && !HasTree(family, t) && 0 <= m < |path|
    ensures path[m] != t && HasTree(family, path[m])
  {
  }

  lemma ShortStep(family: set<Tree>, kids: seq<Tree>, t: int, tip: int, n: nat, deep: seq<seq<int>>, outer: seq<int>,
                  deep': seq<seq<int>>, outer': seq<int>,
                  forest: seq<int>, forest': seq<int>, path: seq<int>, i: int, k: int, m: int)
    requires Contracted(family, kids, t, n, deep, outer, deep', outer') && RootPath(path, n, outer, forest)
    requires AllTrees(family, path)
    requires Crosses(path, Roots(kids), tip, i, k) && Moves(Roots(kids), tip, t, n, forest, forest') && 0 <= m
    requires m + 1 < |path| - (k - i)
    ensures Leads(Short(path, Roots(kids), t, i, k)[m], Short(path, Roots(kids), t, i, k)[m + 1], n, outer', forest')
  {
    hide *;
    var c := Roots(kids);
    PlaceFacts(path, c, tip, i, k, m);
    PlaceNext(path, c, tip, t, i, k, m);
    var p := Place(i, k, m);
    PathNext(path, n, outer, forest, p);
    MakeLeads(path[p], path[p + 1], n, outer, forest);
    ContractedFacts(family, kids, t, n, deep, outer, deep', outer');
    NotNew(family, path, t, p);
    MovesAt(c, tip, t, n, forest, forest', path[p]);
    CrossBounds(path, c, tip, i, k);
    MoveSizes(c, tip, t, n, forest, forest');
    LeadsAfter(family, kids, t, n, deep, outer, deep', outer', forest, forest', path[p], path[p + 1]);
  }

  lemma MakeLeads(p: int, q: int, n: nat, outer: seq<int>, link: seq<int>)
    requires 0 <= p < |link| && 0 <= link[p] < n <= |outer| && outer[link[p]] == q
    ensures Leads(p, q, n, outer, link)
  {
  }

  lemma CrossBounds(path: seq<int>, c: seq<int>, tip: int, i: int, k: int)
    requires Crosses(path, c, tip, i, k)
    ensures 0 <= i <= k < |path|
  {
  }

  lemma MoveSizes(c: seq<int>, tip: int, t: int, n: nat, link: seq<int>, link': seq<int>)
    requires Moves(c, tip, t, n, link, link')
    ensures |link| == 2 * n && |link'| == 2 * n && 0 <= tip < 2 * n && 0 <= t < 2 * n && tip in c
    ensures link'[t] == link[tip]
  {
  }

  lemma ShortAt(path: seq<int>, c: seq<int>, tip: int, t: int, i: int, k: int, m: int)
    requires Crosses(path, c, tip, i, k) && 0 <= m < |path| - (k - i)
    ensures |Short(path, c, t, i, k)| == |path| - (k - i)
    ensures Short(path, c, t, i, k)[m] == Image(c, t, path[Place(i, k, m)])
    ensures m == i ==> Short(path, c, t, i, k)[m] == t
    ensures m != i ==> Short(path, c, t, i, k)[m] == path[Place(i, k, m)]
  {
    PlaceFacts(path, c, tip, i, k, m);
  }

  lemma ShortDistinct(family: set<Tree>, path: seq<int>, c: seq<int>, tip: int, t: int, i: int, k: int)
    requires Crosses(path, c, tip, i, k) && Distinct(path) && AllTrees(family, path) && !HasTree(family, t)
    ensures Distinct(Short(path, c, t, i, k))
  {
    var s := Short(path, c, t, i, k);
    hide Crosses, HasTree, AllTrees, Short;
    CrossBounds(path, c, tip, i, k);
    ShortHead(path, c, tip, t, i, k);
    ShortAt(path, c, tip, t, i, k, 0);
    forall m, l | 0 <= m < l < |s|
      ensures s[m] != s[l]
    {
      ShortAt(path, c, tip, t, i, k, m);
      ShortAt(path, c, tip, t, i, k, l);
      PlaceFacts(path, c, tip, i, k, m);
      PlaceFacts(path, c, tip, i, k, l);
      NotNew(family, path, t, Place(i, k, m));
      NotNew(family, path, t, Place(i, k, l));
      assert Place(i, k, m) < Place(i, k, l);
    }
  }

  /** What the change of one array makes of the nodes of the shortened path. */
  lemma ShortMoves(family: set<Tree>, path: seq<int>, c: seq<int>, tip: int, t: int, n: nat, i: int, k: int,
                   link: seq<int>, link': seq<int>, m: int)
    requires Crosses(path, c, tip, i, k) && AllTrees(family, path) && !HasTree(family, t)
    requires Moves(c, tip, t, n, link, link')
    requires 0 <= m < |path| - (k - i) && forall j :: 0 <= j < |path| ==> 0 <= path[j] < 2 * n
    ensures 0 <= Place(i, k, m) < |path| && |link| == 2 * n && |link'| == 2 * n && m < |Short(path, c, t, i, k)|
    ensures 0 <= Short(path, c, t, i, k)[m] < 2 * n && link'[Short(path, c, t, i, k)[m]] == link[path[Place(i, k, m)]]
  {
    PlaceFacts(path, c, tip, i, k, m);
    ShortAt(path, c, tip, t, i, k, m);
    hide Crosses, AllTrees, HasTree, Short, Image;
    MoveSizes(c, tip, t, n, link, link');
    NotNew(family, path, t, Place(i, k, m));
    MovesAt(c, tip, t, n, link, link', path[Place(i, k, m)]);
  }

  lemma ShortRootPath(family: set<Tree>, kids: seq<Tree>, t: int, tip: int, n: nat, deep: seq<seq<int>>,
                      outer: seq<int>, deep': seq<seq<int>>, outer': seq<int>,
                      forest: seq<int>, forest': seq<int>, path: seq<int>, i: int, k: int)
    requires Contracted(family, kids, t, n, deep, outer, deep', outer') && RootPath(path, n, outer, forest)
    requires AllTrees(family, path)
    requires Crosses(path, Roots(kids), tip, i, k) && Moves(Roots(kids), tip, t, n, forest, forest')
    ensures RootPath(Short(path, Roots(kids), t, i, k), n, outer', forest')
  {
    hide *;
    var c := Roots(kids);
    ContractedFacts(family, kids, t, n, deep, outer, deep', outer');
    PathBounds(path, n, outer, forest);
    PathNext(path, n, outer, forest, |path| - 1);
    PathIsDistinct(path, n, outer, forest);
    CrossBounds(path, c, tip, i, k);
    var s := Short(path, c, t, i, k);
    ShortHead(path, c, tip, t, i, k);
    ShortAt(path, c, tip, t, i, k, 0);
    ShortDistinct(family, path, c, tip, t, i, k);
    MoveSizes(c, tip, t, n, forest, forest');
    forall m | 0 <= m < |s|
      ensures 0 <= s[m] < 2 * n
    {
      ShortMoves(family, path, c, tip, t, n, i, k, forest, forest', m);
    }
    forall m | 0 <= m < |s| - 1
      ensures Leads(s[m], s[m + 1], n, outer', forest')
    {
      ShortStep(family, kids, t, tip, n, deep, outer, deep', outer', forest, forest', path, i, k, m);
    }
    LastPlace(path, c, tip, i, k);
    ShortMoves(family, path, c, tip, t, n, i, k, forest, forest', |s| - 1);
    MakeRootPath(s, n, outer', forest');
  }

  lemma PathIsDistinct(path: seq<int>, n: nat, outer: seq<int>, forest: seq<int>)
    requires RootPath(path, n, outer, forest)
    ensures Distinct(path) && path != []
  {
  }

  lemma LastPlace(path: seq<int>, c: seq<int>, tip: int, i: int, k: int)
    requires Crosses(path, c, tip, i, k)
    ensures Place(i, k, |path| - (k - i) - 1) == |path| - 1
  {
  }

  lemma MakeRootPath(s: seq<int>, n: nat, outer: seq<int>, forest: seq<int>)
    requires |outer| == 2 * n && |forest| == 2 * n && s != [] && Distinct(s)
    requires forall m :: 0 <= m < |s| ==> 0 <= s[m] < 2 * n
    requires forall m :: 0 <= m < |s| - 1 ==> Leads(s[m], s[m + 1], n, outer, forest)
    requires forest[s[|s| - 1]] == -1
    ensures RootPath(s, n, outer, forest)
  {
    hide Distinct;
    forall m | 0 <= m < |s| - 1
      ensures 0 <= forest[s[m]] < n && outer[forest[s[m]]] == s[m + 1]
    {
      LeadsFacts(s[m], s[m + 1], n, outer, forest);
    }
  }

  lemma ShortAlternates(family: set<Tree>, path: seq<int>, c: seq<int>, tip: int, t: int, n: nat, i: int, k: int,
                        kind: seq<int>, kind': seq<int>)
    requires Crosses(path, c, tip, i, k) && AllTrees(family, path) && !HasTree(family, t)
    requires Moves(c, tip, t, n, kind, kind')
    requires Alternates(path, n, kind)
    ensures Alternates(Short(path, c, t, i, k), n, kind')
  {
    var s := Short(path, c, t, i, k);
    hide Crosses, Moves, AllTrees, HasTree, Short, Place;
    CrossBounds(path, c, tip, i, k);
    ShortHead(path, c, tip, t, i, k);
    ShortAt(path, c, tip, t, i, k, 0);
    MoveSizes(c, tip, t, n, kind, kind');
    forall m | 0 <= m < |s|
      ensures 0 <= s[m] < 2 * n && kind'[s[m]] == if m % 2 == 0 then EVEN else ODD
    {
      ShortMoves(family, path, c, tip, t, n, i, k, kind, kind', m);
      PlaceFacts(path, c, tip, i, k, m);
      LabelAt(path, n, kind, Place(i, k, m));
    }
  }

  lemma ShortTight(family: set<Tree>, kids: seq<Tree>, t: int, tip: int, n: nat, deep: seq<seq<int>>, outer: seq<int>,
                   deep': seq<seq<int>>, outer': seq<int>,
                   slack: seq<real>, path: seq<int>, i: int, k: int)
    requires Contracted(family, kids, t, n, deep, outer, deep', outer') && AllTrees(family, path)
    requires PathTight(path, deep, slack, n)
    requires Crosses(path, Roots(kids), tip, i, k)
    ensures PathTight(Short(path, Roots(kids), t, i, k), deep', slack, n)
  {
    var c := Roots(kids);
    var s := Short(path, c, t, i, k);
    ContractedFacts(family, kids, t, n, deep, outer, deep', outer');
    hide Contracted, Crosses, AllTrees, HasTree, Short, Image, Place, Roots, Joined;
    CrossBounds(path, c, tip, i, k);
    ShortAt(path, c, tip, t, i, k, 0);
    forall m | 0 <= m < |s| - 1
      ensures Joined(deep', slack, n, s[m], s[m + 1])
    {
      ShortAt(path, c, tip, t, i, k, m);
      ShortAt(path, c, tip, t, i, k, m + 1);
      PlaceNext(path, c, tip, t, i, k, m);
      var p := Place(i, k, m);
      NotNew(family, path, t, p);
      NotNew(family, path, t, p + 1);
      assert Joined(deep, slack, n, path[p], path[p + 1]);
      JoinedAfter(family, kids, t, n, deep, outer, deep', outer', slack, path[p], path[p + 1]);
    }
  }

  lemma ShortCoupled(family: set<Tree>, kids: seq<Tree>, t: int, tip: int, n: nat, deep: seq<seq<int>>, outer: seq<int>,
                     deep': seq<seq<int>>, outer': seq<int>,
                     mate: seq<int>, mate': seq<int>, path: seq<int>, i: int, k: int)
    requires Contracted(family, kids, t, n, deep, outer, deep', outer') && AllTrees(family, path)
    requires Coupled(path, n, outer, mate)
    requires forall j :: 0 <= j < |path| ==> 0 <= path[j] < 2 * n
    requires Crosses(path, Roots(kids), tip, i, k) && Moves(Roots(kids), tip, t, n, mate, mate')
    ensures Coupled(Short(path, Roots(kids), t, i, k), n, outer', mate')
  {
    var c := Roots(kids);
    var s := Short(path, c, t, i, k);
    ContractedFacts(family, kids, t, n, deep, outer, deep', outer');
    MoveSizes(c, tip, t, n, mate, mate');
    hide Contracted, Crosses, AllTrees, HasTree, Short, Image, Place, Roots, Moves, Leads;
    CrossBounds(path, c, tip, i, k);
    ShortAt(path, c, tip, t, i, k, 0);
    forall m | 0 <= m < |s| - 1 && m % 2 == 0
      ensures Leads(s[m], s[m + 1], n, outer', mate')
    {
      ShortAt(path, c, tip, t, i, k, m);
      ShortAt(path, c, tip, t, i, k, m + 1);
      PlaceNext(path, c, tip, t, i, k, m);
      PlaceFacts(path, c, tip, i, k, m);
      var p := Place(i, k, m);
      ShortMoves(family, path, c, tip, t, n, i, k, mate, mate', m);
      assert Leads(path[p], path[p + 1], n, outer, mate);
      LeadsAfter(family, kids, t, n, deep, outer, deep', outer', mate, mate', path[p], path[p + 1]);
    }
  }

  /** The shortened path is the climb of the node that stands for its head. */
  lemma ShortClimb(family: set<Tree>, kids: seq<Tree>, t: int, tip: int, n: nat, deep: seq<seq<int>>, outer: seq<int>,
                   deep': seq<seq<int>>, outer': seq<int>,
                   forest: seq<int>, kind: seq<int>, root: seq<int>, mate: seq<int>, forest': seq<int>, kind': seq<int>,
                   root': seq<int>, mate': seq<int>,
                   slack: seq<real>, path: seq<int>, w: int, i: int, k: int)
    requires Contracted(family, kids, t, n, deep, outer, deep', outer') && AllTrees(family, path)
    requires Climbs(path, w, n, outer, forest, kind, root, mate, deep, slack) && Crosses(path, Roots(kids), tip, i, k)
    requires Moves(Roots(kids), tip, t, n, forest, forest') && Moves(Roots(kids), tip, t, n, kind, kind')
    requires Moves(Roots(kids), tip, t, n, root, root') && Moves(Roots(kids), tip, t, n, mate, mate')
    requires path != [] && |root| == 2 * n && 0 <= tip < 2 * n && 0 <= path[|path| - 1] < 2 * n
    requires i > 0 || root[tip] == root[path[|path| - 1]]
    ensures HasClimb(Image(Roots(kids), t, w), n, outer', forest', kind', root', mate', deep', slack)
  {
    hide *;
    var c := Roots(kids);
    CrossBounds(path, c, tip, i, k);
    var s := Short(path, c, t, i, k);
    ClimbParts(path, w, n, outer, forest, kind, root, mate, deep, slack);
    PathBounds(path, n, outer, forest);
    ContractedFacts(family, kids, t, n, deep, outer, deep', outer');
    ShortHead(path, c, tip, t, i, k);
    ShortAt(path, c, tip, t, i, k, 0);
    MoveSizes(c, tip, t, n, root, root');
    MoveSizes(c, tip, t, n, mate, mate');
    ShortRootPath(family, kids, t, tip, n, deep, outer, deep', outer', forest, forest', path, i, k);
    ShortAlternates(family, path, c, tip, t, n, i, k, kind, kind');
    ShortTight(family, kids, t, tip, n, deep, outer, deep', outer', slack, path, i, k);
    ShortCoupled(family, kids, t, tip, n, deep, outer, deep', outer', mate, mate', path, i, k);
    LastPlace(path, c, tip, i, k);
    ShortMoves(family, path, c, tip, t, n, i, k, mate, mate', |s| - 1);
    ShortMoves(family, path, c, tip, t, n, i, k, root, root', |s| - 1);
    ShortMoves(family, path, c, tip, t, n, i, k, root, root', 0);
    FirstPlace(path, c, tip, i, k);
    MakeClimb(s, Image(c, t, w), n, outer', forest', kind', root', mate', deep', slack);
  }

  lemma FirstPlace(path: seq<int>, c: seq<int>, tip: int, i: int, k: int)
    requires Crosses(path, c, tip, i, k)
    ensures i > 0 ==> Place(i, k, 0) == 0
    ensures i == 0 ==> path[Place(i, k, 0)] == tip
  {
  }

  // A climb that does not meet the circuit ----------------------------------------------------------------

  ghost predicate Clear(path: seq<int>, c: seq<int>) {
    forall m :: 0 <= m < |path| ==> path[m] !in c
  }

  lemma ClearAt(family: set<Tree>, path: seq<int>, c: seq<int>, tip: int, t: int, n: nat, link: seq<int>,
                link': seq<int>, m: int)
    requires Clear(path, c) && AllTrees(family, path) && !HasTree(family, t) && Moves(c, tip, t, n, link, link')
    requires 0 <= m < |path| && 0 <= path[m] < 2 * n
    ensures |link| == 2 * n && |link'| == 2 * n && Image(c, t, path[m]) == path[m] && link'[path[m]] == link[path[m]]
  {
    NotNew(family, path, t, m);
  }

  lemma ClearImage(path: seq<int>, c: seq<int>, t: int, m: int)
    requires Clear(path, c) && 0 <= m < |path|
    ensures Image(c, t, path[m]) == path[m]
  {
  }

  lemma ClearRootPath(family: set<Tree>, kids: seq<Tree>, t: int, tip: int, n: nat, deep: seq<seq<int>>,
                      outer: seq<int>, deep': seq<seq<int>>, outer': seq<int>,
                      forest: seq<int>, forest': seq<int>, path: seq<int>)
    requires Contracted(family, kids, t, n, deep, outer, deep', outer') && RootPath(path, n, outer, forest)
    requires AllTrees(family, path)
    requires Clear(path, Roots(kids)) && Moves(Roots(kids), tip, t, n, forest, forest')
    ensures RootPath(path, n, outer', forest')
  {
    var c := Roots(kids);
    ContractedFacts(family, kids, t, n, deep, outer, deep', outer');
    PathBounds(path, n, outer, forest);
    PathNext(path, n, outer, forest, |path| - 1);
    PathIsDistinct(path, n, outer, forest);
    MoveSizes(c, tip, t, n, forest, forest');
    hide RootPath, Contracted, Clear, Moves, AllTrees, HasTree, Image, Roots;
    forall m | 0 <= m < |path| - 1
      ensures Leads(path[m], path[m + 1], n, outer', forest')
    {
      PathNext(path, n, outer, forest, m);
      MakeLeads(path[m], path[m + 1], n, outer, forest);
      ClearAt(family, path, c, tip, t, n, forest, forest', m);
      ClearImage(path, c, t, m + 1);
      LeadsAfter(family, kids, t, n, deep, outer, deep', outer', forest, forest', path[m], path[m + 1]);
    }
    ClearAt(family, path, c, tip, t, n, forest, forest', |path| - 1);
    MakeRootPath(path, n, outer', forest');
  }

  lemma ClearAlternates(family: set<Tree>, path: seq<int>, c: seq<int>, tip: int, t: int, n: nat, kind: seq<int>,
                        kind': seq<int>)
    requires Clear(path, c) && AllTrees(family, path) && !HasTree(family, t) && Moves(c, tip, t, n, kind, kind')
    requires Alternates(path, n, kind)
    ensures Alternates(path, n, kind')
  {
    MoveSizes(c, tip, t, n, kind, kind');
    hide Clear, AllTrees, HasTree, Moves;
    forall m | 0 <= m < |path|
      ensures 0 <= path[m] < 2 * n && kind'[path[m]] == if m % 2 == 0 then EVEN else ODD
    {
      LabelAt(path, n, kind, m);
      ClearAt(family, path, c, tip, t, n, kind, kind', m);
    }
  }

  lemma ClearTight(family: set<Tree>, kids: seq<Tree>, t: int, n: nat, deep: seq<seq<int>>, outer: seq<int>,
                   deep': seq<seq<int>>, outer': seq<int>,
                   slack: seq<real>, path: seq<int>)
    requires Contracted(family, kids, t, n, deep, outer, deep', outer') && AllTrees(family, path)
    requires PathTight(path, deep, slack, n)
    requires Clear(path, Roots(kids))
    ensures PathTight(path, deep', slack, n)
  {
    hide Contracted, Clear, AllTrees, HasTree, Image, Roots, Joined;
    var c := Roots(kids);
    ContractedFacts(family, kids, t, n, deep, outer, deep', outer');
    forall m | 0 <= m < |path| - 1
      ensures Joined(deep', slack, n, path[m], path[m + 1])
    {
      ClearImage(path, c, t, m);
      ClearImage(path, c, t, m + 1);
      NotNew(family, path, t, m);
      NotNew(family, path, t, m + 1);
      assert Joined(deep, slack, n, path[m], path[m + 1]);
      JoinedAfter(family, kids, t, n, deep, outer, deep', outer', slack, path[m], path[m + 1]);
    }
  }

  lemma ClearCoupled(family: set<Tree>, kids: seq<Tree>, t: int, tip: int, n: nat, deep: seq<seq<int>>, outer: seq<int>,
                     deep': seq<seq<int>>, outer': seq<int>,
                     mate: seq<int>, mate': seq<int>, path: seq<int>)
    requires Contracted(family, kids, t, n, deep, outer, deep', outer') && AllTrees(family, path)
    requires Coupled(path, n, outer, mate)
    requires forall j :: 0 <= j < |path| ==> 0 <= path[j] < 2 * n
    requires Clear(path, Roots(kids)) && Moves(Roots(kids), tip, t, n, mate, mate')
    ensures Coupled(path, n, outer', mate')
  {
    hide Contracted, Clear, AllTrees, HasTree, Image, Roots, Moves, Leads;
    var c := Roots(kids);
    ContractedFacts(family, kids, t, n, deep, outer, deep', outer');
    MoveSizes(c, tip, t, n, mate, mate');
    forall m | 0 <= m < |path| - 1 && m % 2 == 0
      ensures Leads(path[m], path[m + 1], n, outer', mate')
    {
      ClearAt(family, path, c, tip, t, n, mate, mate', m);
      ClearImage(path, c, t, m + 1);
      assert Leads(path[m], path[m + 1], n, outer, mate);
      LeadsAfter(family, kids, t, n, deep, outer, deep', outer', mate, mate', path[m], path[m + 1]);
    }
  }

  lemma ClearClimb(family: set<Tree>, kids: seq<Tree>, t: int, tip: int, n: nat, deep: seq<seq<int>>, outer: seq<int>,
                   deep': seq<seq<int>>, outer': seq<int>,
                   forest: seq<int>, kind: seq<int>, root: seq<int>, mate: seq<int>, forest': seq<int>, kind': seq<int>,
                   root': seq<int>, mate': seq<int>,
                   slack: seq<real>, path: seq<int>, w: int)
    requires Contracted(family, kids, t, n, deep, outer, deep', outer') && AllTrees(family, path)
    requires Climbs(path, w, n, outer, forest, kind, root, mate, deep, slack) && Clear(path, Roots(kids))
    requires Moves(Roots(kids), tip, t, n, forest, forest') && Moves(Roots(kids), tip, t, n, kind, kind')
    requires Moves(Roots(kids), tip, t, n, root, root') && Moves(Roots(kids), tip, t, n, mate, mate')
    ensures HasClimb(w, n, outer', forest', kind', root', mate', deep', slack)
  {
    hide *;
    var c := Roots(kids);
    ClimbParts(path, w, n, outer, forest, kind, root, mate, deep, slack);
    PathBounds(path, n, outer, forest);
    ContractedFacts(family, kids, t, n, deep, outer, deep', outer');
    ClearRootPath(family, kids, t, tip, n, deep, outer, deep', outer', forest, forest', path);
    ClearAlternates(family, path, c, tip, t, n, kind, kind');
    ClearTight(family, kids, t, n, deep, outer, deep', outer', slack, path);
    ClearCoupled(family, kids, t, tip, n, deep, outer, deep', outer', mate, mate', path);
    ClearAt(family, path, c, tip, t, n, root, root', 0);
    ClearAt(family, path, c, tip, t, n, root, root', |path| - 1);
    ClearAt(family, path, c, tip, t, n, mate, mate', |path| - 1);
    MakeClimb(path, w, n, outer', forest', kind', root', mate', deep', slack);
  }

  // Where a climb meets the circuit -----------------------------------------------------------------------

  /** The nodes above the tip are not on the circuit. */
  lemma AboveTip(up: seq<int>, a: int, vp: seq<int>, b: int, j: int)
    requires Meets(up, a, vp, b) && Distinct(up) && a < j < |up|
    ensures up[j] !in Circuit(up, a, vp, b)
  {
    var c := Circuit(up, a, vp, b);
    forall i | 0 <= i < |c|
      ensures c[i] != up[j]
    {
      CircuitAt(up, a, vp, b, i);
      if i > a {
        MeetsBefore(up, a, vp, b, i - a - 1, j);
      }
    }
  }

  /** A node of the circuit lies on one of the two paths, not above the tip. */
  lemma OnCircuit(up: seq<int>, a: int, vp: seq<int>, b: int, x: int) returns (onUp: bool, j: int)
    requires 0 <= a < |up| && 0 <= b < |vp| && x in Circuit(up, a, vp, b)
    ensures onUp ==> 0 <= j <= a && up[j] == x
    ensures !onUp ==> 0 <= j < b && vp[j] == x
  {
    var c := Circuit(up, a, vp, b);
    var i :| 0 <= i < |c| && c[i] == x;
    CircuitAt(up, a, vp, b, 0);
    CircuitAt(up, a, vp, b, i);
    if i <= a {
      onUp, j := true, a - i;
    } else {
      onUp, j := false, i - a - 1;
    }
  }

  lemma UpOnCircuit(up: seq<int>, a: int, vp: seq<int>, b: int, j: int)
    requires 0 <= a < |up| && 0 <= b < |vp| && 0 <= j <= a
    ensures up[j] in Circuit(up, a, vp, b)
  {
    CircuitAt(up, a, vp, b, a - j);
  }

  lemma DownOnCircuit(up: seq<int>, a: int, vp: seq<int>, b: int, j: int)
    requires 0 <= a < |up| && 0 <= b < |vp| && 0 <= j < b
    ensures vp[j] in Circuit(up, a, vp, b)
  {
    CircuitAt(up, a, vp, b, a + 1 + j);
  }

  lemma FirstIn(path: seq<int>, c: seq<int>) returns (i: int)
    requires !Clear(path, c)
    ensures 0 <= i < |path| && path[i] in c && forall m :: 0 <= m < i ==> path[m] !in c
  {
    i := 0;
    while path[i] !in c
      invariant 0 <= i < |path| && forall m :: 0 <= m < i ==> path[m] !in c
      decreases |path| - i
    {
      if i + 1 == |path| {
        assert Clear(path, c);
      }
      i := i + 1;
    }
  }

  /** From its first node on the circuit the climb passes the tip and stays outside above it. */
  lemma LeavesAtTip(n: nat, outer: seq<int>, forest: seq<int>, path: seq<int>, up: seq<int>, a: int, vp: seq<int>,
                    b: int, i: int) returns (k: int)
    requires RootPath(path, n, outer, forest) && RootPath(up, n, outer, forest) && RootPath(vp, n, outer, forest)
    requires Meets(up, a, vp, b)
    requires 0 <= a < |up| && 0 <= b < |vp| && 0 <= i < |path| && path[i] in Circuit(up, a, vp, b)
    ensures i <= k < |path| && path[k] == up[a] && forall m :: k < m < |path| ==> path[m] !in Circuit(up, a, vp, b)
  {
    hide *;
    MeetBounds(up, a, vp, b);
    PathIsDistinct(up, n, outer, forest);
    var onUp, j := OnCircuit(up, a, vp, b, path[i]);
    if onUp {
      SameClimb(path, up, n, outer, forest, i, j, 0);
      SameClimb(path, up, n, outer, forest, i, j, a - j);
      k := i + (a - j);
    } else {
      SameClimb(path, vp, n, outer, forest, i, j, 0);
      SameClimb(path, vp, n, outer, forest, i, j, b - j);
      k := i + (b - j);
    }
    forall m | k < m < |path|
      ensures path[m] !in Circuit(up, a, vp, b)
    {
      SameClimb(path, up, n, outer, forest, k, a, m - k);
      AboveTip(up, a, vp, b, a + (m - k));
    }
  }

  /** It enters the circuit at an even node: an odd one is entered only from its mate, which is on the circuit. */
  lemma EntersEven(family: set<Tree>, n: nat, active: seq<bool>, free: seq<int>, deep: seq<seq<int>>,
                   shallow: seq<seq<int>>, outer: seq<int>,
                   forest: seq<int>, kind: seq<int>, mate: seq<int>, slack: seq<real>, path: seq<int>, up: seq<int>,
                   a: int, vp: seq<int>, b: int, i: int)
    requires Whole(family, {}, n, active, free, deep, shallow, outer) && PartlyMatched(family, mate, slack, n)
    requires RootPath(path, n, outer, forest) && Alternates(path, n, kind) && Coupled(path, n, outer, mate)
    requires AllTrees(family, path)
    requires RootPath(up, n, outer, forest) && Alternates(up, n, kind) && Coupled(up, n, outer, mate)
    requires AllTrees(family, up)
    requires RootPath(vp, n, outer, forest) && Alternates(vp, n, kind) && Coupled(vp, n, outer, mate)
    requires AllTrees(family, vp)
    requires 0 <= a < |up| && 0 <= b < |vp| && a % 2 == 0 && b % 2 == 0
    requires 0 <= i < |path| && path[i] in Circuit(up, a, vp, b)
    requires forall m :: 0 <= m < i ==> path[m] !in Circuit(up, a, vp, b)
    ensures i % 2 == 0
  {
    hide *;
    SortsDiffer();
    if i % 2 == 1 {
      LabelAt(path, n, kind, i);
      CoupledAt(path, n, outer, mate, i - 1);
      TreeOn(family, path, i - 1);
      var onUp, j := OnCircuit(up, a, vp, b, path[i]);
      if onUp {
        LabelAt(up, n, kind, j);
        CoupledAt(up, n, outer, mate, j - 1);
        TreeOn(family, up, j - 1);
        UniqueMate(family, n, active, free, deep, shallow, outer, mate, slack, path[i - 1], up[j - 1], path[i]);
        UpOnCircuit(up, a, vp, b, j - 1);
      } else {
        LabelAt(vp, n, kind, j);
        CoupledAt(vp, n, outer, mate, j - 1);
        TreeOn(family, vp, j - 1);
        UniqueMate(family, n, active, free, deep, shallow, outer, mate, slack, path[i - 1], vp[j - 1], path[i]);
        DownOnCircuit(up, a, vp, b, j - 1);
      }
    }
  }

  lemma TreeOn(family: set<Tree>, path: seq<int>, m: int)
    requires AllTrees(family, path) && 0 <= m < |path|
    ensures HasTree(family, path[m])
  {
  }

  lemma MakeCrosses(path: seq<int>, c: seq<int>, tip: int, i: int, k: int)
    requires 0 <= i <= k < |path| && i % 2 == 0 && k % 2 == 0 && path[i] in c && path[k] == tip && tip in c
    requires (forall m :: 0 <= m < i ==> path[m] !in c) && forall m :: k < m < |path| ==> path[m] !in c
    ensures Crosses(path, c, tip, i, k)
  {
  }

  /** So it crosses the circuit. */
  lemma MeetsCircuit(family: set<Tree>, n: nat, active: seq<bool>, free: seq<int>, deep: seq<seq<int>>,
                     shallow: seq<seq<int>>, outer: seq<int>,
                     forest: seq<int>, kind: seq<int>, mate: seq<int>, slack: seq<real>, path: seq<int>, up: seq<int>,
                     a: int, vp: seq<int>, b: int)
    returns (i: int, k: int)
    requires Whole(family, {}, n, active, free, deep, shallow, outer) && PartlyMatched(family, mate, slack, n)
    requires RootPath(path, n, outer, forest) && Alternates(path, n, kind) && Coupled(path, n, outer, mate)
    requires AllTrees(family, path)
    requires RootPath(up, n, outer, forest) && Alternates(up, n, kind) && Coupled(up, n, outer, mate)
    requires AllTrees(family, up)
    requires RootPath(vp, n, outer, forest) && Alternates(vp, n, kind) && Coupled(vp, n, outer, mate)
    requires AllTrees(family, vp)
    requires 0 <= a < |up| && 0 <= b < |vp| && a % 2 == 0 && b % 2 == 0 && Meets(up, a, vp, b)
    requires !Clear(path, Circuit(up, a, vp, b))
    ensures Crosses(path, Circuit(up, a, vp, b), up[a], i, k)
    ensures path != [] && path[0] !in Circuit(up, a, vp, b) ==> i > 0
  {
    hide *;
    SortsDiffer();
    i := FirstIn(path, Circuit(up, a, vp, b));
    k := LeavesAtTip(n, outer, forest, path, up, a, vp, b, i);
    EntersEven(family, n, active, free, deep, shallow, outer, forest, kind, mate, slack, path, up, a, vp, b, i);
    LabelAt(path, n, kind, k);
    LabelAt(up, n, kind, a);
    UpOnCircuit(up, a, vp, b, a);
    MakeCrosses(path, Circuit(up, a, vp, b), up[a], i, k);
  }

  // All together ------------------------------------------------------------------------------------------

  /** The two climbs that close the circuit, and the arrays they live in. */
  ghost predicate Closing(family: set<Tree>, n: nat, outer: seq<int>, forest: seq<int>, kind: seq<int>, mate: seq<int>,
                          up: seq<int>, a: int, vp: seq<int>, b: int)
  {
    && RootPath(up, n, outer, forest) && Alternates(up, n, kind) && Coupled(up, n, outer, mate) && AllTrees(family, up)
    && RootPath(vp, n, outer, forest) && Alternates(vp, n, kind) && Coupled(vp, n, outer, mate) && AllTrees(family, vp)
    && 0 <= a < |up| && 0 <= b < |vp| && a % 2 == 0 && b % 2 == 0 && Meets(up, a, vp, b)
  }

  lemma ClosingParts(family: set<Tree>, n: nat, outer: seq<int>, forest: seq<int>, kind: seq<int>, mate: seq<int>,
                     up: seq<int>, a: int, vp: seq<int>, b: int)
    requires Closing(family, n, outer, forest, kind, mate, up, a, vp, b)
    ensures RootPath(up, n, outer, forest) && Alternates(up, n, kind) && Coupled(up, n, outer, mate)
    ensures AllTrees(family, up)
    ensures RootPath(vp, n, outer, forest) && Alternates(vp, n, kind) && Coupled(vp, n, outer, mate)
    ensures AllTrees(family, vp)
    ensures 0 <= a < |up| && 0 <= b < |vp| && a % 2 == 0 && b % 2 == 0 && Meets(up, a, vp, b)
  {
  }

  lemma ClimbTrees(family: set<Tree>, n: nat, active: seq<bool>, free: seq<int>, deep: seq<seq<int>>,
                   shallow: seq<seq<int>>, outer: seq<int>,
                   forest: seq<int>, path: seq<int>)
    requires Whole(family, {}, n, active, free, deep, shallow, outer) && RootPath(path, n, outer, forest)
    requires HasTree(family, path[0])
    ensures AllTrees(family, path)
  {
    hide Whole, HasTree, RootPath;
    forall i | 0 <= i < |path|
      ensures HasTree(family, path[i])
    {
      ClimbTree(family, n, active, free, deep, shallow, outer, forest, path, i);
    }
  }

  /** The climb of an old even node outside the circuit. */
  lemma OldClimb(family: set<Tree>, n: nat, active: seq<bool>, free: seq<int>, deep: seq<seq<int>>,
                 shallow: seq<seq<int>>, outer: seq<int>,
                 forest: seq<int>, kind: seq<int>, root: seq<int>, mate: seq<int>, slack: seq<real>,
                 up: seq<int>, a: int, vp: seq<int>, b: int, kids: seq<Tree>, t: int, deep': seq<seq<int>>,
                 outer': seq<int>,
                 forest': seq<int>, kind': seq<int>, root': seq<int>, mate': seq<int>, s: Tree)
    requires Whole(family, {}, n, active, free, deep, shallow, outer) && PartlyMatched(family, mate, slack, n)
    requires Closing(family, n, outer, forest, kind, mate, up, a, vp, b) && 0 <= a < |up| && 0 <= b < |vp|
    requires Roots(kids) == Circuit(up, a, vp, b) && Contracted(family, kids, t, n, deep, outer, deep', outer')
    requires Moves(Roots(kids), up[a], t, n, forest, forest') && Moves(Roots(kids), up[a], t, n, kind, kind')
    requires Moves(Roots(kids), up[a], t, n, root, root') && Moves(Roots(kids), up[a], t, n, mate, mate')
    requires s in family && s.id !in Roots(kids) && HasClimb(s.id, n, outer, forest, kind, root, mate, deep, slack)
    ensures HasClimb(s.id, n, outer', forest', kind', root', mate', deep', slack)
  {
    hide *;
    var c := Roots(kids);
    ClosingParts(family, n, outer, forest, kind, mate, up, a, vp, b);
    var path := PickClimb(s.id, n, outer, forest, kind, root, mate, deep, slack);
    ClimbParts(path, s.id, n, outer, forest, kind, root, mate, deep, slack);
    HasTreeBy(family, s);
    ClimbTrees(family, n, active, free, deep, shallow, outer, forest, path);
    if Clear(path, c) {
      ClearClimb(family, kids, t, up[a], n, deep, outer, deep', outer', forest, kind, root, mate, forest', kind', root',
        mate', slack, path, s.id);
    } else {
      var i, k := MeetsCircuit(family, n, active, free, deep, shallow, outer, forest, kind, mate, slack, path, up, a,
        vp, b);
      MoveSizes(c, up[a], t, n, root, root');
      ShortClimb(family, kids, t, up[a], n, deep, outer, deep', outer', forest, kind, root, mate, forest', kind', root',
        mate', slack, path, s.id, i, k);
      ImageOutside(c, t, s.id);
    }
  }

  lemma ImageOutside(c: seq<int>, t: int, p: int)
    ensures p !in c ==> Image(c, t, p) == p
    ensures p in c ==> Image(c, t, p) == t
  {
  }

  /** All nodes of a climb share the root number of its end, the even ones at least. */
  lemma TipRoot(n: nat, outer: seq<int>, forest: seq<int>, kind: seq<int>, root: seq<int>, mate: seq<int>,
                deep: seq<seq<int>>, slack: seq<real>,
                up: seq<int>, a: int)
    requires RootPath(up, n, outer, forest) && 0 <= a < |up|
    requires HasClimb(up[a], n, outer, forest, kind, root, mate, deep, slack)
    ensures |root| == 2 * n && 0 <= up[a] < 2 * n && 0 <= up[|up| - 1] < 2 * n && root[up[a]] == root[up[|up| - 1]]
  {
    hide *;
    var path := PickClimb(up[a], n, outer, forest, kind, root, mate, deep, slack);
    ClimbParts(path, up[a], n, outer, forest, kind, root, mate, deep, slack);
    SameClimb(path, up, n, outer, forest, 0, a, |path| - 1);
    PathBounds(up, n, outer, forest);
  }

  /** The climb of the new node. */
  lemma CrownClimb(family: set<Tree>, n: nat, active: seq<bool>, free: seq<int>, deep: seq<seq<int>>,
                   shallow: seq<seq<int>>, outer: seq<int>,
                   forest: seq<int>, kind: seq<int>, root: seq<int>, mate: seq<int>, slack: seq<real>, u: int,
                   up: seq<int>, a: int, vp: seq<int>, b: int, kids: seq<Tree>, t: int, deep': seq<seq<int>>,
                   outer': seq<int>,
                   forest': seq<int>, kind': seq<int>, root': seq<int>, mate': seq<int>)
    requires Climbs(up, u, n, outer, forest, kind, root, mate, deep, slack)
    requires Closing(family, n, outer, forest, kind, mate, up, a, vp, b) && 0 <= a < |up| && 0 <= b < |vp|
    requires HasClimb(up[a], n, outer, forest, kind, root, mate, deep, slack)
    requires Roots(kids) == Circuit(up, a, vp, b) && Contracted(family, kids, t, n, deep, outer, deep', outer')
    requires Moves(Roots(kids), up[a], t, n, forest, forest') && Moves(Roots(kids), up[a], t, n, kind, kind')
    requires Moves(Roots(kids), up[a], t, n, root, root') && Moves(Roots(kids), up[a], t, n, mate, mate')
    ensures HasClimb(t, n, outer', forest', kind', root', mate', deep', slack)
  {
    hide *;
    var c := Roots(kids);
    ClosingParts(family, n, outer, forest, kind, mate, up, a, vp, b);
    ClimbParts(up, u, n, outer, forest, kind, root, mate, deep, slack);
    UpOnCircuit(up, a, vp, b, 0);
    UpOnCircuit(up, a, vp, b, a);
    TipRoot(n, outer, forest, kind, root, mate, deep, slack, up, a);
    forall m | a < m < |up|
      ensures up[m] !in c
    {
      PathIsDistinct(up, n, outer, forest);
      AboveTip(up, a, vp, b, m);
    }
    MakeCrosses(up, c, up[a], 0, a);
    ShortClimb(family, kids, t, up[a], n, deep, outer, deep', outer', forest, kind, root, mate, forest', kind', root',
      mate', slack, up, u, 0, a);
    ImageOutside(c, t, u);
  }

  lemma EvensAfter(family: set<Tree>, n: nat, active: seq<bool>, free: seq<int>, deep: seq<seq<int>>,
                   shallow: seq<seq<int>>, outer: seq<int>,
                   forest: seq<int>, kind: seq<int>, root: seq<int>, mate: seq<int>, slack: seq<real>, u: int,
                   up: seq<int>, a: int, vp: seq<int>, b: int, kids: seq<Tree>, t: int, deep': seq<seq<int>>,
                   outer': seq<int>,
                   forest': seq<int>, kind': seq<int>, root': seq<int>, mate': seq<int>)
    requires Whole(family, {}, n, active, free, deep, shallow, outer) && PartlyMatched(family, mate, slack, n)
    requires Picked(family, kids)
    requires EvensClimb(family, n, outer, forest, kind, root, mate, deep, slack)
    requires Climbs(up, u, n, outer, forest, kind, root, mate, deep, slack)
    requires Closing(family, n, outer, forest, kind, mate, up, a, vp, b) && 0 <= a < |up| && 0 <= b < |vp|
    requires Roots(kids) == Circuit(up, a, vp, b) && Contracted(family, kids, t, n, deep, outer, deep', outer')
    requires Moves(Roots(kids), up[a], t, n, forest, forest') && Moves(Roots(kids), up[a], t, n, kind, kind')
    requires Moves(Roots(kids), up[a], t, n, root, root') && Moves(Roots(kids), up[a], t, n, mate, mate')
    ensures EvensClimb(family - Members(kids) + {Tree(t, kids)}, n, outer', forest', kind', root', mate', deep', slack)
  {
    hide Whole, PartlyMatched, Picked, HasClimb, Climbs, Closing, Roots, Circuit, Contracted, Moves, Members, AllTrees;
    var c := Roots(kids);
    LaminarOf(family, n, active, free, deep, shallow, outer);
    MoveSizes(c, up[a], t, n, kind, kind');
    ClosingParts(family, n, outer, forest, kind, mate, up, a, vp, b);
    LabelAt(up, n, kind, a);
    TreeOn(family, up, a);
    var tip := PickTree(family, up[a]);
    forall s | s in family - Members(kids) + {Tree(t, kids)} && 0 <= s.id < |kind'| && kind'[s.id] == EVEN
      ensures HasClimb(s.id, n, outer', forest', kind', root', mate', deep', slack)
    {
      if s == Tree(t, kids) {
        CrownClimb(family, n, active, free, deep, shallow, outer, forest, kind, root, mate, slack, u, up, a, vp, b,
          kids, t, deep', outer',
          forest', kind', root', mate');
      } else {
        NotMember(family, n, kids, s);
        ContractedFacts(family, kids, t, n, deep, outer, deep', outer');
        HasTreeBy(family, s);
        MovesAt(c, up[a], t, n, kind, kind', s.id);
        ImageOutside(c, t, s.id);
        OldClimb(family, n, active, free, deep, shallow, outer, forest, kind, root, mate, slack, up, a, vp, b, kids, t,
          deep', outer',
          forest', kind', root', mate', s);
      }
    }
  }

  lemma OldLabel(family: set<Tree>, n: nat, kids: seq<Tree>, t: int, tip: int, link: seq<int>, link': seq<int>, s: Tree)
    requires Laminar(family, {}, n) && Picked(family, kids) && s in family && s !in Members(kids) && !HasTree(family, t)
    requires Moves(Roots(kids), tip, t, n, link, link')
    ensures 0 <= s.id < 2 * n && s.id != t && s.id !in Roots(kids) && s.id != tip && |link'| == 2 * n && |link| == 2 * n
    ensures link'[s.id] == link[s.id]
  {
    hide Roots;
    NotMember(family, n, kids, s);
    HasTreeBy(family, s);
    FamilyShape(family, n, s);
  }

  lemma MateIsAfter(family: set<Tree>, kids: seq<Tree>, t: int, tip: int, n: nat, deep: seq<seq<int>>, outer: seq<int>,
                    deep': seq<seq<int>>, outer': seq<int>,
                    kind: seq<int>, mate: seq<int>, kind': seq<int>, mate': seq<int>, p: int, r: int)
    requires Contracted(family, kids, t, n, deep, outer, deep', outer') && MateIs(p, EVEN, n, outer, kind, mate)
    requires Leads(p, r, n, outer, mate)
    requires Moves(Roots(kids), tip, t, n, kind, kind') && kind[tip] == EVEN && HasTree(family, r) && 0 <= r < 2 * n
    requires |mate| == 2 * n && |mate'| == 2 * n && 0 <= p < 2 * n && mate'[p] == mate[p] && p !in Roots(kids)
    ensures MateIs(p, EVEN, n, outer', kind', mate')
  {
    hide Contracted, Roots, HasTree, Moves;
    var c := Roots(kids);
    ImageOutside(c, t, p);
    LeadsAfter(family, kids, t, n, deep, outer, deep', outer', mate, mate', p, r);
    MoveSizes(c, tip, t, n, kind, kind');
    ContractedFacts(family, kids, t, n, deep, outer, deep', outer');
    ImageOutside(c, t, r);
    if r !in c {
      TreeNotNew(family, r, t);
      MovesAt(c, tip, t, n, kind, kind', r);
    }
  }

  lemma TreeNotNew(family: set<Tree>, r: int, t: int)
    requires HasTree(family, r) && !HasTree(family, t)
    ensures r != t
  {
  }

  lemma LabellingAfter(family: set<Tree>, n: nat, active: seq<bool>, free: seq<int>, deep: seq<seq<int>>,
                       shallow: seq<seq<int>>, outer: seq<int>,
                       kind: seq<int>, root: seq<int>, mate: seq<int>, slack: seq<real>, kids: seq<Tree>, t: int,
                       tip: Tree,
                       deep': seq<seq<int>>, outer': seq<int>, kind': seq<int>, root': seq<int>, mate': seq<int>)
    requires Whole(family, {}, n, active, free, deep, shallow, outer) && PartlyMatched(family, mate, slack, n)
    requires Picked(family, kids)
    requires Labelling(family, n, outer, kind, root, mate) && Contracted(family, kids, t, n, deep, outer, deep', outer')
    requires tip in family && 0 <= tip.id < |kind| && kind[tip.id] == EVEN
    requires Moves(Roots(kids), tip.id, t, n, kind, kind') && Moves(Roots(kids), tip.id, t, n, root, root')
    requires Moves(Roots(kids), tip.id, t, n, mate, mate')
    ensures Labelling(family - Members(kids) + {Tree(t, kids)}, n, outer', kind', root', mate')
  {
    hide Whole, PartlyMatched, Picked, Roots, Contracted, Moves, Members, MateIs, Laminar, HasTree;
    var more := family - Members(kids) + {Tree(t, kids)};
    var c := Roots(kids);
    LaminarOf(family, n, active, free, deep, shallow, outer);
    ContractedFacts(family, kids, t, n, deep, outer, deep', outer');
    MoveSizes(c, tip.id, t, n, kind, kind');
    MoveSizes(c, tip.id, t, n, root, root');
    MoveSizes(c, tip.id, t, n, mate, mate');
    SortsDiffer();
    forall s | s in more && 0 <= s.id < 2 * n
      ensures mate'[s.id] == -1 ==> kind'[s.id] == EVEN
      ensures kind'[s.id] == ODD ==> MateIs(s.id, EVEN, n, outer', kind', mate')
    {
      if s != Tree(t, kids) {
        OldLabel(family, n, kids, t, tip.id, kind, kind', s);
        OldLabel(family, n, kids, t, tip.id, mate, mate', s);
        LabelFacts(family, n, outer, kind, root, mate, s);
        if kind'[s.id] == ODD {
          var r := MateBack(family, n, active, free, deep, shallow, outer, mate, slack, s);
          HasTreeBy(family, r);
          FamilyShape(family, n, r);
          RootsApart(family, n, r);
          MateIsAfter(family, kids, t, tip.id, n, deep, outer, deep', outer', kind, mate, kind', mate', s.id, r.id);
        }
      }
    }
    forall x, y | x in more && y in more && 0 <= x.id < 2 * n && 0 <= y.id < 2 * n && x.id != y.id &&
      mate'[x.id] == -1 && mate'[y.id] == -1
      ensures root'[x.id] != root'[y.id]
    {
      RootsAfter(family, n, outer, kind, root, mate, kids, t, tip, root', mate', x, y);
    }
  }

  lemma RootsAfter(family: set<Tree>, n: nat, outer: seq<int>, kind: seq<int>, root: seq<int>, mate: seq<int>,
                   kids: seq<Tree>, t: int, tip: Tree,
                   root': seq<int>, mate': seq<int>, x: Tree, y: Tree)
    requires Laminar(family, {}, n) && Picked(family, kids) && !HasTree(family, t)
    requires Labelling(family, n, outer, kind, root, mate)
    requires tip in family && Moves(Roots(kids), tip.id, t, n, root, root')
    requires Moves(Roots(kids), tip.id, t, n, mate, mate')
    requires x in family - Members(kids) + {Tree(t, kids)} && y in family - Members(kids) + {Tree(t, kids)}
    requires 0 <= x.id < 2 * n && 0 <= y.id < 2 * n && x.id != y.id && |mate'| == 2 * n && |root'| == 2 * n
    requires mate'[x.id] == -1 && mate'[y.id] == -1
    ensures root'[x.id] != root'[y.id]
  {
    hide Picked, Roots, Moves, Members, Laminar, HasTree, Labelling;
    var c := Roots(kids);
    MoveSizes(c, tip.id, t, n, root, root');
    MoveSizes(c, tip.id, t, n, mate, mate');
    var s := if x == Tree(t, kids) then tip else x;
    var r := if y == Tree(t, kids) then tip else y;
    if x != Tree(t, kids) {
      OldLabel(family, n, kids, t, tip.id, root, root', s);
      OldLabel(family, n, kids, t, tip.id, mate, mate', s);
    }
    if y != Tree(t, kids) {
      OldLabel(family, n, kids, t, tip.id, root, root', r);
      OldLabel(family, n, kids, t, tip.id, mate, mate', r);
    }
    RootsDiffer(family, n, outer, kind, root, mate, s, r);
  }
}
