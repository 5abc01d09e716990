/** The numbers of the vertices in the order in which the walk finds them. */
module WeinbergNumbers {
  import opened RotationSystem
  import opened WeinbergWalk
  import opened WeinbergCode
  import opened WeinbergOrder

  /** The i-th vertex the walk comes to; after the last step there is one more. */
  ghost function VertexAt(g: Surface, start: int, first: int, i: nat): int
    requires Triangulated(g)
  {
    if i == 0 then start else After(g, start, first, i - 1).b
  }

  /** The final numbering. */
  ghost function Final(g: Surface, start: int, first: int): map<int, int>
    requires Triangulated(g)
  {
    After(g, start, first, if |Edges(g)| == 0 then 0 else |Edges(g)| - 1).found
  }

  /** A walk from an edge of a surface. */
  ghost predicate IsWalk(g: Surface, start: int, first: int) {
    IsSurface(g) && Triangulated(g) && IsTable(g) && Edge(g, start, first)
  }

  lemma WalkParts(g: Surface, start: int, first: int)
    requires IsWalk(g, start, first)
    ensures IsSurface(g) && Triangulated(g) && IsTable(g) && Edge(g, start, first) && |Edges(g)| > 0
    ensures 0 <= start < g.n && 0 <= first < g.n
  {
    assert (start, first) in Edges(g);
  }

  /** One step of the walk. */
  lemma StepFacts(g: Surface, start: int, first: int, i: nat)
    requires IsWalk(g, start, first) && Triangulated(g) && i < |Edges(g)|
    ensures var w := After(g, start, first, i);
      && Edge(g, w.a, w.b) && 0 <= w.a < g.n && 0 <= w.b < g.n && w.a in w.found && Numbered(w.found)
      && w.a == VertexAt(g, start, first, i) && w.b == VertexAt(g, start, first, i + 1)
      && After(g, start, first, i + 1) == Step(g, w) && After(g, start, first, i + 1).found == Discover(w)
      && (forall v :: v in w.found ==> 0 <= v < g.n)
      && (w.a, w.b) == EdgeAt(g, start, first, i)
  {
    hide *;
    WalkParts(g, start, first);
    var path, returning := WalkSearches(g, start, first, i);
    SearchIsSane(g, After(g, start, first, i), path, start, first, returning);
    AfterNumbered(g, start, first, i);
    SaneFacts(g, After(g, start, first, i));
    AfterNext(g, start, first, i);
    FoundNext(g, After(g, start, first, i));
    PlaceFacts(g, start, first, i);
    if i > 0 {
      var path', returning' := WalkSearches(g, start, first, i - 1);
      SearchIsSane(g, After(g, start, first, i - 1), path', start, first, returning');
      SaneFacts(g, After(g, start, first, i - 1));
      AfterNext(g, start, first, i - 1);
      FoundNext(g, After(g, start, first, i - 1));
      PlaceFacts(g, start, first, i - 1);
    }
  }

  lemma SaneFacts(g: Surface, w: Walk)
    requires IsTable(g) && Sane(g, w)
    ensures Edge(g, w.a, w.b) && 0 <= w.a < g.n && 0 <= w.b < g.n && w.a in w.found
    ensures forall v :: v in w.found ==> 0 <= v < g.n
  {
  }

  lemma FoundNext(g: Surface, w: Walk)
    requires Triangulated(g) && Edge(g, w.a, w.b)
    ensures Step(g, w).found == Discover(w) && Step(g, w).a == w.b
  {
    hide Choose;
  }

  lemma PlaceFacts(g: Surface, start: int, first: int, i: nat)
    requires Triangulated(g)
    ensures After(g, start, first, i).b == VertexAt(g, start, first, i + 1)
    ensures (After(g, start, first, i).a, After(g, start, first, i).b) == EdgeAt(g, start, first, i)
    ensures i == 0 ==> After(g, start, first, i).a == VertexAt(g, start, first, i)
    ensures i > 0 ==> VertexAt(g, start, first, i) == After(g, start, first, i - 1).b
  {
  }

  // Prefixes of the numbering --------------------------------------------------------------------------------

  /** The smaller numbering is the beginning of the larger one. */
  ghost predicate Begins(found: map<int, int>, later: map<int, int>) {
    && (forall v :: v in found ==> v in later && later[v] == found[v])
    && (forall v :: v in later && later[v] < |found| ==> v in found)
    && |found| <= |later|
  }

  lemma BeginsNext(found: map<int, int>, w: Walk)
    requires Begins(found, w.found) && Numbered(w.found)
    ensures Begins(found, Discover(w))
  {
  }

  lemma {:induction false} FoundBegins(g: Surface, start: int, first: int, i: nat, j: nat)
    requires IsWalk(g, start, first) && Triangulated(g) && i <= j < |Edges(g)|
    ensures Begins(After(g, start, first, i).found, After(g, start, first, j).found)
  {
    hide IsWalk, After, Edges, Triangulated, Begins;
    if i < j {
      FoundBegins(g, start, first, i, j - 1);
      StepFacts(g, start, first, j - 1);
      BeginsNext(After(g, start, first, i).found, After(g, start, first, j - 1));
    } else {
      StepFacts(g, start, first, i);
      BeginsSelf(After(g, start, first, i).found);
    }
  }

  lemma BeginsSelf(found: map<int, int>)
    requires Numbered(found)
    ensures Begins(found, found)
  {
  }

  /** Every vertex has its number in the end, and they are the numbers below n. */
  lemma FinalNumbers(g: Surface, start: int, first: int)
    requires IsWalk(g, start, first) && Triangulated(g)
    ensures Numbered(Final(g, start, first)) && |Final(g, start, first)| == g.n
    ensures forall v :: v in Final(g, start, first) <==> 0 <= v < g.n
    ensures Final(g, start, first) == After(g, start, first, |Edges(g)| - 1).found && |Edges(g)| > 0
  {
    hide *;
    WalkParts(g, start, first);
    var last: nat := |Edges(g)| - 1;
    StepFacts(g, start, first, last);
    AllFound(g, start, first);
    FinalIs(g, start, first);
    AllNumbers(g, After(g, start, first, last).found);
  }

  lemma FinalIs(g: Surface, start: int, first: int)
    requires Triangulated(g) && |Edges(g)| > 0
    ensures Final(g, start, first) == After(g, start, first, |Edges(g)| - 1).found
  {
    hide After;
  }

  lemma AllNumbers(g: Surface, found: map<int, int>)
    requires FoundAll(g, found) && forall v :: v in found ==> 0 <= v < g.n
    ensures |found| == g.n && forall v :: v in found <==> 0 <= v < g.n
  {
    assert found.Keys == Range(g.n);
    assert |found| == |found.Keys|;
  }

  /** The vertex with a number. */
  lemma {:induction false} NumberTaken(found: map<int, int>, m: int) returns (v: int)
    requires Numbered(found) && 0 <= m < |found|
    ensures v in found && found[v] == m
  {
    assert |found| == |found.Keys|;
    if forall u :: u in found ==> found[u] != m {
      var s := set u | u in found.Keys :: found[u];
      ImageOf(found, found.Keys);
      assert s <= Range(|found|) - {m};
      SubsetSize(s, Range(|found|) - {m});
    }
    v :| v in found && found[v] == m;
  }

  lemma MemberOf<T>(s: set<T>) returns (u: T)
    requires s != {}
    ensures u in s
  {
    u :| u in s;
  }

  lemma {:induction false} ImageOf(found: map<int, int>, keys: set<int>)
    requires keys <= found.Keys
    requires forall u, v :: u in found && v in found && found[u] == found[v] ==> u == v
    ensures |set u | u in keys :: found[u]| == |keys|
  {
    var s := set u | u in keys :: found[u];
    if keys == {} {
      assert s == {};
    } else {
      var u := MemberOf(keys);
      var less := keys - {u};
      ImageOf(found, less);
      assert s == (set x | x in less :: found[x]) + {found[u]};
    }
  }

  // What the code says of the numbers ------------------------------------------------------------------------

  /** The i-th entry of the code gives the number and the colour of the i-th vertex. */
  lemma CodeNumbers(g: Surface, colours: seq<int>, start: int, first: int, i: nat)
    requires IsWalk(g, start, first) && Triangulated(g) && i < |Edges(g)| && LabelsFit(g, colours) && |colours| == g.n
    requires 0 <= start < g.n
    ensures var v := VertexAt(g, start, first, i);
      && 0 <= v < g.n && v in Final(g, start, first) && 0 <= Final(g, start, first)[v] < g.n && 0 <= colours[v]
      && CodeAt(g, colours, start, first, i) == colours[v] * g.n + Final(g, start, first)[v]
      && v in After(g, start, first, i).found
      && After(g, start, first, i).found[v] == Final(g, start, first)[v]
  {
    hide *;
    WalkParts(g, start, first);
    FinalNumbers(g, start, first);
    StepFacts(g, start, first, i);
    FoundBegins(g, start, first, i, |Edges(g)| - 1);
    var v := VertexAt(g, start, first, i);
    BeginsAt(After(g, start, first, i).found, Final(g, start, first), v);
    NumberBelow(Final(g, start, first), v);
    ColourFits(g, colours, v);
    if i == 0 {
      StartIsZero(g, start, first, 0);
      PlaceFacts(g, start, first, 0);
      StartCode(g, colours, start, first);
    } else {
      StepFacts(g, start, first, i - 1);
      DiscoverHas(After(g, start, first, i - 1));
      LaterCode(g, colours, start, first, i);
    }
  }

  lemma ColourFits(g: Surface, colours: seq<int>, v: int)
    requires LabelsFit(g, colours) && 0 <= v < g.n
    ensures 0 <= colours[v]
  {
  }

  lemma StartCode(g: Surface, colours: seq<int>, start: int, first: int)
    requires Triangulated(g) && |colours| == g.n && 0 <= start < g.n
    ensures CodeAt(g, colours, start, first, 0) == colours[start] * g.n + 0 && VertexAt(g, start, first, 0) == start
  {
  }

  lemma LaterCode(g: Surface, colours: seq<int>, start: int, first: int, i: nat)
    requires Triangulated(g) && |colours| == g.n && 0 <= start < g.n && i > 0
    requires var w := After(g, start, first, i - 1); 0 <= w.b < g.n && w.b in Discover(w)
    ensures var w := After(g, start, first, i - 1);
      CodeAt(g, colours, start, first, i) == colours[w.b] * g.n + Discover(w)[w.b]
  {
    hide After;
  }

  lemma BeginsAt(found: map<int, int>, later: map<int, int>, v: int)
    requires Begins(found, later) && v in found
    ensures v in later && later[v] == found[v]
  {
  }

  lemma NumberBelow(found: map<int, int>, v: int)
    requires Numbered(found) && v in found
    ensures 0 <= found[v] < |found|
  {
  }

  lemma DiscoverHas(w: Walk)
    ensures w.b in Discover(w)
  {
  }

  // The rules of the walk, without its bookkeeping -----------------------------------------------------------

  ghost predicate VisitedBy(g: Surface, start: int, first: int, k: nat, v: int)
    requires Triangulated(g)
  {
    exists j: nat :: j <= k && VertexAt(g, start, first, j) == v
  }

  lemma VisitedNext(g: Surface, start: int, first: int, k: nat, v: int)
    requires Triangulated(g)
    ensures VisitedBy(g, start, first, k + 1, v) <==>
      VisitedBy(g, start, first, k, v) || VertexAt(g, start, first, k + 1) == v
    ensures VisitedBy(g, start, first, 0, v) <==> v == start
  {
    hide Triangulated, After;
    assert VertexAt(g, start, first, 0) == start;
    if VisitedBy(g, start, first, k + 1, v) {
      var j: nat :| j <= k + 1 && VertexAt(g, start, first, j) == v;
    }
  }

  /** A vertex has a number once the walk has been there. */
  lemma {:induction false} FoundIsVisited(g: Surface, start: int, first: int, k: nat, v: int)
    requires IsWalk(g, start, first) && Triangulated(g) && k < |Edges(g)|
    ensures v in After(g, start, first, k).found <==> VisitedBy(g, start, first, k, v)
  {
    hide *;
    if k == 0 {
      AfterNone(g, start, first);
      StartFound(start, first, v);
      VisitedNext(g, start, first, 0, v);
    } else {
      FoundIsVisited(g, start, first, k - 1, v);
      StepFacts(g, start, first, k - 1);
      DiscoverFinds(After(g, start, first, k - 1), v);
      VisitedNext(g, start, first, k - 1, v);
    }
  }

  lemma StartFound(start: int, first: int, v: int)
    ensures v in Start(start, first).found <==> v == start
  {
  }

  lemma DiscoverFinds(w: Walk, v: int)
    ensures v in Discover(w) <==> v in w.found || v == w.b
  {
  }

  /** Around b from the one after a: each next corner, over edges that have been taken, to one that has not. */
  ghost predicate IsTour(g: Surface, start: int, first: int, k: nat, a: int, b: int, tour: seq<int>)
    requires Triangulated(g) && IsTable(g) && 0 <= a < g.n && 0 <= b < g.n
  {
    && tour != [] && (forall i :: 0 <= i < |tour| ==> 0 <= tour[i] < g.n) && tour[0] == g.common[a][b]
    && (forall i :: 0 <= i < |tour| - 1 ==> tour[i + 1] == g.common[tour[i]][b])
    && (forall i :: 0 <= i < |tour| - 1 ==> Seen(g, start, first, k, (b, tour[i])))
    && !Seen(g, start, first, k, (b, tour[|tour| - 1]))
  }

  ghost predicate TourTo(g: Surface, start: int, first: int, k: nat, a: int, b: int, c: int)
    requires Triangulated(g) && IsTable(g) && 0 <= a < g.n && 0 <= b < g.n
  {
    exists tour :: IsTour(g, start, first, k, a, b, tour) && tour[|tour| - 1] == c
  }

  /** From a to b and on to c: to the third corner of the facet if b is new, back if the way back is free, and
      otherwise around b to the first free edge. */
  lemma WalkRules(g: Surface, start: int, first: int, k: nat)
    requires IsWalk(g, start, first) && Triangulated(g) && IsTable(g) && k + 1 < |Edges(g)|
    ensures VertexAt(g, start, first, 0) == start && VertexAt(g, start, first, 1) == first
    ensures var a, b, c := VertexAt(g, start, first, k), VertexAt(g, start, first, k + 1),
        VertexAt(g, start, first, k + 2);
      && 0 <= a < g.n && 0 <= b < g.n
      && if !VisitedBy(g, start, first, k, b) then c == g.common[a][b]
         else if !Seen(g, start, first, k, (b, a)) then c == a
         else TourTo(g, start, first, k, a, b, c)
  {
    hide *;
    WalkParts(g, start, first);
    StepFacts(g, start, first, k);
    var w := After(g, start, first, k);
    FoundIsVisited(g, start, first, k, w.b);
    UsedSoFar(g, start, first, k, (w.b, w.a));
    PlaceFacts(g, start, first, k + 1);
    FirstTwoVertices(g, start, first);
    LeftBy(g, start, first, k);
  }

  lemma FirstTwoVertices(g: Surface, start: int, first: int)
    requires Triangulated(g)
    ensures VertexAt(g, start, first, 0) == start && VertexAt(g, start, first, 1) == first
  {
    assert After(g, start, first, 0) == Start(start, first);
  }

  lemma ChosenNext(g: Surface, w: Walk)
    requires Triangulated(g) && Edge(g, w.a, w.b)
    ensures Step(g, w).b == Choose(g, w)
    ensures w.b !in w.found ==> Choose(g, w) == g.common[w.a][w.b]
    ensures w.b in w.found && (w.b, w.a) !in w.used ==> Choose(g, w) == w.a
  {
  }

  lemma LeftBy(g: Surface, start: int, first: int, k: nat)
    requires IsWalk(g, start, first) && Triangulated(g) && IsTable(g) && k + 1 < |Edges(g)|
    requires var w := After(g, start, first, k); 0 <= w.a < g.n && 0 <= w.b < g.n && Edge(g, w.a, w.b)
    ensures var w := After(g, start, first, k); var c := After(g, start, first, k + 1).b;
      && (w.b !in w.found ==> c == g.common[w.a][w.b])
      && (w.b in w.found && (w.b, w.a) !in w.used ==> c == w.a)
      && (w.b in w.found && (w.b, w.a) in w.used ==> TourTo(g, start, first, k, w.a, w.b, c))
  {
    hide *;
    WalkParts(g, start, first);
    StepFacts(g, start, first, k);
    var w := After(g, start, first, k);
    ChosenNext(g, w);
    TurnEdge(g, w.a, w.b);
    if w.b in w.found && (w.b, w.a) in w.used {
      TurnedOn(g, start, first, k, w);
    }
  }

  lemma TurnedOn(g: Surface, start: int, first: int, k: nat, w: Walk)
    requires IsWalk(g, start, first) && Triangulated(g) && IsTable(g) && k + 1 < |Edges(g)|
    requires w == After(g, start, first, k) && w.b in w.found && (w.b, w.a) in w.used && Edge(g, w.a, w.b)
    requires 0 <= w.a < g.n && 0 <= w.b < g.n
    ensures TourTo(g, start, first, k, w.a, w.b, Choose(g, w))
  {
    hide *;
    WalkParts(g, start, first);
    var path, returning := WalkSearches(g, start, first, k);
    TakenSize(g, start, first, k);
    if !returning {
      StepBack(g, w, path, start, first);
    }
    TurnHasFree(g, w, path, start, first);
    var x := Next(g, w.b, w.a);
    var l := TurnsToFree(g, w.used, w.b, x);
    ChosenTurn(g, w, x, l);
    TourIs(g, start, first, k, w, x, l);
  }

  lemma ChosenTurn(g: Surface, w: Walk, x: int, l: nat)
    requires Triangulated(g) && Edge(g, w.a, w.b) && w.b in w.found && (w.b, w.a) in w.used
    requires 0 <= w.a < g.n && 0 <= w.b < g.n && x == Next(g, w.b, w.a) && Edge(g, w.b, x) && HasFree(g, w.used, w.b, x)
    requires l == TurnsToFree(g, w.used, w.b, x)
    ensures Choose(g, w) == Turn(g, w.b, x, l) && FirstFree(g, w.used, w.b, x, l) && x == g.common[w.a][w.b]
  {
  }

  lemma TourIs(g: Surface, start: int, first: int, k: nat, w: Walk, x: int, l: nat)
    requires IsWalk(g, start, first) && Triangulated(g) && IsTable(g) && k + 1 < |Edges(g)|
    requires w == After(g, start, first, k) && 0 <= w.a < g.n && 0 <= w.b < g.n && Edge(g, w.b, x)
    requires x == g.common[w.a][w.b] && FirstFree(g, w.used, w.b, x, l)
    ensures TourTo(g, start, first, k, w.a, w.b, Turn(g, w.b, x, l))
  {
    hide *;
    WalkParts(g, start, first);
    var tour := TourSeq(g, w.b, x, l);
    forall i | 0 <= i < |tour|
      ensures 0 <= tour[i] < g.n && (Seen(g, start, first, k, (w.b, tour[i])) <==> i < l)
      ensures i < l ==> tour[i + 1] == g.common[tour[i]][w.b]
    {
      EdgeInRange(g, w.b, tour[i]);
      UsedSoFar(g, start, first, k, (w.b, tour[i]));
      UntilFree(g, w.used, w.b, x, l, i);
      TurnNext(g, w.b, x, i);
    }
    MakeTour(g, start, first, k, w.a, w.b, tour);
  }

  ghost function TourSeq(g: Surface, b: int, x: int, l: nat): (tour: seq<int>)
    requires Triangulated(g) && Edge(g, b, x)
    ensures |tour| == l + 1 && tour[0] == x
    ensures forall i :: 0 <= i <= l ==> tour[i] == Turn(g, b, x, i) && Edge(g, b, tour[i])
  {
    assert Turn(g, b, x, 0) == x;
    seq(l + 1, i requires 0 <= i => Turn(g, b, x, i))
  }

  lemma TurnNext(g: Surface, b: int, x: int, i: nat)
    requires Triangulated(g) && IsTable(g) && 0 <= b < g.n && Edge(g, b, x) && 0 <= Turn(g, b, x, i) < g.n
    ensures Turn(g, b, x, i + 1) == g.common[Turn(g, b, x, i)][b]
  {
  }

  lemma UntilFree(g: Surface, used: set<(int, int)>, b: int, x: int, l: nat, i: nat)
    requires Triangulated(g) && Edge(g, b, x) && FirstFree(g, used, b, x, l) && i <= l
    ensures (b, Turn(g, b, x, i)) in used <==> i < l
  {
    hide Turn, Triangulated, Edge;
    if i < l {
      assert !Free(g, used, b, x, i);
    }
  }

  lemma MakeTour(g: Surface, start: int, first: int, k: nat, a: int, b: int, tour: seq<int>)
    requires Triangulated(g) && IsTable(g) && 0 <= a < g.n && 0 <= b < g.n
    requires tour != [] && (forall i :: 0 <= i < |tour| ==> 0 <= tour[i] < g.n) && tour[0] == g.common[a][b]
    requires forall i :: 0 <= i < |tour| - 1 ==> tour[i + 1] == g.common[tour[i]][b]
    requires forall i :: 0 <= i < |tour| - 1 ==> Seen(g, start, first, k, (b, tour[i]))
    requires !Seen(g, start, first, k, (b, tour[|tour| - 1]))
    ensures TourTo(g, start, first, k, a, b, tour[|tour| - 1])
  {
    hide Triangulated, IsTable, Seen;
    assert IsTour(g, start, first, k, a, b, tour);
  }
}
