/** One insertion into the incremental convex hull: the visible facets give way to a cone over the horizon. */
module HullInsertion {
  import opened Sequences
  import opened FacetTable

  const VISIBLE := 1
  const INVISIBLE := 2
  const BOTH := 3
  const MAX_FACETS := 28
  const MAX_POINTS := 17

  predicate Proper(f: Facet, n: nat) {
    0 <= f.a < n && 0 <= f.b < n && 0 <= f.c < n && f.a != f.b && f.b != f.c && f.c != f.a
  }

  predicate Has(f: Facet, x: int) {
    x == f.a || x == f.b || x == f.c
  }

  /** The undirected edge {x, y} is a side of the facet. */
  predicate HasEdge(f: Facet, x: int, y: int) {
    x != y && Has(f, x) && Has(f, y)
  }

  function One(b: bool): nat {
    if b then 1 else 0
  }

  /** How many facets have the side {x, y}. */
  function Sides(facets: seq<Facet>, x: int, y: int): nat {
    if facets == [] then 0 else
      Sides(facets[..|facets| - 1], x, y) + One(HasEdge(facets[|facets| - 1], x, y))
  }

  /** The facets on one side of the new point, in order. */
  function Select(facets: seq<Facet>, vis: Facet -> bool, want: bool): seq<Facet> {
    if facets == [] then [] else
      var f := facets[|facets| - 1];
      Select(facets[..|facets| - 1], vis, want) + if vis(f) == want then [f] else []
  }

  ghost predicate AllProper(facets: seq<Facet>, n: nat) {
    forall i :: 0 <= i < |facets| ==> Proper(facets[i], n)
  }

  /** Every side is a side of exactly two facets. */
  ghost predicate Closed(facets: seq<Facet>) {
    forall x, y :: x != y ==> Sides(facets, x, y) == 0 || Sides(facets, x, y) == 2
  }

  lemma {:induction false} SidesAppend(s: seq<Facet>, t: seq<Facet>, x: int, y: int)
    ensures Sides(s + t, x, y) == Sides(s, x, y) + Sides(t, x, y)
  {
    if t == [] {
      assert s + t == s;
    } else {
      SidesAppend(s, t[..|t| - 1], x, y);
      assert (s + t)[..|s + t| - 1] == s + t[..|t| - 1];
    }
  }

  lemma {:induction false} SidesSymmetric(s: seq<Facet>, x: int, y: int)
    ensures Sides(s, x, y) == Sides(s, y, x)
  {
    if s != [] {
      SidesSymmetric(s[..|s| - 1], x, y);
    }
  }

  lemma SidesOne(f: Facet, x: int, y: int)
    ensures Sides([f], x, y) == One(HasEdge(f, x, y))
  {
    assert [f][..0] == [];
  }

  /** Where a facet stands makes no difference to the counts. */
  lemma SidesWithout(t: seq<Facet>, k: int, x: int, y: int)
    requires 0 <= k < |t|
    ensures Sides(t, x, y) == Sides(t[..k] + t[k + 1..], x, y) + One(HasEdge(t[k], x, y))
  {
    hide Sides, HasEdge;
    assert t == t[..k] + [t[k]] + t[k + 1..];
    SidesAppend(t[..k] + [t[k]], t[k + 1..], x, y);
    SidesAppend(t[..k], [t[k]], x, y);
    SidesAppend(t[..k], t[k + 1..], x, y);
    SidesOne(t[k], x, y);
  }

  /** Sides are counted alike in any order. */
  lemma {:induction false} SidesShuffled(s: seq<Facet>, t: seq<Facet>, x: int, y: int)
    requires multiset(s) == multiset(t)
    ensures Sides(s, x, y) == Sides(t, x, y)
  {
    hide HasEdge;
    if s == [] {
      assert |multiset(t)| == 0;
    } else {
      var last := |s| - 1;
      var k := PlaceOf(t, s[last]) by { assert s[last] in multiset(s); }
      TakeOut(s, last);
      TakeOut(t, k);
      assert s[..last] + s[last + 1..] == s[..last];
      SidesShuffled(s[..last], t[..k] + t[k + 1..], x, y);
      SidesWithout(t, k, x, y);
    }
  }

  lemma PlaceOf(t: seq<Facet>, f: Facet) returns (k: int)
    requires f in multiset(t)
    ensures 0 <= k < |t| && t[k] == f
  {
    k :| 0 <= k < |t| && t[k] == f;
  }

  /** The two selections share out all sides. */
  lemma {:induction false} SelectSplits(facets: seq<Facet>, vis: Facet -> bool, x: int, y: int)
    ensures Sides(Select(facets, vis, true), x, y) + Sides(Select(facets, vis, false), x, y) == Sides(facets, x, y)
  {
    if facets != [] {
      var f := facets[|facets| - 1];
      var less := facets[..|facets| - 1];
      SelectSplits(less, vis, x, y);
      SidesOne(f, x, y);
      SidesAppend(Select(less, vis, true), [f], x, y);
      SidesAppend(Select(less, vis, false), [f], x, y);
      assert Select(less, vis, true) + [] == Select(less, vis, true) && Select(less, vis, false) + [] == Select(less,
        vis, false);
    }
  }

  lemma SelectNext(facets: seq<Facet>, f: Facet, vis: Facet -> bool, want: bool)
    ensures Select(facets + [f], vis, want) == Select(facets, vis, want) + (if vis(f) == want then [f] else [])
  {
    assert (facets + [f])[..|facets|] == facets;
  }

  // Marks and the horizon ----------------------------------------------------------------------------------

  /** One side of one facet, and whether the facet is visible. */
  datatype Side = Side(x: int, y: int, visible: bool)

  predicate Along(s: Side, x: int, y: int) {
    (s.x == x && s.y == y) || (s.x == y && s.y == x)
  }

  /** How often {x, y} was met as a side of a facet of the kind. */
  function Met(sides: seq<Side>, x: int, y: int, kind: bool): nat {
    if sides == [] then 0 else
      var s := sides[|sides| - 1];
      Met(sides[..|sides| - 1], x, y, kind) + One(s.visible == kind && Along(s, x, y))
  }

  /** The sides of the facets in the order in which a scan meets them. */
  function SidesOf(facets: seq<Facet>, vis: Facet -> bool): seq<Side> {
    if facets == [] then [] else
      var f := facets[|facets| - 1];
      SidesOf(facets[..|facets| - 1], vis) + [Side(f.a, f.b, vis(f))] + [Side(f.b, f.c, vis(f))] + [Side(f.c, f.a,
        vis(f))]
  }

  lemma MetNext(sides: seq<Side>, s: Side, x: int, y: int, kind: bool)
    ensures Met(sides + [s], x, y, kind) == Met(sides, x, y, kind) + One(s.visible == kind && Along(s, x, y))
  {
    assert (sides + [s])[..|sides|] == sides;
  }

  lemma {:induction false} MetSymmetric(sides: seq<Side>, x: int, y: int, kind: bool)
    ensures Met(sides, x, y, kind) == Met(sides, y, x, kind)
  {
    if sides != [] {
      MetSymmetric(sides[..|sides| - 1], x, y, kind);
    }
  }

  lemma SidesOfNext(facets: seq<Facet>, f: Facet, vis: Facet -> bool)
    ensures SidesOf(facets + [f], vis) ==
            SidesOf(facets, vis) + [Side(f.a, f.b, vis(f))] + [Side(f.b, f.c, vis(f))] + [Side(f.c, f.a, vis(f))]
  {
    assert (facets + [f])[..|facets|] == facets;
  }

  /** The three sides of a facet are different edges. */
  lemma ThreeSides(f: Facet, n: nat, x: int, y: int, v: bool, kind: bool)
    requires Proper(f, n) && x != y
    ensures One(v == kind && Along(Side(f.a, f.b, v), x, y)) + One(v == kind && Along(Side(f.b, f.c, v), x, y))
          + One(v == kind && Along(Side(f.c, f.a, v), x, y)) == if v == kind then One(HasEdge(f, x, y)) else 0
  {
  }

  /** The scan meets a side once for every facet that has it. */
  lemma {:induction false} MetIsSides(facets: seq<Facet>, vis: Facet -> bool, n: nat, x: int, y: int, kind: bool)
    requires AllProper(facets, n) && x != y
    ensures Met(SidesOf(facets, vis), x, y, kind) == Sides(Select(facets, vis, kind), x, y)
  {
    if facets != [] {
      var less, f := facets[..|facets| - 1], facets[|facets| - 1];
      assert Proper(f, n);
      ThreeSides(f, n, x, y, vis(f), kind);
      assert SidesOf(facets, vis) == SidesOf(less, vis) + [Side(f.a, f.b, vis(f))] + [Side(f.b, f.c,
        vis(f))] + [Side(f.c, f.a, vis(f))];
      assert Select(facets, vis, kind) == Select(less, vis, kind) + if vis(f) == kind then [f] else [];
      hide Met, Sides, SidesOf, Select, Proper, Along, HasEdge, One;
      MetIsSides(less, vis, n, x, y, kind);
      var sides := SidesOf(less, vis);
      MetNext(sides, Side(f.a, f.b, vis(f)), x, y, kind);
      MetNext(sides + [Side(f.a, f.b, vis(f))], Side(f.b, f.c, vis(f)), x, y, kind);
      MetNext(sides + [Side(f.a, f.b, vis(f))] + [Side(f.b, f.c, vis(f))], Side(f.c, f.a, vis(f)), x, y, kind);
      SidesAppend(Select(less, vis, kind), [f], x, y);
      SidesOne(f, x, y);
      assert Select(less, vis, kind) + [] == Select(less, vis, kind);
    }
  }

  /** The bits of an edge after it was met in facets of one kind or the other. */
  function Mark(visible: nat, invisible: nat): int {
    (if visible > 0 then VISIBLE else 0) + (if invisible > 0 then INVISIBLE else 0)
  }

  /** Setting a bit. */
  function Or(mark: int, bit: int): int
    requires bit > 0
  {
    if (mark / bit) % 2 == 1 then mark else mark + bit
  }

  lemma OrMarks(visible: nat, invisible: nat)
    ensures Or(Mark(visible, invisible), VISIBLE) == Mark(visible + 1, invisible)
    ensures Or(Mark(visible, invisible), INVISIBLE) == Mark(visible, invisible + 1)
    ensures Mark(visible, invisible) == BOTH <==> visible > 0 && invisible > 0
  {
  }

  /** The undirected edge is in the list, in one direction or the other. */
  predicate Listed(list: seq<(int, int)>, x: int, y: int) {
    (x, y) in list || (y, x) in list
  }

  /** No undirected edge is in the list twice. */
  ghost predicate OnceEach(list: seq<(int, int)>) {
    forall k, l :: 0 <= k < l < |list| ==> list[k] != list[l] && list[k] != (list[l].1, list[l].0)
  }

  /** x - y was met from both kinds of facet. */
  ghost predicate Horizon(sides: seq<Side>, x: int, y: int) {
    Met(sides, x, y, true) > 0 && Met(sides, x, y, false) > 0
  }

  /** The edge table after some sides. */
  ghost predicate Marked(marks: array2<int>, sides: seq<Side>, n: nat)
    reads marks
  {
    marks.Length0 == n && marks.Length1 == n &&
    forall x, y :: 0 <= x < n && 0 <= y < n ==> marks[x, y] == Mark(Met(sides, x, y, true), Met(sides, x, y, false))
  }

  ghost predicate InRange(list: seq<(int, int)>, n: nat) {
    forall k :: 0 <= k < |list| ==> 0 <= list[k].0 < n && 0 <= list[k].1 < n && list[k].0 != list[k].1
  }

  /** The list names the horizon of the sides met, each edge once. */
  ghost predicate ListsHorizon(list: seq<(int, int)>, sides: seq<Side>) {
    OnceEach(list) && forall x, y :: Listed(list, x, y) <==> Horizon(sides, x, y)
  }

  /** At most one facet so far has the side. */
  ghost predicate MetOnce(sides: seq<Side>, x: int, y: int) {
    Met(sides, x, y, true) + Met(sides, x, y, false) <= 1
  }

  // Scanning the facets ------------------------------------------------------------------------------------

  /** Sets the bit of one side in both directions. */
  method MarkSide(marks: array2<int>, ghost sides: seq<Side>, x: int, y: int, visible: bool, n: nat) returns (bits: int)
    requires 0 <= x < n && 0 <= y < n && x != y && Marked(marks, sides, n)
    modifies marks
    ensures Marked(marks, sides + [Side(x, y, visible)], n)
    ensures bits == BOTH <==> Horizon(sides + [Side(x, y, visible)], x, y)
  {
    hide Met, Mark, Or;
    var bit := if visible then VISIBLE else INVISIBLE;
    ghost var s := Side(x, y, visible);
    OrMarks(Met(sides, x, y, true), Met(sides, x, y, false));
    OrMarks(Met(sides + [s], x, y, true), Met(sides + [s], x, y, false));
    MetSymmetric(sides, x, y, true);
    MetSymmetric(sides, x, y, false);
    forall u, v ensures Met(sides + [s], u, v, true) == Met(sides, u, v, true) + One(visible && Along(s, u, v))
                     && Met(sides + [s], u, v, false) == Met(sides, u, v, false) + One(!visible && Along(s, u, v)) {
      MetNext(sides, s, u, v, true);
      MetNext(sides, s, u, v, false);
    }
    marks[x, y] := Or(marks[x, y], bit);
    bits := marks[x, y];
    marks[y, x] := Or(marks[y, x], bit);
  }

  /** The list grows exactly when the side was met once before, from the other kind. */
  lemma HorizonNext(list: seq<(int, int)>, sides: seq<Side>, s: Side, more: seq<(int, int)>)
    requires ListsHorizon(list, sides) && s.x != s.y && MetOnce(sides, s.x, s.y)
    requires more == if Horizon(sides + [s], s.x, s.y) then list + [(s.x, s.y)] else list
    ensures ListsHorizon(more, sides + [s])
  {
    hide Met;
    MetSymmetric(sides, s.x, s.y, true);
    MetSymmetric(sides, s.x, s.y, false);
    MetSymmetric(sides + [s], s.x, s.y, true);
    MetSymmetric(sides + [s], s.x, s.y, false);
    assert !Horizon(sides, s.x, s.y);
    assert !Listed(list, s.x, s.y);
    assert OnceEach(more);
    forall x, y ensures Listed(more, x, y) <==> Horizon(sides + [s], x, y) {
      MetNext(sides, s, x, y, true);
      MetNext(sides, s, x, y, false);
      assert Listed(list, x, y) <==> Horizon(sides, x, y);
    }
  }

  /** A side of f that no other side of f repeats is still met at most once so far. */
  lemma OnceStill(sides: seq<Side>, s: Side, x: int, y: int)
    requires MetOnce(sides, x, y) && !Along(s, x, y)
    ensures MetOnce(sides + [s], x, y)
  {
    MetNext(sides, s, x, y, true);
    MetNext(sides, s, x, y, false);
  }

  /** One side: its bits, and its place in the list when both bits are set. */
  method TakeSide(marks: array2<int>, ghost sides: seq<Side>, x: int, y: int, visible: bool, toAdd: seq<(int, int)>,
                  n: nat)
    returns (more: seq<(int, int)>)
    requires 0 <= x < n && 0 <= y < n && x != y && Marked(marks, sides, n)
    requires ListsHorizon(toAdd, sides) && InRange(toAdd, n) && MetOnce(sides, x, y)
    modifies marks
    ensures Marked(marks, sides + [Side(x, y, visible)], n)
    ensures ListsHorizon(more, sides + [Side(x, y, visible)]) && InRange(more, n)
  {
    hide ListsHorizon;
    hide MetOnce;
    var bits := MarkSide(marks, sides, x, y, visible, n);
    more := if bits == BOTH then toAdd + [(x, y)] else toAdd;
    HorizonNext(toAdd, sides, Side(x, y, visible), more);
  }

  /** The three sides of a facet. */
  method TakeFacet(marks: array2<int>, ghost seen: seq<Facet>, f: Facet, visible: bool, toAdd: seq<(int, int)>, n: nat,
                   ghost vis: Facet -> bool) returns (more: seq<(int, int)>)
    requires Proper(f, n) && visible == vis(f) && Marked(marks, SidesOf(seen, vis), n)
    requires ListsHorizon(toAdd, SidesOf(seen, vis)) && InRange(toAdd, n)
    requires forall x, y :: HasEdge(f, x, y) ==> MetOnce(SidesOf(seen, vis), x, y)
    modifies marks
    ensures Marked(marks, SidesOf(seen + [f], vis), n)
    ensures ListsHorizon(more, SidesOf(seen + [f], vis)) && InRange(more, n)
  {
    hide ListsHorizon;
    hide MetOnce;
    hide Marked;
    hide InRange;
    hide SidesOf;
    ghost var sides := SidesOf(seen, vis);
    ghost var s, t := Side(f.a, f.b, vis(f)), Side(f.b, f.c, vis(f));
    assert HasEdge(f, f.a, f.b) && HasEdge(f, f.b, f.c) && HasEdge(f, f.c, f.a);
    more := TakeSide(marks, sides, f.a, f.b, visible, toAdd, n);
    OnceStill(sides, s, f.b, f.c);
    more := TakeSide(marks, sides + [s], f.b, f.c, visible, more, n);
    OnceStill(sides, s, f.c, f.a);
    OnceStill(sides + [s], t, f.c, f.a);
    more := TakeSide(marks, sides + [s] + [t], f.c, f.a, visible, more, n);
    SidesOfNext(seen, f, vis);
  }

  /** With every side in at most two facets, the next facet has no side that was met twice. */
  lemma NextMetOnce(all: seq<Facet>, seen: seq<Facet>, f: Facet, rest: seq<Facet>, vis: Facet -> bool, n: nat, x: int,
                    y: int)
    requires AllProper(seen, n) && Closed(all) && HasEdge(f, x, y)
    requires multiset(seen + ([f] + rest)) == multiset(all)
    ensures MetOnce(SidesOf(seen, vis), x, y)
  {
    hide Sides, Select, Met, SidesOf;
    MetIsSides(seen, vis, n, x, y, true);
    MetIsSides(seen, vis, n, x, y, false);
    SelectSplits(seen, vis, x, y);
    SidesShuffled(seen + ([f] + rest), all, x, y);
    SidesAppend(seen, [f] + rest, x, y);
    SidesAppend([f], rest, x, y);
    SidesOne(f, x, y);
  }

  /** Copying the last facet over the one at j removes that one from those to come. */
  lemma SwapDelete(a: seq<Facet>, j: int, m: int, seen: seq<Facet>, all: seq<Facet>, n: nat)
    requires 0 <= j < m <= |a| && multiset(seen + a[j..m]) == multiset(all) && AllProper(a[j..m], n)
    ensures var b := a[j := a[m - 1]];
      b[..j] == a[..j] && multiset((seen + [a[j]]) + b[j..m - 1]) == multiset(all) && AllProper(b[j..m - 1], n)
  {
    hide AllProper;
    SwapProper(a, j, m, n);
    var b := a[j := a[m - 1]];
    assert a[j..m] == [a[j]] + a[j + 1..m];
    if j == m - 1 {
      assert b[j..m - 1] == a[j + 1..m];
    } else {
      assert b[j..m - 1] == [a[m - 1]] + a[j + 1..m - 1];
      assert a[j + 1..m] == a[j + 1..m - 1] + [a[m - 1]];
    }
  }

  lemma SwapProper(a: seq<Facet>, j: int, m: int, n: nat)
    requires 0 <= j < m <= |a| && AllProper(a[j..m], n)
    ensures AllProper(a[j := a[m - 1]][j..m - 1], n)
  {
    var rest := a[j := a[m - 1]][j..m - 1];
    forall i | 0 <= i < |rest| ensures Proper(rest[i], n) {
      assert Proper(a[j..m][if i == 0 then m - 1 - j else i], n);
    }
  }

  /** Going on past the facet at j. */
  lemma GoOn(a: seq<Facet>, j: int, m: int, seen: seq<Facet>, all: seq<Facet>, n: nat)
    requires 0 <= j < m <= |a| && multiset(seen + a[j..m]) == multiset(all) && AllProper(a[j..m], n)
    ensures multiset((seen + [a[j]]) + a[j + 1..m]) == multiset(all) && AllProper(a[j + 1..m], n)
  {
    assert seen + a[j..m] == (seen + [a[j]]) + a[j + 1..m];
    var rest := a[j + 1..m];
    forall i | 0 <= i < |rest| ensures Proper(rest[i], n) {
      assert Proper(a[j..m][i + 1], n);
    }
  }

  lemma ProperNext(seen: seq<Facet>, f: Facet, n: nat)
    requires AllProper(seen, n) && Proper(f, n)
    ensures AllProper(seen + [f], n)
  {
  }

  lemma EveryMetOnce(all: seq<Facet>, seen: seq<Facet>, f: Facet, rest: seq<Facet>, vis: Facet -> bool, n: nat)
    requires AllProper(seen, n) && Closed(all)
    requires multiset(seen + ([f] + rest)) == multiset(all)
    ensures forall x, y :: HasEdge(f, x, y) ==> MetOnce(SidesOf(seen, vis), x, y)
  {
    forall x, y | HasEdge(f, x, y) ensures MetOnce(SidesOf(seen, vis), x, y) {
      NextMetOnce(all, seen, f, rest, vis, n, x, y);
    }
  }

  lemma FirstProper(facets: seq<Facet>, n: nat)
    requires AllProper(facets, n) && |facets| > 0
    ensures Proper(facets[0], n)
  {
  }

  lemma NothingSeen(vis: Facet -> bool, n: nat)
    ensures Select([], vis, false) == [] && AllProper([], n) && ListsHorizon([], SidesOf([], vis)) && InRange([], n)
  {
  }

  method NoMarks(ghost vis: Facet -> bool, n: nat) returns (marks: array2<int>)
    ensures fresh(marks) && Marked(marks, SidesOf([], vis), n)
  {
    marks := new int[n, n]((_, _) => 0);
  }

  // The cone over the horizon ------------------------------------------------------------------------------

  /** The triple up to rotation. */
  predicate Rotates(f: Facet, a: int, b: int, c: int) {
    f == Facet(a, b, c) || f == Facet(b, c, a) || f == Facet(c, a, b)
  }

  /** A facet over the side x - y with apex i, its least vertex first, in one of the two orientations. */
  predicate Spans(f: Facet, i: int, x: int, y: int) {
    f.a < f.b && f.a < f.c && (Rotates(f, i, x, y) || Rotates(f, x, i, y))
  }

  ghost predicate IsCone(cone: seq<Facet>, i: int, toAdd: seq<(int, int)>) {
    |cone| == |toAdd| && forall k :: 0 <= k < |cone| ==> Spans(cone[k], i, toAdd[k].0, toAdd[k].1)
  }

  ghost predicate Avoids(facets: seq<Facet>, i: int) {
    forall k :: 0 <= k < |facets| ==> !Has(facets[k], i)
  }

  ghost predicate ListAvoids(toAdd: seq<(int, int)>, i: int) {
    forall k :: 0 <= k < |toAdd| ==> toAdd[k].0 != i && toAdd[k].1 != i
  }

  /** How many of the listed edges end at v. */
  function Degree(list: seq<(int, int)>, v: int): nat {
    if list == [] then 0 else
      Degree(list[..|list| - 1], v) + One(list[|list| - 1].0 == v || list[|list| - 1].1 == v)
  }

  function DegreeSum(list: seq<(int, int)>, n: nat): nat {
    if n == 0 then 0 else DegreeSum(list, n - 1) + Degree(list, n - 1)
  }

  lemma {:induction false} NoDegrees(n: nat)
    ensures DegreeSum([], n) == 0
  {
    if n > 0 {
      NoDegrees(n - 1);
    }
  }

  /** One more edge adds one to the degree of each of its ends. */
  lemma {:induction false} DegreeSumNext(list: seq<(int, int)>, n: nat)
    requires list != [] && list[|list| - 1].0 != list[|list| - 1].1
    ensures DegreeSum(list, n) == DegreeSum(list[..|list| - 1], n)
      + One(0 <= list[|list| - 1].0 < n) + One(0 <= list[|list| - 1].1 < n)
  {
    if n > 0 {
      DegreeSumNext(list, n - 1);
    }
  }

  lemma {:induction false} DegreesTwice(list: seq<(int, int)>, n: nat)
    requires InRange(list, n)
    ensures DegreeSum(list, n) == 2 * |list|
  {
    if list == [] {
      NoDegrees(n);
    } else {
      DegreesTwice(list[..|list| - 1], n);
      DegreeSumNext(list, n);
    }
  }

  lemma {:induction false} DegreesAtMost(list: seq<(int, int)>, n: nat)
    requires forall v :: Degree(list, v) <= 2
    ensures DegreeSum(list, n) <= 2 * n
  {
    if n > 0 {
      DegreesAtMost(list, n - 1);
    }
  }

  /** A horizon on which no vertex meets more than two edges has no more edges than there are vertices. With the
      seventeen points of the largest template it fits the 28 places. */
  lemma HorizonFits(list: seq<(int, int)>, n: nat)
    requires InRange(list, n) && forall v :: Degree(list, v) <= 2
    ensures |list| <= n && (n <= MAX_POINTS ==> |list| <= MAX_FACETS)
  {
    DegreesTwice(list, n);
    DegreesAtMost(list, n);
  }

  /** The same degree, counted at the other ends. */
  function Ends(list: seq<(int, int)>, v: int, m: nat): nat {
    if m == 0 then 0 else Ends(list, v, m - 1) + One(Listed(list, v, m - 1))
  }

  /** All sides at v, counted at the other ends. */
  function SidesAt(facets: seq<Facet>, v: int, m: nat): nat {
    if m == 0 then 0 else SidesAt(facets, v, m - 1) + Sides(facets, v, m - 1)
  }

  /** How many facets have the vertex. */
  function Around(facets: seq<Facet>, v: int): nat {
    if facets == [] then 0 else Around(facets[..|facets| - 1], v) + One(Has(facets[|facets| - 1], v))
  }

  /** How many numbers below m are p or q. */
  function Ticks(p: int, q: int, m: nat): nat {
    if m == 0 then 0 else Ticks(p, q, m - 1) + One(m - 1 == p || m - 1 == q)
  }

  lemma {:induction false} TwoTicks(p: int, q: int, m: nat)
    requires p != q && 0 <= p && 0 <= q
    ensures Ticks(p, q, m) == One(p < m) + One(q < m)
  {
    if m > 0 {
      TwoTicks(p, q, m - 1);
    }
  }

  lemma {:induction false} SidesAtNext(less: seq<Facet>, f: Facet, v: int, p: int, q: int, m: nat)
    requires forall y :: HasEdge(f, v, y) <==> y == p || y == q
    ensures SidesAt(less + [f], v, m) == SidesAt(less, v, m) + Ticks(p, q, m)
  {
    if m > 0 {
      SidesAtNext(less, f, v, p, q, m - 1);
      SidesAppend(less, [f], v, m - 1);
      SidesOne(f, v, m - 1);
    }
  }

  lemma {:induction false} SidesAtSame(less: seq<Facet>, f: Facet, v: int, m: nat)
    requires !Has(f, v)
    ensures SidesAt(less + [f], v, m) == SidesAt(less, v, m)
  {
    if m > 0 {
      SidesAtSame(less, f, v, m - 1);
      SidesAppend(less, [f], v, m - 1);
      SidesOne(f, v, m - 1);
    }
  }

  lemma {:induction false} NoSides(v: int, m: nat)
    ensures SidesAt([], v, m) == 0
  {
    if m > 0 {
      NoSides(v, m - 1);
    }
  }

  /** Every facet at v has two sides there. */
  lemma {:induction false} SidesInPairs(facets: seq<Facet>, v: int, n: nat)
    requires AllProper(facets, n)
    ensures SidesAt(facets, v, n) == 2 * Around(facets, v)
  {
    if facets == [] {
      NoSides(v, n);
    } else {
      var less, f := facets[..|facets| - 1], facets[|facets| - 1];
      assert Proper(f, n) && facets == less + [f];
      SidesInPairs(less, v, n);
      if Has(f, v) {
        var p := if v == f.a then f.b else f.a;
        var q := if v == f.c then f.b else f.c;
        SidesAtNext(less, f, v, p, q, n);
        TwoTicks(p, q, n);
      } else {
        SidesAtSame(less, f, v, n);
      }
    }
  }

  /** A horizon edge is one with exactly one visible side, so the two counts agree modulo two. */
  lemma {:induction false} SameParity(seen: seq<Facet>, vis: Facet -> bool, list: seq<(int, int)>, v: int, n: nat,
                                      m: nat)
    requires AllProper(seen, n) && Closed(seen) && ListsHorizon(list, SidesOf(seen, vis)) && InRange(list, n)
    ensures Ends(list, v, m) % 2 == SidesAt(Select(seen, vis, true), v, m) % 2
  {
    hide AllProper, Closed, ListsHorizon, SidesOf, InRange, Sides, Listed, Select;
    if m > 0 {
      SameParity(seen, vis, list, v, n, m - 1);
      HorizonCounts(seen, vis, list, v, m - 1, n);
    }
  }

  /** The visible and the hidden sides of an edge, when it is on the horizon and when it is not. */
  lemma HorizonCounts(seen: seq<Facet>, vis: Facet -> bool, list: seq<(int, int)>, x: int, y: int, n: nat)
    requires AllProper(seen, n) && Closed(seen) && ListsHorizon(list, SidesOf(seen, vis)) && InRange(list, n)
    ensures Listed(list, x, y) ==>
      Sides(Select(seen, vis, true), x, y) == 1 && Sides(Select(seen, vis, false), x, y) == 1
    ensures !Listed(list, x, y) ==>
      Sides(Select(seen, vis, true), x, y) in {0, 2} && Sides(Select(seen, vis, false), x, y) in {0, 2}
  {
    if x == y {
      NoLoop(Select(seen, vis, true), x);
      NoLoop(Select(seen, vis, false), x);
    } else {
      SelectSplits(seen, vis, x, y);
      MetIsSides(seen, vis, n, x, y, true);
      MetIsSides(seen, vis, n, x, y, false);
      assert Listed(list, x, y) <==> Horizon(SidesOf(seen, vis), x, y);
    }
  }

  lemma {:induction false} NoLoop(facets: seq<Facet>, x: int)
    ensures Sides(facets, x, x) == 0
  {
    if facets != [] {
      NoLoop(facets[..|facets| - 1], x);
    }
  }

  lemma {:induction false} EndsNext(less: seq<(int, int)>, e: (int, int), v: int, m: nat)
    requires e.0 != e.1 && 0 <= e.0 && 0 <= e.1 && !Listed(less, e.0, e.1)
    ensures Ends(less + [e], v, m) == Ends(less, v, m) + One((v == e.0 && e.1 < m) || (v == e.1 && e.0 < m))
  {
    if m > 0 {
      EndsNext(less, e, v, m - 1);
      assert Listed(less + [e], v, m - 1) <==> Listed(less, v, m - 1) || (v, m - 1) == e || (m - 1, v) == e;
    }
  }

  lemma {:induction false} NoEnds(v: int, m: nat)
    ensures Ends([], v, m) == 0
  {
    if m > 0 {
      NoEnds(v, m - 1);
    }
  }

  lemma FirstPart(list: seq<(int, int)>, n: nat)
    requires OnceEach(list) && InRange(list, n) && list != []
    ensures var less, e := list[..|list| - 1], list[|list| - 1];
      OnceEach(less) && InRange(less, n) && !Listed(less, e.0, e.1) && e.0 != e.1 && 0 <= e.0 < n && 0 <= e.1 < n
  {
  }

  lemma {:induction false} DegreeIsEnds(list: seq<(int, int)>, v: int, n: nat)
    requires OnceEach(list) && InRange(list, n)
    ensures Degree(list, v) == Ends(list, v, n)
  {
    if list == [] {
      NoEnds(v, n);
    } else {
      var less, e := list[..|list| - 1], list[|list| - 1];
      FirstPart(list, n);
      DegreeIsEnds(less, v, n);
      EndsNext(less, e, v, n);
      assert less + [e] == list;
    }
  }

  /** The horizon of a closed surface meets every vertex an even number of times. */
  lemma HorizonIsEven(seen: seq<Facet>, vis: Facet -> bool, list: seq<(int, int)>, v: int, n: nat)
    requires AllProper(seen, n) && Closed(seen) && ListsHorizon(list, SidesOf(seen, vis)) && InRange(list, n)
    ensures Degree(list, v) % 2 == 0
  {
    DegreeIsEnds(list, v, n);
    SameParity(seen, vis, list, v, n, n);
    SelectProper(seen, vis, true, n);
    SidesInPairs(Select(seen, vis, true), v, n);
  }

  lemma {:induction false} SelectProper(facets: seq<Facet>, vis: Facet -> bool, want: bool, n: nat)
    requires AllProper(facets, n)
    ensures AllProper(Select(facets, vis, want), n)
  {
    if facets != [] {
      SelectProper(facets[..|facets| - 1], vis, want, n);
      assert Proper(facets[|facets| - 1], n);
    }
  }

  lemma ConeSide(f: Facet, i: int, e: (int, int), x: int, y: int)
    requires Spans(f, i, e.0, e.1) && x != i && y != i && x != y && e.0 != e.1
    ensures HasEdge(f, x, y) <==> e == (x, y) || e == (y, x)
  {
  }

  /** Away from the apex the cone has the listed sides, once each. */
  lemma {:induction false} ConeAway(cone: seq<Facet>, i: int, list: seq<(int, int)>, x: int, y: int, n: nat)
    requires IsCone(cone, i, list) && OnceEach(list) && InRange(list, n) && x != i && y != i && x != y
    ensures Sides(cone, x, y) == One(Listed(list, x, y))
  {
    if list != [] {
      var less, e := list[..|list| - 1], list[|list| - 1];
      FirstPart(list, n);
      ConeAway(cone[..|cone| - 1], i, less, x, y, n);
      ConeSide(cone[|cone| - 1], i, e, x, y);
      assert list == less + [e];
      hide Spans, HasEdge;
      assert Listed(list, x, y) <==> Listed(less, x, y) || e == (x, y) || e == (y, x);
    }
  }

  /** At the apex there is a side to v for every listed edge at v. */
  lemma {:induction false} ConeAtApex(cone: seq<Facet>, i: int, list: seq<(int, int)>, v: int)
    requires IsCone(cone, i, list) && ListAvoids(list, i) && v != i
    ensures Sides(cone, i, v) == Degree(list, v)
  {
    if list != [] {
      ConeAtApex(cone[..|cone| - 1], i, list[..|list| - 1], v);
      assert Spans(cone[|cone| - 1], i, list[|list| - 1].0, list[|list| - 1].1);
    }
  }

  lemma {:induction false} NoSidesThere(facets: seq<Facet>, i: int, x: int)
    requires Avoids(facets, i)
    ensures Sides(facets, i, x) == 0 && Sides(facets, x, i) == 0
  {
    if facets != [] {
      NoSidesThere(facets[..|facets| - 1], i, x);
      assert !Has(facets[|facets| - 1], i);
    }
  }

  lemma {:induction false} SelectAvoids(facets: seq<Facet>, vis: Facet -> bool, want: bool, i: int)
    requires Avoids(facets, i)
    ensures Avoids(Select(facets, vis, want), i)
  {
    if facets != [] {
      SelectAvoids(facets[..|facets| - 1], vis, want, i);
      assert !Has(facets[|facets| - 1], i);
    }
  }

  /** A new point is not on the horizon. */
  lemma HorizonAvoids(seen: seq<Facet>, vis: Facet -> bool, list: seq<(int, int)>, i: int, n: nat)
    requires AllProper(seen, n) && Avoids(seen, i) && ListsHorizon(list, SidesOf(seen, vis)) && InRange(list, n)
    ensures ListAvoids(list, i)
  {
    SelectAvoids(seen, vis, true, i);
    forall k | 0 <= k < |list| ensures list[k].0 != i && list[k].1 != i {
      var x, y := list[k].0, list[k].1;
      assert Listed(list, x, y);
      assert Horizon(SidesOf(seen, vis), x, y);
      MetIsSides(seen, vis, n, x, y, true);
      if x == i || y == i {
        NoSidesThere(Select(seen, vis, true), i, if x == i then y else x);
      }
    }
  }

  /** What became of the surface: the hidden facets and the cone. */
  ghost predicate Inserted(facets: seq<Facet>, seen: seq<Facet>, vis: Facet -> bool, toAdd: seq<(int, int)>, i: int) {
    exists cone: seq<Facet> :: IsCone(cone, i, toAdd) && facets == Select(seen, vis, false) + cone
  }

  /** Every edge away from the new point is again in two facets or in none. */
  lemma InsertedAway(facets: seq<Facet>, seen: seq<Facet>, vis: Facet -> bool, toAdd: seq<(int, int)>, i: int, n: nat,
                     x: int, y: int)
    requires AllProper(seen, n) && Closed(seen) && ListsHorizon(toAdd, SidesOf(seen, vis)) && InRange(toAdd, n)
    requires Inserted(facets, seen, vis, toAdd, i) && x != i && y != i && x != y
    ensures Sides(facets, x, y) in {0, 2}
  {
    var cone: seq<Facet> :| IsCone(cone, i, toAdd) && facets == Select(seen, vis, false) + cone;
    SidesAppend(Select(seen, vis, false), cone, x, y);
    ConeAway(cone, i, toAdd, x, y, n);
    HorizonCounts(seen, vis, toAdd, x, y, n);
  }

  /** An edge at the new point is in as many facets as there are horizon edges at its other end: an even number. */
  lemma InsertedAt(facets: seq<Facet>, seen: seq<Facet>, vis: Facet -> bool, toAdd: seq<(int, int)>, i: int, n: nat,
                   v: int)
    requires AllProper(seen, n) && Closed(seen) && ListsHorizon(toAdd, SidesOf(seen, vis)) && InRange(toAdd, n)
    requires Inserted(facets, seen, vis, toAdd, i) && Avoids(seen, i) && v != i
    ensures Sides(facets, i, v) == Sides(facets, v, i) == Degree(toAdd, v)
    ensures Degree(toAdd, v) % 2 == 0
  {
    var cone: seq<Facet> :| IsCone(cone, i, toAdd) && facets == Select(seen, vis, false) + cone;
    SidesAppend(Select(seen, vis, false), cone, i, v);
    SelectAvoids(seen, vis, false, i);
    NoSidesThere(Select(seen, vis, false), i, v);
    HorizonAvoids(seen, vis, toAdd, i, n);
    ConeAtApex(cone, i, toAdd, v);
    SidesSymmetric(facets, i, v);
    HorizonIsEven(seen, vis, toAdd, v, n);
  }

  /** The surface is closed again exactly when no vertex has more than two horizon edges. */
  lemma ClosedAgain(facets: seq<Facet>, seen: seq<Facet>, vis: Facet -> bool, toAdd: seq<(int, int)>, i: int, n: nat)
    requires AllProper(seen, n) && Closed(seen) && ListsHorizon(toAdd, SidesOf(seen, vis)) && InRange(toAdd, n)
    requires Inserted(facets, seen, vis, toAdd, i) && Avoids(seen, i)
    ensures Closed(facets) <==> forall v :: Degree(toAdd, v) <= 2
  {
    hide Sides, Degree, Inserted, Avoids, AllProper, ListsHorizon, InRange, SidesOf, Select;
    HorizonAvoids(seen, vis, toAdd, i, n);
    NoDegree(toAdd, i);
    forall v | v != i
      ensures Sides(facets, i, v) == Sides(facets, v, i) == Degree(toAdd, v)
      ensures Degree(toAdd, v) % 2 == 0
    {
      InsertedAt(facets, seen, vis, toAdd, i, n, v);
    }
    forall x, y | x != i && y != i && x != y ensures Sides(facets, x, y) in {0, 2} {
      InsertedAway(facets, seen, vis, toAdd, i, n, x, y);
    }
    ClosedByDegrees(facets, toAdd, i);
  }

  lemma ClosedByDegrees(facets: seq<Facet>, toAdd: seq<(int, int)>, i: int)
    requires forall v :: v != i ==> Sides(facets, i, v) == Sides(facets, v, i) == Degree(toAdd, v)
    requires forall v :: v != i ==> Degree(toAdd, v) % 2 == 0
    requires forall x, y :: x != i && y != i && x != y ==> Sides(facets, x, y) in {0, 2}
    requires Degree(toAdd, i) == 0
    ensures Closed(facets) <==> forall v :: Degree(toAdd, v) <= 2
  {
    hide Sides, Degree;
    if Closed(facets) {
      forall v ensures Degree(toAdd, v) <= 2 {
        if v != i {
          assert Sides(facets, i, v) == 0 || Sides(facets, i, v) == 2;
        }
      }
    } else {
      var x, y :| x != y && Sides(facets, x, y) != 0 && Sides(facets, x, y) != 2;
      var v := if x == i then y else x;
      assert x == i || y == i;
      assert Degree(toAdd, v) == Sides(facets, x, y);
      assert Degree(toAdd, v) % 2 == 0;
      assert Degree(toAdd, v) > 2;
    }
  }

  lemma {:induction false} NoDegree(list: seq<(int, int)>, i: int)
    requires ListAvoids(list, i)
    ensures Degree(list, i) == 0
  {
    if list != [] {
      NoDegree(list[..|list| - 1], i);
      assert list[|list| - 1].0 != i;
    }
  }

  /** Every edge is in an even number of facets. */
  lemma EvenAgain(facets: seq<Facet>, seen: seq<Facet>, vis: Facet -> bool, toAdd: seq<(int, int)>, i: int, n: nat)
    requires AllProper(seen, n) && Closed(seen) && ListsHorizon(toAdd, SidesOf(seen, vis)) && InRange(toAdd, n)
    requires Inserted(facets, seen, vis, toAdd, i) && Avoids(seen, i)
    ensures forall x, y :: x != y ==> Sides(facets, x, y) % 2 == 0
  {
    hide *;
    forall x, y | x != y ensures Sides(facets, x, y) % 2 == 0 {
      if x == i {
        InsertedAt(facets, seen, vis, toAdd, i, n, y);
      } else if y == i {
        InsertedAt(facets, seen, vis, toAdd, i, n, x);
      } else {
        InsertedAway(facets, seen, vis, toAdd, i, n, x, y);
      }
    }
  }

  lemma IsInserted(facets: seq<Facet>, seen: seq<Facet>, vis: Facet -> bool, toAdd: seq<(int, int)>, i: int,
                   cone: seq<Facet>)
    requires IsCone(cone, i, toAdd) && facets == Select(seen, vis, false) + cone
    ensures Inserted(facets, seen, vis, toAdd, i)
  {
    hide IsCone, Select;
  }

  lemma ListedOnce(list: seq<(int, int)>, sides: seq<Side>)
    requires ListsHorizon(list, sides)
    ensures OnceEach(list)
  {
  }

  lemma AvoidsShuffled(s: seq<Facet>, t: seq<Facet>, i: int)
    requires multiset(s) == multiset(t) && Avoids(s, i)
    ensures Avoids(t, i)
  {
    forall k | 0 <= k < |t| ensures !Has(t[k], i) {
      assert t[k] in multiset(t);
      assert t[k] in s;
    }
  }

  lemma ClosedShuffled(s: seq<Facet>, t: seq<Facet>)
    requires multiset(s) == multiset(t) && Closed(s)
    ensures Closed(t)
  {
    hide Sides;
    forall x, y | x != y ensures Sides(t, x, y) == 0 || Sides(t, x, y) == 2 {
      SidesShuffled(s, t, x, y);
    }
  }

  lemma ConeProper(kept: seq<Facet>, cone: seq<Facet>, i: int, toAdd: seq<(int, int)>, n: nat)
    requires AllProper(kept, n) && IsCone(cone, i, toAdd) && InRange(toAdd, n) && ListAvoids(toAdd, i) && 0 <= i < n
    ensures AllProper(kept + cone, n)
  {
    forall k | 0 <= k < |cone| ensures Proper(cone[k], n) {
      assert Spans(cone[k], i, toAdd[k].0, toAdd[k].1);
    }
  }

  /** One of the four facets of a simplex, in one of the two orientations. */
  predicate Covers(f: Facet, x: int, y: int, z: int) {
    Rotates(f, x, y, z) || Rotates(f, y, x, z)
  }

  lemma FourSides(f0: Facet, f1: Facet, f2: Facet, f3: Facet, x: int, y: int)
    ensures Sides([f0, f1, f2, f3], x, y) ==
      One(HasEdge(f0, x, y)) + One(HasEdge(f1, x, y)) + One(HasEdge(f2, x, y)) + One(HasEdge(f3, x, y))
  {
    hide Sides, HasEdge;
    assert [f0, f1, f2, f3] == (([f0] + [f1]) + [f2]) + [f3];
    SidesAppend(([f0] + [f1]) + [f2], [f3], x, y);
    SidesAppend([f0] + [f1], [f2], x, y);
    SidesAppend([f0], [f1], x, y);
    SidesOne(f0, x, y);
    SidesOne(f1, x, y);
    SidesOne(f2, x, y);
    SidesOne(f3, x, y);
  }

  lemma CoversHas(f: Facet, x: int, y: int, z: int)
    requires Covers(f, x, y, z)
    ensures forall v :: Has(f, v) <==> v == x || v == y || v == z
  {
  }

  /** The four facets over four different vertices are a closed surface. */
  lemma SimplexClosed(f0: Facet, f1: Facet, f2: Facet, f3: Facet, a: int, b: int, c: int, d: int)
    requires a != b && a != c && a != d && b != c && b != d && c != d
    requires Covers(f0, a, b, c) && Covers(f1, a, b, d) && Covers(f2, a, c, d) && Covers(f3, b, c, d)
    ensures Closed([f0, f1, f2, f3])
  {
    hide Sides, Covers;
    CoversHas(f0, a, b, c);
    CoversHas(f1, a, b, d);
    CoversHas(f2, a, c, d);
    CoversHas(f3, b, c, d);
    forall x, y | x != y
      ensures Sides([f0, f1, f2, f3], x, y) == 0 || Sides([f0, f1, f2, f3], x, y) == 2
    {
      FourSides(f0, f1, f2, f3, x, y);
    }
  }

  /** They are facets of those four vertices only. */
  lemma SimplexProper(f0: Facet, f1: Facet, f2: Facet, f3: Facet, a: int, b: int, c: int, d: int, n: nat)
    requires 0 <= a < n && 0 <= b < n && 0 <= c < n && 0 <= d < n
    requires a != b && a != c && a != d && b != c && b != d && c != d
    requires Covers(f0, a, b, c) && Covers(f1, a, b, d) && Covers(f2, a, c, d) && Covers(f3, b, c, d)
    ensures AllProper([f0, f1, f2, f3], n)
    ensures forall i :: i != a && i != b && i != c && i != d ==> Avoids([f0, f1, f2, f3], i)
  {
    CoversProper(f0, a, b, c, n);
    CoversProper(f1, a, b, d, n);
    CoversProper(f2, a, c, d, n);
    CoversProper(f3, b, c, d, n);
    hide Covers, Proper, Has;
  }

  lemma CoversProper(f: Facet, x: int, y: int, z: int, n: nat)
    requires Covers(f, x, y, z) && 0 <= x < n && 0 <= y < n && 0 <= z < n && x != y && x != z && y != z
    ensures Proper(f, n) && forall v :: Has(f, v) <==> v == x || v == y || v == z
  {
  }

  lemma ConeNext(cone: seq<Facet>, i: int, toAdd: seq<(int, int)>, j: nat, f: Facet)
    requires j < |toAdd| && IsCone(cone, i, toAdd[..j]) && Spans(f, i, toAdd[j].0, toAdd[j].1)
    ensures IsCone(cone + [f], i, toAdd[..j + 1])
  {
  }

  /** The next facet of the cone differs from the old ones by its apex, and from the new ones by its side. */
  lemma NotThere(kept: seq<Facet>, cone: seq<Facet>, i: int, toAdd: seq<(int, int)>, j: nat, f: Facet, n: nat)
    requires Avoids(kept, i) && j < |toAdd| && IsCone(cone, i, toAdd[..j]) && Spans(f, i, toAdd[j].0, toAdd[j].1)
    requires OnceEach(toAdd) && InRange(toAdd, n) && ListAvoids(toAdd, i)
    ensures f !in kept + cone
  {
    if f in kept {
      assert Has(f, i);
    }
    forall k | 0 <= k < |cone| ensures cone[k] != f {
      OtherSide(cone[k], f, i, toAdd[k], toAdd[j]);
    }
  }

  lemma OtherSide(f: Facet, g: Facet, i: int, d: (int, int), e: (int, int))
    requires Spans(f, i, d.0, d.1) && Spans(g, i, e.0, e.1) && d.0 != i && d.1 != i && e.0 != i && e.1 != i
    requires d != e && d != (e.1, e.0)
    ensures f != g
  {
  }

  // Orientation --------------------------------------------------------------------------------------------

  /** The facet over the three vertices, turned round if `flip` says so. */
  predicate Directed(f: Facet, flip: (int, int, int) -> bool, a: int, b: int, c: int) {
    if flip(a, b, c) then Rotates(f, b, a, c) else Rotates(f, a, b, c)
  }

  /** Of the two orientations of a triangle exactly one is to be turned round, wherever one starts: the inner
      point lies strictly on one side of its plane. */
  ghost predicate FlipsOne(flip: (int, int, int) -> bool) {
    forall a, b, c :: a != b && b != c && c != a ==> flip(a, b, c) == flip(b, c, a) && flip(a, b, c) != flip(b, a, c)
  }

  /** No facet has the inner point in front of it. */
  ghost predicate Outward(facets: seq<Facet>, flip: (int, int, int) -> bool) {
    forall k :: 0 <= k < |facets| ==> !flip(facets[k].a, facets[k].b, facets[k].c)
  }

  /** A facet that is turned round where it has to be faces outward. */
  lemma DirectedOut(f: Facet, flip: (int, int, int) -> bool, a: int, b: int, c: int)
    requires FlipsOne(flip) && Directed(f, flip, a, b, c) && a != b && b != c && c != a
    ensures !flip(f.a, f.b, f.c)
  {
    assert flip(a, b, c) == flip(b, c, a) == flip(c, a, b);
    assert flip(b, a, c) == flip(a, c, b) == flip(c, b, a);
  }

  ghost predicate ConeDirected(cone: seq<Facet>, flip: (int, int, int) -> bool, i: int, toAdd: seq<(int, int)>) {
    |cone| <= |toAdd| && forall k :: 0 <= k < |cone| ==> Directed(cone[k], flip, i, toAdd[k].0, toAdd[k].1)
  }

  lemma ConeOut(cone: seq<Facet>, flip: (int, int, int) -> bool, i: int, toAdd: seq<(int, int)>, n: nat)
    requires FlipsOne(flip) && ConeDirected(cone, flip, i, toAdd) && ListAvoids(toAdd, i) && InRange(toAdd, n)
    ensures Outward(cone, flip)
  {
    hide Directed, FlipsOne;
    forall k | 0 <= k < |cone|
      ensures !flip(cone[k].a, cone[k].b, cone[k].c)
    {
      DirectedOut(cone[k], flip, i, toAdd[k].0, toAdd[k].1);
    }
  }

  /** The facets that remain are as they were. */
  lemma {:induction false} SelectOut(seen: seq<Facet>, vis: Facet -> bool, want: bool, flip: (int, int, int) -> bool)
    requires Outward(seen, flip)
    ensures Outward(Select(seen, vis, want), flip)
  {
    if seen != [] {
      SelectOut(seen[..|seen| - 1], vis, want, flip);
      assert !flip(seen[|seen| - 1].a, seen[|seen| - 1].b, seen[|seen| - 1].c);
    }
  }

  lemma BothOut(s: seq<Facet>, t: seq<Facet>, flip: (int, int, int) -> bool)
    requires Outward(s, flip) && Outward(t, flip)
    ensures Outward(s + t, flip)
  {
  }

  /** With outward facets before, what remains and the cone are outward again. */
  lemma InsertOut(all: seq<Facet>, seen: seq<Facet>, vis: Facet -> bool, cone: seq<Facet>,
                  flip: (int, int, int) -> bool, i: int, toAdd: seq<(int, int)>, n: nat)
    requires multiset(all) == multiset(seen) && ConeDirected(cone, flip, i, toAdd) && ListAvoids(toAdd, i)
    requires InRange(toAdd, n)
    ensures FlipsOne(flip) && Outward(all, flip) ==> Outward(Select(seen, vis, false) + cone, flip)
  {
    hide *;
    if FlipsOne(flip) && Outward(all, flip) {
      OutwardShuffled(all, seen, flip);
      SelectOut(seen, vis, false, flip);
      ConeOut(cone, flip, i, toAdd, n);
      BothOut(Select(seen, vis, false), cone, flip);
    }
  }

  lemma OutwardShuffled(s: seq<Facet>, t: seq<Facet>, flip: (int, int, int) -> bool)
    requires multiset(s) == multiset(t) && Outward(s, flip)
    ensures Outward(t, flip)
  {
    forall k | 0 <= k < |t|
      ensures !flip(t[k].a, t[k].b, t[k].c)
    {
      assert t[k] in multiset(t);
      assert t[k] in s;
    }
  }

  /** What the whole cone makes of the surface. */
  lemma ConeDone(facets: seq<Facet>, seen: seq<Facet>, vis: Facet -> bool, cone: seq<Facet>, i: int,
                 toAdd: seq<(int, int)>, n: nat)
    requires AllProper(seen, n) && Closed(seen) && Avoids(seen, i) && 0 <= i < n
    requires ListsHorizon(toAdd, SidesOf(seen, vis)) && InRange(toAdd, n) && ListAvoids(toAdd, i)
    requires IsCone(cone, i, toAdd) && facets == Select(seen, vis, false) + cone
    ensures Inserted(facets, seen, vis, toAdd, i) && AllProper(facets, n)
    ensures forall x, y :: x != y ==> Sides(facets, x, y) % 2 == 0
    ensures Closed(facets) <==> forall v :: Degree(toAdd, v) <= 2
  {
    hide *;
    SelectProper(seen, vis, false, n);
    ConeProper(Select(seen, vis, false), cone, i, toAdd, n);
    IsInserted(facets, seen, vis, toAdd, i, cone);
    ClosedAgain(facets, seen, vis, toAdd, i, n);
    EvenAgain(facets, seen, vis, toAdd, i, n);
  }

  const OK := 0
  const TOO_MANY := -4
  const DUPLICATE := -5

  /** No vertex number reaches this; the search for the least vertex starts from it. */
  const MANY := 9999

  /** Rotates the facet so that its least vertex comes first. */
  method LeastFirst(f: Facet) returns (r: Facet)
    requires f.a < MANY && f.b < MANY && f.c < MANY && f.a != f.b && f.b != f.c && f.c != f.a
    ensures Rotates(r, f.a, f.b, f.c) && r.a < r.b && r.a < r.c
  {
    var facet := [f.a, f.b, f.c];
    var bi, min := -1, MANY;
    assert facet[0] < MANY && facet[1] < MANY && facet[2] < MANY;
    for k := 0 to 3
      invariant if k == 0 then min == MANY else 0 <= bi < k && min == facet[bi]
      invariant forall l :: 0 <= l < k ==> min <= facet[l]
    {
      if facet[k] < min {
        min := facet[k];
        bi := k;
      }
    }
    assert min <= facet[0] && min <= facet[1] && min <= facet[2];
    r := if bi == 1 then Facet(f.b, f.c, f.a) else if bi == 2 then Facet(f.c, f.a, f.b) else f;
  }

  class Hull {
    var facets: array<Facet>
    var numFacets: nat

    ghost predicate Valid()
      reads this, facets
    {
      numFacets <= facets.Length == MAX_FACETS
    }

    ghost function Facets(): seq<Facet>
      reads this, facets
      requires Valid()
    {
      facets[..numFacets]
    }

    constructor ()
      ensures Valid() && Facets() == [] && fresh(facets)
    {
      facets := new Facet[MAX_FACETS](_ => Facet(0, 0, 0));
      numFacets := 0;
    }

    /** One facet of the first simplex, at place k. */
    method Place(k: nat, a: int, b: int, c: int, flip: (int, int, int) -> bool)
      requires Valid() && k < 4 && a != b && b != c && c != a
      requires 0 <= a < MANY && 0 <= b < MANY && 0 <= c < MANY
      modifies facets
      ensures Covers(facets[k], a, b, c) && facets[k].a < facets[k].b && facets[k].a < facets[k].c
      ensures Directed(facets[k], flip, a, b, c)
      ensures forall j :: 0 <= j < k ==> facets[j] == old(facets[j])
    {
      var f := if flip(a, b, c) then Facet(b, a, c) else Facet(a, b, c);
      facets[k] := LeastFirst(f);
    }

    /** The first four facets, over four different vertices: a closed surface that no other vertex is on. */
    method Initialize(a: int, b: int, c: int, d: int, n: nat, flip: (int, int, int) -> bool)
      requires Valid() && n <= MANY
      requires 0 <= a < n && 0 <= b < n && 0 <= c < n && 0 <= d < n
      requires a != b && a != c && a != d && b != c && b != d && c != d
      modifies this`numFacets, facets
      ensures Valid() && numFacets == 4 && AllProper(Facets(), n) && Closed(Facets())
      ensures forall i :: i != a && i != b && i != c && i != d ==> Avoids(Facets(), i)
      ensures FlipsOne(flip) ==> Outward(Facets(), flip)
    {
      hide Closed, Covers, AllProper, Avoids, Directed, FlipsOne;
      Place(0, a, b, c, flip);
      Place(1, a, b, d, flip);
      Place(2, a, c, d, flip);
      Place(3, b, c, d, flip);
      numFacets := 4;
      assert Facets() == [facets[0], facets[1], facets[2], facets[3]];
      SimplexClosed(facets[0], facets[1], facets[2], facets[3], a, b, c, d);
      SimplexProper(facets[0], facets[1], facets[2], facets[3], a, b, c, d, n);
      if FlipsOne(flip) {
        DirectedOut(facets[0], flip, a, b, c);
        DirectedOut(facets[1], flip, a, b, d);
        DirectedOut(facets[2], flip, a, c, d);
        DirectedOut(facets[3], flip, b, c, d);
      }
    }

    /** Copies the last facet over the one at j. */
    method Remove(j: nat, ghost seen: seq<Facet>, ghost all: seq<Facet>, ghost n: nat)
      requires Valid() && j < numFacets
      requires multiset(seen + facets[j..numFacets]) == multiset(all) && AllProper(facets[j..numFacets], n)
      modifies this`numFacets, facets
      ensures Valid() && numFacets == old(numFacets) - 1 && facets[..j] == old(facets[..j])
      ensures multiset((seen + [old(facets[j])]) + facets[j..numFacets]) == multiset(all)
      ensures AllProper(facets[j..numFacets], n)
    {
      hide AllProper;
      SwapDelete(facets[..], j, numFacets, seen, all, n);
      facets[j] := facets[numFacets - 1];
      numFacets := numFacets - 1;
      assert facets[..] == old(facets[..])[j := old(facets[numFacets - 1])];
      assert facets[..][..j] == facets[..j] && old(facets[..])[..j] == old(facets[..j]);
    }

    /** In the middle of a scan: those seen, less the removed, stand first, and those to come follow. */
    ghost predicate Scanning(j: int, seen: seq<Facet>, all: seq<Facet>, vis: Facet -> bool, n: nat)
      reads this, facets
    {
      && Valid() && 0 <= j <= numFacets && facets[..j] == Select(seen, vis, false)
      && multiset(seen + facets[j..numFacets]) == multiset(all)
      && AllProper(seen, n) && AllProper(facets[j..numFacets], n)
    }

    /** What is known of the next facet. */
    lemma NextFacet(j: int, seen: seq<Facet>, all: seq<Facet>, vis: Facet -> bool, n: nat)
      requires Scanning(j, seen, all, vis, n) && j < numFacets && Closed(all)
      ensures Proper(facets[j], n)
      ensures forall x, y :: HasEdge(facets[j], x, y) ==> MetOnce(SidesOf(seen, vis), x, y)
    {
      hide AllProper, MetOnce, SidesOf, Select, Closed;
      assert facets[j..numFacets] == [facets[j]] + facets[j + 1..numFacets];
      FirstProper(facets[j..numFacets], n);
      EveryMetOnce(all, seen, facets[j], facets[j + 1..numFacets], vis, n);
    }

    /** Keeps or removes the facet at j. */
    method KeepOrRemove(j: int, ghost seen: seq<Facet>, ghost all: seq<Facet>, vis: Facet -> bool,
                        ghost n: nat) returns (next: int)
      requires Scanning(j, seen, all, vis, n) && j < numFacets && Proper(facets[j], n)
      modifies this`numFacets, facets
      ensures Scanning(next, seen + [old(facets[j])], all, vis, n)
      ensures numFacets - next == old(numFacets) - j - 1
    {
      hide AllProper, Select;
      var f := facets[j];
      SelectNext(seen, f, vis, false);
      ProperNext(seen, f, n);
      if vis(f) {
        Remove(j, seen, all, n);
        next := j;
      } else {
        GoOn(facets[..], j, numFacets, seen, all, n);
        assert facets[..][j + 1..numFacets] == facets[j + 1..numFacets] &&
          facets[..][j..numFacets] == facets[j..numFacets];
        next := j + 1;
        assert facets[..next] == facets[..j] + [f];
      }
    }

    /** Looks at every facet once, in spite of the swaps, removes the visible ones and lists the horizon. */
    method Scan(vis: Facet -> bool, n: nat) returns (toAdd: seq<(int, int)>, ghost seen: seq<Facet>)
      requires Valid() && AllProper(Facets(), n) && Closed(Facets())
      modifies this`numFacets, facets
      ensures Valid() && multiset(seen) == multiset(old(Facets())) && Facets() == Select(seen, vis, false)
      ensures AllProper(seen, n)
      ensures ListsHorizon(toAdd, SidesOf(seen, vis)) && InRange(toAdd, n)
    {
      hide ListsHorizon, Closed, MetOnce, Select, SidesOf, AllProper, Marked, InRange;
      ghost var all := Facets();
      var marks := NoMarks(vis, n);
      toAdd, seen := [], [];
      NothingSeen(vis, n);
      var j := 0;
      assert seen + facets[j..numFacets] == all && facets[j..numFacets] == all && facets[..j] == [];
      while j < numFacets
        invariant Scanning(j, seen, all, vis, n)
        invariant Marked(marks, SidesOf(seen, vis), n)
        invariant ListsHorizon(toAdd, SidesOf(seen, vis)) && InRange(toAdd, n)
        decreases numFacets - j
      {
        hide Scanning;
        var f := facets[j];
        NextFacet(j, seen, all, vis, n);
        toAdd := TakeFacet(marks, seen, f, vis(f), toAdd, n, vis);
        j := KeepOrRemove(j, seen, all, vis, n);
        seen := seen + [f];
      }
      assert seen + facets[j..numFacets] == seen;
    }

    /** Writes the facet after the last one; false when it is there already. */
    method AddFacet(a: int, b: int, c: int, flip: (int, int, int) -> bool) returns (success: bool)
      requires Valid() && numFacets < MAX_FACETS && a != b && b != c && c != a
      requires 0 <= a < MANY && 0 <= b < MANY && 0 <= c < MANY
      modifies facets
      ensures Valid() && facets[..numFacets] == old(facets[..numFacets])
      ensures Spans(facets[numFacets], a, b, c)
      ensures Directed(facets[numFacets], flip, a, b, c)
      ensures success <==> facets[numFacets] !in facets[..numFacets]
    {
      var f := if flip(a, b, c) then Facet(b, a, c) else Facet(a, b, c);
      f := LeastFirst(f);
      facets[numFacets] := f;
      success := true;
      var k := 0;
      while k < numFacets
        invariant 0 <= k <= numFacets && facets[numFacets] !in facets[..k]
      {
        if facets[k] == facets[numFacets] {
          return false;
        }
        k := k + 1;
      }
    }

    /** The cone over the horizon; stops when the table is full. */
    method AddCone(i: int, toAdd: seq<(int, int)>, n: nat, flip: (int, int, int) -> bool) returns (code: int)
      requires Valid() && 0 <= i < n <= MANY && Avoids(Facets(), i)
      requires OnceEach(toAdd) && InRange(toAdd, n) && ListAvoids(toAdd, i)
      modifies this`numFacets, facets
      ensures Valid() && (code == OK || code == TOO_MANY)
      ensures code == OK <==> old(numFacets) + |toAdd| <= MAX_FACETS
      ensures numFacets == if code == OK then old(numFacets) + |toAdd| else MAX_FACETS
      ensures facets[..old(numFacets)] == old(Facets())
      ensures IsCone(facets[old(numFacets)..numFacets], i, toAdd[..numFacets - old(numFacets)])
      ensures ConeDirected(facets[old(numFacets)..numFacets], flip, i, toAdd)
    {
      hide Directed;
      ghost var kept := numFacets;
      var j := 0;
      while j < |toAdd|
        invariant 0 <= j <= |toAdd| && numFacets == kept + j <= MAX_FACETS && Valid()
        invariant facets[..kept] == old(Facets())
        invariant IsCone(facets[kept..numFacets], i, toAdd[..j])
        invariant ConeDirected(facets[kept..numFacets], flip, i, toAdd)
      {
        if numFacets >= MAX_FACETS {
          return TOO_MANY;
        }
        ghost var was := facets[..];
        assert facets[..kept] == facets[..numFacets][..kept];
        assert facets[kept..numFacets] == facets[..numFacets][kept..];
        var success := AddFacet(i, toAdd[j].0, toAdd[j].1, flip);
        assert facets[..kept] == facets[..numFacets][..kept];
        assert facets[kept..numFacets] == facets[..numFacets][kept..];
        NotThere(facets[..kept], facets[kept..numFacets], i, toAdd, j, facets[numFacets], n);
        assert facets[..numFacets] == facets[..kept] + facets[kept..numFacets];
        if !success {
          return DUPLICATE;
        }
        ConeNext(facets[kept..numFacets], i, toAdd, j, facets[numFacets]);
        numFacets := numFacets + 1;
        assert facets[kept..numFacets] == facets[kept..numFacets - 1] + [facets[numFacets - 1]];
        j := j + 1;
      }
      assert toAdd[..j] == toAdd;
      code := OK;
    }

    /**
      One point: the visible facets go, the cone over their boundary comes. Each facet is looked at once, nothing
      is added twice, and every edge keeps an even number of facets.
    */
    method Insert(i: int, n: nat, vis: Facet -> bool, flip: (int, int, int) -> bool)
      returns (code: int, ghost seen: seq<Facet>, ghost horizon: seq<(int, int)>)
      requires Valid() && AllProper(Facets(), n) && Closed(Facets())
      requires 0 <= i < n <= MANY && Avoids(Facets(), i)
      modifies this`numFacets, facets
      ensures Valid() && (code == OK || code == TOO_MANY)
      ensures multiset(seen) == multiset(old(Facets())) && ListsHorizon(horizon, SidesOf(seen, vis))
      ensures code == OK <==> |Select(seen, vis, false)| + |horizon| <= MAX_FACETS
      ensures code == OK ==> Inserted(Facets(), seen, vis, horizon, i) && AllProper(Facets(), n)
      ensures code == OK ==> forall x, y :: x != y ==> Sides(Facets(), x, y) % 2 == 0
      ensures code == OK ==> (Closed(Facets()) <==> forall v :: Degree(horizon, v) <= 2)
      ensures (forall v :: Degree(horizon, v) <= 2) && n <= MAX_POINTS ==> |horizon| <= MAX_FACETS
      ensures FlipsOne(flip) && Outward(old(Facets()), flip) ==> Outward(Facets(), flip)
    {
      hide ListsHorizon, Outward, FlipsOne, ConeDirected, Closed, Select, SidesOf, AllProper, InRange, Avoids;
      hide ListAvoids, IsCone, Sides, Degree, Inserted;
      ghost var all := Facets();
      var toAdd;
      toAdd, seen := Scan(vis, n);
      horizon := toAdd;
      AvoidsShuffled(all, seen, i);
      ClosedShuffled(all, seen);
      SelectAvoids(seen, vis, false, i);
      HorizonAvoids(seen, vis, toAdd, i, n);
      ListedOnce(toAdd, SidesOf(seen, vis));
      if forall v :: Degree(horizon, v) <= 2 {
        HorizonFits(toAdd, n);
      }
      ghost var kept := numFacets;
      code := AddCone(i, toAdd, n, flip);
      ghost var cone := facets[kept..numFacets];
      assert Facets() == Select(seen, vis, false) + cone;
      InsertOut(all, seen, vis, cone, flip, i, toAdd, n);
      if code == OK {
        assert toAdd[..numFacets - kept] == toAdd;
        ConeDone(Facets(), seen, vis, cone, i, toAdd, n);
      }
    }
  }
}
