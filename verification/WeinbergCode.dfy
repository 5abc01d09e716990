/** weinberg_coloured: the code of one walk, compared in place with the best code so far. */
module WeinbergCode {
  import opened RotationSystem
  import opened WeinbergWalk

  type Int8 = x: int | -128 <= x < 128

  /** A vertex is labelled by its colour and its number in the order of discovery. */
  function Label(g: Surface, colours: seq<int>, v: int, number: int): int
    requires 0 <= v < |colours|
  {
    colours[v] * g.n + number
  }

  /** Colours small enough for every label to fit a signed byte. */
  predicate LabelsFit(g: Surface, colours: seq<int>) {
    |colours| == g.n && forall v :: 0 <= v < g.n ==> 0 <= colours[v] && Label(g, colours, v, g.n) <= 128
  }

  /** The vertices found have the numbers from zero on, each once. */
  ghost predicate Numbered(found: map<int, int>) {
    (forall v :: v in found ==> 0 <= found[v] < |found|) &&
    (forall u, v :: u in found && v in found && found[u] == found[v] ==> u == v)
  }

  lemma DiscoverNumbered(w: Walk)
    requires Numbered(w.found)
    ensures Numbered(Discover(w)) && w.b in Discover(w)
  {
  }

  lemma {:induction false} AfterNumbered(g: Surface, start: int, first: int, k: nat)
    requires Triangulated(g)
    ensures Numbered(After(g, start, first, k).found)
  {
    hide Choose, Triangulated;
    if k > 0 {
      AfterNumbered(g, start, first, k - 1);
      DiscoverNumbered(After(g, start, first, k - 1));
    }
  }

  lemma FoundBound(g: Surface, w: Walk)
    requires IsTable(g) && (forall v :: v in w.found ==> 0 <= v < g.n) && 0 <= w.b < g.n
    ensures |Discover(w)| <= g.n
  {
    assert Discover(w).Keys <= Range(g.n);
    SubsetSize(Discover(w).Keys, Range(g.n));
    assert |Discover(w)| == |Discover(w).Keys|;
  }

  ghost function Range(n: nat): (s: set<int>)
    ensures |s| == n
    ensures forall v :: v in s <==> 0 <= v < n
  {
    if n == 0 then {} else Range(n - 1) + {n - 1}
  }

  lemma {:induction false} SubsetSize<T>(a: set<T>, b: set<T>)
    requires a <= b
    ensures |a| <= |b|
    ensures |a| == |b| ==> a == b
  {
    if a != {} {
      var x :| x in a;
      SubsetSize(a - {x}, b - {x});
    }
  }

  /** The i-th entry of the code of the walk from start: the label of the i-th vertex it comes to. */
  ghost function CodeAt(g: Surface, colours: seq<int>, start: int, first: int, i: nat): int
    requires Triangulated(g) && |colours| == g.n && 0 <= start < g.n
  {
    if i == 0 then Label(g, colours, start, 0) else
      var w := After(g, start, first, i - 1);
      if 0 <= w.b < g.n then Label(g, colours, w.b, Discover(w)[w.b]) else 0
  }

  ghost function Code(g: Surface, colours: seq<int>, start: int, first: int, len: nat): (code: seq<int>)
    requires Triangulated(g) && |colours| == g.n && 0 <= start < g.n
    ensures |code| == len
    ensures forall i :: 0 <= i < len ==> code[i] == CodeAt(g, colours, start, first, i)
  {
    seq(len, i requires 0 <= i => CodeAt(g, colours, start, first, i))
  }

  ghost predicate LexLess(x: seq<int>, y: seq<int>) {
    exists i :: LessAt(x, y, i)
  }

  ghost predicate LessAt(x: seq<int>, y: seq<int>, i: int) {
    0 <= i < |x| && i < |y| && x[i] < y[i] && forall k :: 0 <= k < i ==> x[k] == y[k]
  }

  /** The facts about the walk that one pass of the loop needs. */
  lemma WalkStep(g: Surface, colours: seq<int>, start: int, first: int, i: nat)
    requires IsSurface(g) && Edge(g, start, first) && i + 1 < |Edges(g)| && LabelsFit(g, colours)
    ensures var w := After(g, start, first, i);
      && Edge(g, w.a, w.b) && (w.a, w.b) !in w.used && After(g, start, first, i + 1) == Step(g, w)
      && |Discover(w)| <= g.n && Numbered(Discover(w)) && w.b in Discover(w)
      && 0 <= CodeAt(g, colours, start, first, i + 1) < 128
      && CodeAt(g, colours, start, first, i + 1) == Label(g, colours, w.b, Discover(w)[w.b])
      && Edge(g, w.b, w.a)
      && (w.b in w.found && (w.b, w.a) in w.used ==>
            Edge(g, w.b, Next(g, w.b, w.a)) && HasFree(g, w.used, w.b, Next(g, w.b, w.a)))
  {
    var w := After(g, start, first, i);
    var path, returning := WalkSearches(g, start, first, i);
    SearchIsSane(g, w, path, start, first, returning);
    AfterNumbered(g, start, first, i);
    DiscoverNumbered(w);
    FoundBound(g, w);
    UsedCount(g, w);
    assert Edge(g, w.b, w.a);
    if w.b in w.found && (w.b, w.a) in w.used {
      if !returning {
        StepBack(g, w, path, start, first);
        assert false;
      }
      assert Taken(w) != Edges(g);
      TurnHasFree(g, w, path, start, first);
    }
    LabelRange(g, colours, w.b, Discover(w)[w.b]);
  }

  lemma LabelRange(g: Surface, colours: seq<int>, v: int, number: int)
    requires LabelsFit(g, colours) && 0 <= v < g.n && 0 <= number < g.n
    ensures 0 <= Label(g, colours, v, number) < 128
  {
    assert colours[v] * g.n >= 0;
  }

  /** The table m marks exactly the used edges. */
  ghost predicate Marks(m: array2<bool>, g: Surface, used: set<(int, int)>)
    reads m
  {
    m.Length0 == g.n && m.Length1 == g.n &&
    forall x, y :: 0 <= x < g.n && 0 <= y < g.n ==> (m[x, y] <==> (x, y) in used)
  }

  /** The array index holds the labels of the vertices found, and -1 elsewhere. */
  ghost predicate Indexes(index: array<Int8>, g: Surface, colours: seq<int>, found: map<int, int>)
    requires |colours| == g.n
    reads index
  {
    index.Length == g.n &&
    forall v :: 0 <= v < g.n ==> index[v] == if v in found then Label(g, colours, v, found[v]) else -1
  }

  /** The three rules for leaving b; the search for an unused edge halts. */
  method LeaveVertex(g: Surface, m: array2<bool>, newVertex: bool, a: int, b: int, ghost w: Walk) returns (c: int)
    requires Triangulated(g) && Edge(g, w.a, w.b) && Edge(g, w.b, w.a) && Marks(m, g, w.used)
    requires a == w.a && b == w.b && newVertex == (w.b !in w.found)
    requires w.b in w.found && (w.b, w.a) in w.used ==>
      Edge(g, w.b, Next(g, w.b, w.a)) && HasFree(g, w.used, w.b, Next(g, w.b, w.a))
    ensures c == Choose(g, w)
  {
    if newVertex {
      c := g.common[a][b];
    } else if !m[b, a] {
      c := a;
    } else {
      c := g.common[a][b];
      ghost var x := c;
      ghost var turns, all := 0, TurnsToFree(g, w.used, b, x);
      assert FirstFree(g, w.used, b, x, all);
      while m[b, c]
        invariant 0 <= turns <= all && c == Turn(g, b, x, turns)
        invariant forall j: nat :: j < turns ==> !Free(g, w.used, b, x, j)
        decreases all - turns
      {
        assert !Free(g, w.used, b, x, turns);
        assert turns != all;
        assert Edge(g, c, b);
        c := g.common[c][b];
        turns := turns + 1;
      }
      assert Free(g, w.used, b, x, turns);
      FirstFreeUnique(g, w.used, b, x, turns, all);
    }
  }

  /** Whether the first `done` entries of the code are already below those of the old best code. */
  ghost predicate Ahead(code: seq<int>, best: seq<int>, done: nat) {
    exists i :: i < done && LessAt(code, best, i)
  }

  /** The state of the in-place comparison after `done` entries. */
  ghost predicate Compared(best: seq<Int8>, before: seq<Int8>, code: seq<int>, done: nat, winning: bool) {
    && |best| == |before| && done <= |code| <= |best|
    && (forall i :: 0 <= i < done ==> best[i] == code[i])
    && (forall i :: done <= i < |best| ==> best[i] == before[i])
    && (winning ==> Ahead(code, before[..|code|], done))
    && (!winning ==> forall i :: 0 <= i < done ==> before[i] == code[i])
  }

  /** Either the code has lost and nothing has changed, or its first `done` entries are in place. */
  ghost predicate Outcome(best: seq<Int8>, before: seq<Int8>, code: seq<int>, done: nat, lost: bool, winning: bool) {
    if lost then best == before && |code| <= |before| && !LexLess(code, before[..|code|])
    else Compared(best, before, code, done, winning)
  }

  lemma StillLost(best: seq<Int8>, before: seq<Int8>, code: seq<int>, done: nat, winning: bool, later: nat)
    requires Outcome(best, before, code, done, true, winning)
    ensures Outcome(best, before, code, later, true, winning)
  {
  }

  lemma CompareNext(best: seq<Int8>, before: seq<Int8>, code: seq<int>, done: nat, winning: bool, x: Int8)
    requires Compared(best, before, code, done, winning) && done < |code| && x == code[done]
    ensures !winning && x > best[done] ==> best == before && !LexLess(code, before[..|code|])
    ensures winning || x < best[done] ==> Compared(best[done := x], before, code, done + 1, true)
    ensures !winning && x == best[done] ==> Compared(best, before, code, done + 1, false)
  {
    var cut: seq<int> := before[..|code|];
    if !winning {
      if x > best[done] {
        forall i
          ensures !LessAt(code, cut, i)
        {
          if done <= i < |code| && code[done] == cut[done] {
            assert false;
          }
        }
      } else if x < best[done] {
        assert LessAt(code, cut, done);
      }
    } else {
      var i :| i < done && LessAt(code, cut, i);
      assert i < done + 1;
    }
  }

  lemma CompareEnd(best: seq<Int8>, before: seq<Int8>, code: seq<int>, winning: bool)
    requires Compared(best, before, code, |code|, winning)
    ensures best[..|code|] == code && best[|code|..] == before[|code|..] && winning == LexLess(code, before[..|code|])
    ensures !winning ==> best == before
  {
    if !winning {
      assert code == before[..|code|];
    }
  }

  lemma CompareStart(best: seq<Int8>, code: seq<int>)
    requires |code| <= |best|
    ensures Compared(best, best, code, 0, false)
  {
  }

  lemma EdgesExist(g: Surface, a0: int, b0: int)
    requires Triangulated(g) && Edge(g, a0, b0)
    ensures |Edges(g)| > 0
  {
    assert (a0, b0) in Edges(g);
  }

  lemma FirstLabel(g: Surface, colours: seq<int>, a0: int, b0: int, numEdges: nat)
    requires Triangulated(g) && Edge(g, a0, b0) && LabelsFit(g, colours) && |Edges(g)| == 2 * numEdges
    ensures numEdges >= 1 && 0 <= colours[a0] * g.n < 128
    ensures Code(g, colours, a0, b0, 2 * numEdges)[0] == colours[a0] * g.n
    ensures After(g, a0, b0, 0) == Walk(a0, b0, {}, map[a0 := 0])
  {
    EdgesExist(g, a0, b0);
    hide Triangulated, Edges;
    LabelRange(g, colours, a0, 0);
  }

  /** Labels are never negative, so -1 marks the vertices not found. */
  lemma NewLabel(g: Surface, colours: seq<int>, w: Walk, index: seq<Int8>)
    requires LabelsFit(g, colours) && |index| == g.n && 0 <= w.b < g.n && Numbered(Discover(w)) && Numbered(w.found)
    requires forall v :: 0 <= v < g.n ==> index[v] == if v in w.found then Label(g, colours, v, w.found[v]) else -1
    ensures index[w.b] == -1 <==> w.b !in w.found
    ensures w.b !in w.found ==> Discover(w)[w.b] == |w.found|
  {
    hide Label, LabelsFit;
    if w.b in w.found {
      LabelAtLeast(g, colours, w.b, w.found[w.b]);
    }
  }

  lemma LabelAtLeast(g: Surface, colours: seq<int>, v: int, number: int)
    requires LabelsFit(g, colours) && 0 <= v < g.n
    ensures Label(g, colours, v, number) >= number
  {
    assert colours[v] * g.n >= 0;
  }

  ghost predicate FoundAll(g: Surface, found: map<int, int>) {
    forall v {:trigger v in found} :: 0 <= v < g.n ==> v in found
  }

  /** After the last step every vertex has been found. */
  lemma AllFound(g: Surface, a0: int, b0: int)
    requires IsSurface(g) && Edge(g, a0, b0)
    ensures |Edges(g)| > 0
    ensures FoundAll(g, After(g, a0, b0, |Edges(g)| - 1).found)
  {
    hide Connected, Manifold, Searching, After, Step;
    assert (a0, b0) in Edges(g);
    var w := After(g, a0, b0, |Edges(g)| - 1);
    var path, returning := WalkSearches(g, a0, b0, |Edges(g)| - 1);
    SearchIsSane(g, w, path, a0, b0, returning);
    UsedCount(g, w);
    assert (w.a, w.b) in Edges(g);
    SubsetSize(Taken(w), Edges(g));
    forall v | 0 <= v < g.n
      ensures v in w.found
    {
      HasNeighbour(g, a0, b0, v);
      var x :| Edge(g, v, x);
      var y := Next(g, v, x);
      assert Edge(g, x, v) && Edge(g, v, y) && y != x;
      assert (v, x) in Edges(g) && (v, y) in Edges(g);
      assert (v, x) in w.used || (v, y) in w.used;
    }
  }

  lemma HasNeighbour(g: Surface, a: int, b: int, v: int)
    requires IsSurface(g) && Edge(g, a, b) && 0 <= v < g.n
    ensures exists x :: Edge(g, v, x)
  {
    if v != a && !exists x :: Edge(g, v, x) {
      assert ClosedUnderEdges(g, {v});
      assert false;
    }
  }

  /** Everything known when the walk reaches the end of its current edge, with `done` entries compared. */
  ghost predicate WalkState(g: Surface, colours: seq<int>, w: Walk, m: array2<bool>, index: array<Int8>, n: int)
    requires |colours| == g.n
    reads m, index
  {
    n == |w.found| && Marks(m, g, w.used) && Indexes(index, g, colours, w.found)
  }

  /** b gets the next label if it has none. */
  method NumberVertex(g: Surface, colours: seq<int>, index: array<Int8>, b: int, n: int, ghost w: Walk)
    returns (newVertex: bool, n': int)
    requires LabelsFit(g, colours) && Numbered(w.found) && Numbered(Discover(w)) && |Discover(w)| <= g.n
    requires b == w.b && 0 <= b < g.n && n == |w.found| && Indexes(index, g, colours, w.found)
    modifies index
    ensures newVertex == (b !in w.found) && n' == |Discover(w)| && Indexes(index, g, colours, Discover(w))
  {
    hide Numbered;
    NewLabel(g, colours, w, index[..]);
    newVertex, n' := index[b] == -1, n;
    if newVertex {
      LabelRange(g, colours, b, n);
      index[b] := colours[b] * g.n + n;
      n' := n + 1;
    }
  }

  /** The next entry of the code against the best code: gives up as soon as the code is larger. */
  method CompareEntry(bestCode: array<Int8>, x: Int8, it: int, winning: bool, ghost before: seq<Int8>,
                      ghost code: seq<int>)
    returns (lost: bool, winning': bool)
    requires 0 <= it < |code| <= bestCode.Length && x == code[it] && Compared(bestCode[..], before, code, it, winning)
    modifies bestCode
    ensures lost ==> bestCode[..] == before && !LexLess(code, before[..|code|])
    ensures !lost ==> Compared(bestCode[..], before, code, it + 1, winning')
  {
    CompareNext(bestCode[..], before, code, it, winning, x);
    hide Compared, LexLess;
    if !winning && x > bestCode[it] {
      return true, winning;
    }
    winning' := winning;
    if winning || x < bestCode[it] {
      winning' := true;
      bestCode[it] := x;
    }
    return false, winning';
  }

  method MarkEdge(g: Surface, m: array2<bool>, a: int, b: int, ghost w: Walk)
    requires Marks(m, g, w.used) && a == w.a && b == w.b && 0 <= a < g.n && 0 <= b < g.n
    modifies m
    ensures Marks(m, g, w.used + {(w.a, w.b)})
  {
    m[a, b] := true;
  }

  /** The labels of a whole walk. */
  ghost predicate Labelled(g: Surface, colours: seq<int>, a0: int, b0: int, labels: seq<Int8>)
    requires Triangulated(g) && |colours| == g.n
  {
    var found := After(g, a0, b0, if |Edges(g)| == 0 then 0 else |Edges(g)| - 1).found;
    |labels| == g.n && Numbered(found) &&
    forall v :: 0 <= v < g.n ==> v in found && labels[v] == Label(g, colours, v, found[v])
  }

  method CopyLabels(g: Surface, colours: seq<int>, a0: int, b0: int, index: array<Int8>,
                    canonicalLabelling: array<Int8>)
    requires IsSurface(g) && Edge(g, a0, b0) && |colours| == g.n && index != canonicalLabelling
    requires canonicalLabelling.Length >= g.n && |Edges(g)| > 0
    requires Indexes(index, g, colours, After(g, a0, b0, |Edges(g)| - 1).found)
    modifies canonicalLabelling
    ensures Labelled(g, colours, a0, b0, canonicalLabelling[..g.n])
  {
    hide IsSurface, Numbered, After, Label;
    SurfaceTriangulated(g);
    AllFound(g, a0, b0);
    AfterNumbered(g, a0, b0, |Edges(g)| - 1);
    ghost var found := After(g, a0, b0, |Edges(g)| - 1).found;
    forall v | 0 <= v < g.n {
      canonicalLabelling[v] := index[v];
    }
  }

  lemma Basics(g: Surface, colours: seq<int>, a0: int, b0: int)
    requires IsSurface(g) && LabelsFit(g, colours) && Edge(g, a0, b0)
    ensures Triangulated(g) && IsTable(g) && |colours| == g.n && 0 <= a0 < g.n && 0 <= b0 < g.n
  {
  }

  lemma IndexAt(g: Surface, colours: seq<int>, index: array<Int8>, found: map<int, int>, b: int)
    requires |colours| == g.n && Indexes(index, g, colours, found) && 0 <= b < g.n && b in found
    ensures index.Length == g.n && index[b] == Label(g, colours, b, found[b])
  {
  }

  lemma FirstState(g: Surface, colours: seq<int>, w: Walk, m: array2<bool>, index: array<Int8>)
    requires |colours| == g.n && w.used == {} && 0 <= w.a < g.n && w.found == map[w.a := 0]
    requires m.Length0 == g.n && m.Length1 == g.n && index.Length == g.n
    requires forall x, y :: 0 <= x < g.n && 0 <= y < g.n ==> !m[x, y]
    requires forall v :: 0 <= v < g.n ==> index[v] == if v == w.a then colours[v] * g.n else -1
    ensures WalkState(g, colours, w, m, index, 1)
  {
  }

  lemma StateIndexes(g: Surface, colours: seq<int>, w: Walk, m: array2<bool>, index: array<Int8>, n: int)
    requires |colours| == g.n && WalkState(g, colours, w, m, index, n)
    ensures Indexes(index, g, colours, w.found)
  {
  }

  /** The label of the start and its comparison. */
  method FirstEntry(g: Surface, numEdges: nat, colours: seq<int>, bestCode: array<Int8>, index: array<Int8>,
                    m: array2<bool>,
                    a0: int, b0: int)
    returns (n: int, lost: bool, winning: bool)
    requires IsSurface(g) && Edge(g, a0, b0) && |Edges(g)| == 2 * numEdges && LabelsFit(g, colours)
    requires bestCode.Length >= 2 * numEdges && bestCode != index
    requires index.Length == g.n && forall v :: 0 <= v < g.n ==> index[v] == -1
    requires m.Length0 == g.n && m.Length1 == g.n && forall x, y :: 0 <= x < g.n && 0 <= y < g.n ==> !m[x, y]
    modifies bestCode, index
    ensures numEdges >= 1
    ensures var code := Code(g, colours, a0, b0, 2 * numEdges);
      Outcome(bestCode[..], old(bestCode[..]), code, 1, lost, winning)
    ensures var w := After(g, a0, b0, 0); a0 == w.a && b0 == w.b && WalkState(g, colours, w, m, index, n)
  {
    hide IsSurface, IsTable, Triangulated, LexLess, Compared, CodeAt, After, Edges, LabelsFit, WalkState, Edge;
    Basics(g, colours, a0, b0);
    ghost var code := Code(g, colours, a0, b0, 2 * numEdges);
    ghost var before := bestCode[..];
    FirstLabel(g, colours, a0, b0, numEdges);
    index[a0] := colours[a0] * g.n;
    n := 1;
    FirstState(g, colours, After(g, a0, b0, 0), m, index);
    CompareStart(before, code);
    lost, winning := CompareEntry(bestCode, index[a0], 0, false, before, code);
  }

  /** One pass of the loop. */
  method NextEntry(g: Surface, numEdges: nat, colours: seq<int>, bestCode: array<Int8>, index: array<Int8>,
                   m: array2<bool>,
                   a0: int, b0: int, a: int, b: int, n: int, it: int, winning: bool, ghost before: seq<Int8>)
    returns (a': int, b': int, n': int, lost: bool, winning': bool)
    requires IsSurface(g) && Edge(g, a0, b0) && |Edges(g)| == 2 * numEdges && LabelsFit(g, colours)
    requires 1 <= it < 2 * numEdges <= bestCode.Length && bestCode != index
    requires var w := After(g, a0, b0, it - 1); a == w.a && b == w.b && WalkState(g, colours, w, m, index, n)
    requires Outcome(bestCode[..], before, Code(g, colours, a0, b0, 2 * numEdges), it, false, winning)
    modifies bestCode, index, m
    ensures var code := Code(g, colours, a0, b0, 2 * numEdges);
      Outcome(bestCode[..], before, code, it + 1, lost, winning')
    ensures !lost ==> var w := After(g, a0, b0, it);
      a' == w.a && b' == w.b && WalkState(g, colours, w, m, index, n')
  {
    SurfaceTriangulated(g);
    assert |colours| == g.n;
    ghost var code := Code(g, colours, a0, b0, 2 * numEdges);
    ghost var w := After(g, a0, b0, it - 1);
    WalkStep(g, colours, a0, b0, it - 1);
    AfterNumbered(g, a0, b0, it - 1);
    hide IsSurface, Triangulated, LexLess, Compared, CodeAt, After, Choose, Numbered, Edges, Marks, Indexes, LabelsFit,
      HasFree, Label;
    var newVertex;
    newVertex, n' := NumberVertex(g, colours, index, b, n, w);
    IndexAt(g, colours, index, Discover(w), b);
    lost, winning' := CompareEntry(bestCode, index[b], it, winning, before, code);
    if lost {
      return a, b, n', true, winning';
    }
    b' := LeaveVertex(g, m, newVertex, a, b, w);
    MarkEdge(g, m, a, b, w);
    a' := b;
  }

  /** The loop over the edges, with the early exit. */
  method CompareWalk(g: Surface, numEdges: nat, colours: seq<int>, bestCode: array<Int8>, index: array<Int8>, a0: int,
                     b0: int)
    returns (lost: bool, winning: bool)
    requires IsSurface(g) && Edge(g, a0, b0) && |Edges(g)| == 2 * numEdges && LabelsFit(g, colours)
    requires bestCode.Length >= 2 * numEdges && bestCode != index
    requires index.Length == g.n && forall v :: 0 <= v < g.n ==> index[v] == -1
    modifies bestCode, index
    ensures var code := Code(g, colours, a0, b0, 2 * numEdges);
      Outcome(bestCode[..], old(bestCode[..]), code, 2 * numEdges, lost, winning)
    ensures !lost && numEdges > 0 ==> Indexes(index, g, colours, After(g, a0, b0, 2 * numEdges - 1).found)
  {
    hide IsSurface, IsTable, Triangulated, LexLess, Compared, Outcome, CodeAt, After, Choose, Numbered, Edges, Marks,
      Indexes, LabelsFit, HasFree, Label, WalkState, Edge;
    Basics(g, colours, a0, b0);
    ghost var code := Code(g, colours, a0, b0, 2 * numEdges);
    ghost var before := bestCode[..];
    var m := new bool[g.n, g.n]((_, _) => false);
    var n;
    n, lost, winning := FirstEntry(g, numEdges, colours, bestCode, index, m, a0, b0);
    if lost {
      StillLost(bestCode[..], before, code, 1, winning, 2 * numEdges);
      return;
    }
    ghost var w := After(g, a0, b0, 0);
    var a, b, it := a0, b0, 1;
    while it < 2 * numEdges
      invariant 1 <= it <= 2 * numEdges && w == After(g, a0, b0, it - 1)
      invariant a == w.a && b == w.b && WalkState(g, colours, w, m, index, n)
      invariant !lost && Outcome(bestCode[..], before, code, it, lost, winning)
    {
      a, b, n, lost, winning := NextEntry(g, numEdges, colours, bestCode, index, m, a0, b0, a, b, n, it, winning,
        before);
      if lost {
        StillLost(bestCode[..], before, code, it + 1, winning, 2 * numEdges);
        return;
      }
      w := After(g, a0, b0, it);
      it := it + 1;
    }
    StateIndexes(g, colours, w, m, index, n);
  }

  /** The walk from the edge a0 -> b0 against the best code so far: the best code becomes the smaller
      of the two in lexicographic order, and a win leaves the labels of the walk. */
  method WeinbergColoured(g: Surface, numEdges: nat, colours: seq<int>, bestCode: array<Int8>,
                          canonicalLabelling: array<Int8>, a0: int, b0: int) returns (won: bool)
    requires IsSurface(g) && Edge(g, a0, b0) && |Edges(g)| == 2 * numEdges && LabelsFit(g, colours)
    requires bestCode.Length >= 2 * numEdges && canonicalLabelling.Length >= g.n && bestCode != canonicalLabelling
    modifies bestCode, canonicalLabelling
    ensures var code := Code(g, colours, a0, b0, 2 * numEdges);
      && won == LexLess(code, old(bestCode[..2 * numEdges]))
      && bestCode[..2 * numEdges] == (if won then code else old(bestCode[..2 * numEdges]))
      && bestCode[2 * numEdges..] == old(bestCode[2 * numEdges..])
    ensures won ==> Labelled(g, colours, a0, b0, canonicalLabelling[..g.n])
    ensures !won ==> canonicalLabelling[..] == old(canonicalLabelling[..])
  {
    hide IsSurface, IsTable, Triangulated, LexLess, Compared, After, Edges, Indexes, LabelsFit, Edge;
    Basics(g, colours, a0, b0);
    ghost var code := Code(g, colours, a0, b0, 2 * numEdges);
    ghost var before := bestCode[..];
    assert before[..2 * numEdges] == bestCode[..2 * numEdges] && before[2 * numEdges..] == bestCode[2 * numEdges..];
    var index := new Int8[g.n](_ => -1);
    var lost, winning := CompareWalk(g, numEdges, colours, bestCode, index, a0, b0);
    assert bestCode[..][..2 * numEdges] == bestCode[..2 * numEdges] &&
      bestCode[..][2 * numEdges..] == bestCode[2 * numEdges..];
    if lost {
      return false;
    }
    CompareEnd(bestCode[..], before, code, winning);
    if winning {
      EdgesExist(g, a0, b0);
      CopyLabels(g, colours, a0, b0, index, canonicalLabelling);
      return true;
    }
    return false;
  }
}
