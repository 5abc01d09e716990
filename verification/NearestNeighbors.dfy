/** The buffer in which a k-d tree query keeps the k nearest points met so far. */
module NearestNeighbors {
  import opened Sequences

  type Candidate = (int, real)

  /** How many candidates are nearer than d. */
  function Nearer(s: seq<Candidate>, d: real): nat {
    if s == [] then 0 else Nearer(s[..|s| - 1], d) + if s[|s| - 1].1 < d then 1 else 0
  }

  /** How many candidates are no farther than d. */
  function Within(s: seq<Candidate>, d: real): nat {
    if s == [] then 0 else Within(s[..|s| - 1], d) + if s[|s| - 1].1 <= d then 1 else 0
  }

  ghost predicate Sorted(s: seq<Candidate>) {
    forall i, j :: 0 <= i < j < |s| ==> s[i].1 <= s[j].1
  }

  /** The candidates that were left out are no nearer than the ones kept. */
  ghost predicate Farther(kept: seq<Candidate>, out: seq<Candidate>) {
    forall i, j :: 0 <= i < |kept| && 0 <= j < |out| ==> kept[i].1 <= out[j].1
  }

  /** kept holds the k nearest of all candidates, in order. */
  ghost predicate Nearest(kept: seq<Candidate>, out: seq<Candidate>, all: seq<Candidate>, k: nat) {
    && multiset(kept + out) == multiset(all) && Sorted(kept) && Farther(kept, out)
    && |kept| == if |all| <= k then |all| else k
  }

  /** Insertion in front of the first candidate that is no nearer. */
  function Inserted(s: seq<Candidate>, c: Candidate): seq<Candidate> {
    if s == [] || s[|s| - 1].1 < c.1 then s + [c] else Inserted(s[..|s| - 1], c) + [s[|s| - 1]]
  }

  // Finding a place --------------------------------------------------------------------------------------

  lemma PutBetween<T>(a: seq<T>, b: seq<T>, out: seq<T>, all: seq<T>, c: T)
    requires multiset(a + b + out) == multiset(all)
    ensures multiset(a + [c] + b + out) == multiset(all + [c])
  {
  }

  lemma PutBetweenFull<T>(a: seq<T>, b: seq<T>, last: T, out: seq<T>, all: seq<T>, c: T)
    requires multiset(a + (b + [last]) + out) == multiset(all)
    ensures multiset(a + [c] + b + (out + [last])) == multiset(all + [c])
  {
  }

  lemma Sizes<T>(s: seq<T>, t: seq<T>)
    requires multiset(s) == multiset(t)
    ensures |s| == |t|
  {
    assert |multiset(s)| == |s| && |multiset(t)| == |t|;
  }

  lemma StillSorted(was: seq<Candidate>, p: nat, c: Candidate, m: nat)
    requires Sorted(was) && p <= m <= |was|
    requires p > 0 ==> was[p - 1].1 < c.1
    requires p < |was| ==> c.1 <= was[p].1
    ensures Sorted(was[..p] + [c] + was[p..m])
  {
  }

  /** The place of a candidate while there is room. */
  lemma PutIn(was: seq<Candidate>, out: seq<Candidate>, all: seq<Candidate>, k: nat, p: nat, c: Candidate)
    requires Nearest(was, out, all, k) && |was| < k && p <= |was|
    requires p > 0 ==> was[p - 1].1 < c.1
    requires p < |was| ==> c.1 <= was[p].1
    ensures Nearest(was[..p] + [c] + was[p..], out, all + [c], k)
  {
    hide *;
    NearestParts(was, out, all, k);
    StillSorted(was, p, c, |was|);
    SplitAround(was, p, c);
    PutAround(was, was[..p], was[p..], out, all, k, c);
  }

  lemma PutAround(was: seq<Candidate>, a: seq<Candidate>, b: seq<Candidate>, out: seq<Candidate>, all: seq<Candidate>,
                  k: nat, c: Candidate)
    requires was == a + b && multiset(was + out) == multiset(all) && |was| == (if |all| <= k then |all| else k)
    requires |was| < k && |was| + |out| == |all| && Sorted(a + [c] + b)
    ensures Nearest(a + [c] + b, out, all + [c], k)
  {
    assert out == [];
    assert was + out == a + b + out;
    hide *;
    PutBetween(a, b, out, all, c);
    NothingOut(a + [c] + b, out);
    MakeNearest(a + [c] + b, out, all + [c], k);
  }

  lemma NothingOut(kept: seq<Candidate>, out: seq<Candidate>)
    requires |out| == 0
    ensures Farther(kept, out)
  {
  }

  lemma NearestParts(kept: seq<Candidate>, out: seq<Candidate>, all: seq<Candidate>, k: nat)
    requires Nearest(kept, out, all, k)
    ensures multiset(kept + out) == multiset(all) && Sorted(kept) && Farther(kept, out)
    ensures |kept| == (if |all| <= k then |all| else k) && |kept| + |out| == |all|
  {
    Sizes(kept + out, all);
  }

  lemma SplitAround(s: seq<Candidate>, p: nat, c: Candidate)
    requires p <= |s|
    ensures s == s[..p] + s[p..] && s[p..|s|] == s[p..] && |s[..p] + [c] + s[p..]| == |s| + 1
  {
  }

  lemma MakeNearest(kept: seq<Candidate>, out: seq<Candidate>, all: seq<Candidate>, k: nat)
    requires multiset(kept + out) == multiset(all) && Sorted(kept) && Farther(kept, out)
    requires |kept| == if |all| <= k then |all| else k
    ensures Nearest(kept, out, all, k)
  {
  }

  /** The one forgotten is no nearer than those that stay. */
  lemma StillFarther(was: seq<Candidate>, out: seq<Candidate>, k: nat, p: nat, c: Candidate)
    requires Sorted(was) && Farther(was, out) && |was| == k && p < k && c.1 <= was[p].1
    ensures Farther(was[..p] + [c] + was[p..k - 1], out + [was[k - 1]])
  {
    var now, more := was[..p] + [c] + was[p..k - 1], out + [was[k - 1]];
    forall i, j | 0 <= i < |now| && 0 <= j < |more| ensures now[i].1 <= more[j].1 {
      var l := if i <= p then i else i - 1;
      assert now[i].1 <= was[l].1 <= was[k - 1].1;
      if j < |out| {
        assert was[l].1 <= out[j].1;
      }
    }
  }

  /** Its place when the buffer is full: the last one goes. */
  lemma PutInFull(was: seq<Candidate>, out: seq<Candidate>, all: seq<Candidate>, k: nat, p: nat, c: Candidate)
    requires Nearest(was, out, all, k) && |was| == k && p < k
    requires p > 0 ==> was[p - 1].1 < c.1
    requires c.1 <= was[p].1
    ensures Nearest(was[..p] + [c] + was[p..k - 1], out + [was[k - 1]], all + [c], k)
  {
    hide Sorted, Farther;
    Sizes(was + out, all);
    StillSorted(was, p, c, k - 1);
    StillFarther(was, out, k, p, c);
    assert was == was[..p] + (was[p..k - 1] + [was[k - 1]]);
    PutBetweenFull(was[..p], was[p..k - 1], was[k - 1], out, all, c);
  }

  /** A candidate beyond the last one of a full buffer changes nothing. */
  lemma LeaveOut(was: seq<Candidate>, out: seq<Candidate>, all: seq<Candidate>, k: nat, c: Candidate)
    requires Nearest(was, out, all, k) && |was| == k >= 1 && was[k - 1].1 < c.1
    ensures Nearest(was, out + [c], all + [c], k)
  {
    Sizes(was + out, all);
    assert was + (out + [c]) == (was + out) + [c];
    assert forall j :: 0 <= j < k ==> was[j].1 <= was[k - 1].1;
  }

  /** The elements from i on are moved up by one, and the place i is free. */
  ghost predicate SlotOpen<T(!new)>(now: seq<T>, was: seq<T>, i: nat, m: nat) {
    && i <= m < |was| == |now|
    && (forall j :: 0 <= j <= i ==> now[j] == was[j] || (j == i && i < m))
    && (forall j :: i < j <= m ==> now[j] == was[j - 1])
  }

  lemma SlotStart<T(!new)>(was: seq<T>, m: nat)
    requires m < |was|
    ensures SlotOpen(was, was, m, m)
  {
  }

  lemma SlotBack<T(!new)>(now: seq<T>, was: seq<T>, i: nat, m: nat)
    requires SlotOpen(now, was, i, m) && i > 0
    ensures i < |now| && now[i - 1] == was[i - 1] && SlotOpen(now[i := now[i - 1]], was, i - 1, m)
  {
  }

  lemma SlotFilled<T(!new)>(was: seq<T>, now: seq<T>, i: nat, m: nat, x: T)
    requires SlotOpen(now, was, i, m)
    ensures i <= m < |was| == |now| && now[i := x][..m + 1] == was[..i] + [x] + was[i..m]
  {
  }

  lemma ZipSlot(ns: seq<int>, ds: seq<real>, i: nat, m: nat, n: int, d: real)
    requires |ns| == |ds| && i <= m <= |ns|
    ensures Zip(ns[..i] + [n] + ns[i..m], ds[..i] + [d] + ds[i..m]) ==
            Zip(ns[..m], ds[..m])[..i] + [(n, d)] + Zip(ns[..m], ds[..m])[i..]
  {
  }

  lemma DropLast(was: seq<Candidate>, i: nat, c: Candidate)
    requires i < |was|
    ensures (was[..i] + [c] + was[i..])[..|was|] == was[..i] + [c] + was[i..|was| - 1]
  {
  }

  lemma ZipAt(ns: seq<int>, ds: seq<real>, m: nat)
    requires |ns| == |ds| && m <= |ns|
    ensures |Zip(ns[..m], ds[..m])| == m
    ensures forall j :: 0 <= j < m ==> Zip(ns[..m], ds[..m])[j].1 == ds[j]
  {
  }

  lemma {:induction false} InsertedAt(s: seq<Candidate>, p: nat, c: Candidate)
    requires p <= |s| && forall j :: p <= j < |s| ==> c.1 <= s[j].1
    requires p > 0 ==> s[p - 1].1 < c.1
    ensures Inserted(s, c) == s[..p] + [c] + s[p..]
  {
    if p < |s| {
      var less, last := s[..|s| - 1], s[|s| - 1];
      InsertedAt(less, p, c);
      assert s[..p] == less[..p] && s[p..] == less[p..] + [last];
      assert (less[..p] + [c] + less[p..]) + [last] == s[..p] + [c] + s[p..];
    } else {
      assert s[..p] == s && s[p..] == [];
    }
  }

  lemma KeptSorted(kept: seq<Candidate>, out: seq<Candidate>, all: seq<Candidate>, k: nat)
    requires Nearest(kept, out, all, k)
    ensures Sorted(kept)
  {
  }

  /** In a sorted list everything behind a place is at least as far. */
  lemma Behind(s: seq<Candidate>, p: nat, c: Candidate)
    requires Sorted(s) && p <= |s| && (p < |s| ==> c.1 <= s[p].1)
    ensures forall j :: p <= j < |s| ==> c.1 <= s[j].1
  {
  }

  lemma ZipCut(ns: seq<int>, ds: seq<real>, less: seq<int>, lessD: seq<real>)
    requires |ns| == |ds| > 0 && less == ns[..|ns| - 1] && lessD == ds[..|ns| - 1]
    ensures Zip(less, lessD) == Zip(ns, ds)[..|ns| - 1] && |Zip(ns, ds)| == |ns|
  {
  }

  /** What an insertion makes of the candidates kept: one more, or the last one is forgotten. */
  lemma InsertKept(was: seq<Candidate>, out: seq<Candidate>, all: seq<Candidate>, k: nat, p: nat, c: Candidate,
                   more: seq<Candidate>)
    requires Nearest(was, out, all, k) && |was| <= k && 1 <= k && p <= |was| && more == was[..p] + [c] + was[p..]
    requires p > 0 ==> was[p - 1].1 < c.1
    requires p < |was| ==> c.1 <= was[p].1
    requires |was| == k ==> c.1 <= was[k - 1].1
    ensures Inserted(was, c) == more && |more| == |was| + 1
    ensures |was| < k ==> Nearest(more, out, all + [c], k)
    ensures |was| == k ==> Nearest(more[..k], out + [was[k - 1]], all + [c], k)
  {
    hide Nearest, Inserted;
    KeptSorted(was, out, all, k);
    Behind(was, p, c);
    InsertedAt(was, p, c);
    if |was| < k {
      PutIn(was, out, all, k, p, c);
    } else {
      PutInFull(was, out, all, k, p, c);
      DropLast(was, p, c);
    }
  }

  function Zip(ns: seq<int>, ds: seq<real>): seq<Candidate>
    requires |ns| == |ds|
  {
    seq(|ns|, i requires 0 <= i < |ns| => (ns[i], ds[i]))
  }

  class Buffer {
    const nbNeighborsMax: nat
    const maxDist: real
    var nbNeighbors: nat
    const neighbors: array<int>
    const neighborsSqDist: array<real>
    ghost var all: seq<Candidate>
    ghost var out: seq<Candidate>

    ghost predicate Shape()
      reads this
    {
      && 1 <= nbNeighborsMax && nbNeighbors <= nbNeighborsMax
      && neighbors.Length == nbNeighborsMax + 1 == neighborsSqDist.Length
    }

    /** The buffer holds the k nearest of all candidates offered, in order. */
    ghost predicate Valid()
      reads this, neighbors, neighborsSqDist
    {
      Shape() && Nearest(Kept(), out, all, nbNeighborsMax)
    }

    ghost function Kept(): seq<Candidate>
      reads this, neighbors, neighborsSqDist
      requires Shape()
    {
      Zip(neighbors[..nbNeighbors], neighborsSqDist[..nbNeighbors])
    }

    /** Only the first slot is set, since the count is still zero. */
    constructor (k: nat, maxDistance: real)
      requires k >= 1
      ensures Valid() && nbNeighborsMax == k && maxDist == maxDistance && all == [] && fresh(neighbors)
      ensures fresh(neighborsSqDist)
    {
      nbNeighborsMax := k;
      maxDist := maxDistance;
      nbNeighbors := 0;
      neighbors := new int[k + 1];
      neighborsSqDist := new real[k + 1];
      all, out := [], [];
      new;
      var i := 0;
      while i <= nbNeighbors
        invariant 0 <= i <= nbNeighbors + 1 && nbNeighbors == 0 && all == out == []
        modifies neighbors, neighborsSqDist
      {
        neighbors[i] := -1;
        neighborsSqDist[i] := maxDist;
        i := i + 1;
      }
      assert Kept() == [];
    }

    function FurthestNeighborSqDist(): real
      reads this, neighborsSqDist
      requires 1 <= nbNeighborsMax && nbNeighbors <= nbNeighborsMax < neighborsSqDist.Length
    {
      if nbNeighbors == nbNeighborsMax then neighborsSqDist[nbNeighbors - 1] else maxDist
    }

    /** Opens a slot in front of the first distance that is no smaller and fills it. */
    method Place(neighbor: int, sqDist: real) returns (i: nat)
      requires Shape()
      modifies neighbors, neighborsSqDist
      ensures i <= nbNeighbors
      ensures i > 0 ==> old(neighborsSqDist[i - 1]) < sqDist
      ensures i < nbNeighbors ==> sqDist <= old(neighborsSqDist[i])
      ensures neighbors[..nbNeighbors + 1] == old(neighbors[..])[..i] + [neighbor] + old(neighbors[..])[i..nbNeighbors]
      ensures neighborsSqDist[..nbNeighbors + 1] ==
              old(neighborsSqDist[..])[..i] + [sqDist] + old(neighborsSqDist[..])[i..nbNeighbors]
    {
      ghost var ns, ds, m := neighbors[..], neighborsSqDist[..], nbNeighbors;
      i := nbNeighbors;
      SlotStart(ns, m);
      SlotStart(ds, m);
      hide SlotOpen;
      while i > 0
        invariant i <= m
        invariant SlotOpen(neighbors[..], ns, i, m) && SlotOpen(neighborsSqDist[..], ds, i, m)
        invariant i < m ==> sqDist <= ds[i]
        modifies neighbors, neighborsSqDist
      {
        SlotBack(neighbors[..], ns, i, m);
        SlotBack(neighborsSqDist[..], ds, i, m);
        if neighborsSqDist[i - 1] < sqDist {
          break;
        }
        neighbors[i] := neighbors[i - 1];
        neighborsSqDist[i] := neighborsSqDist[i - 1];
        i := i - 1;
      }
      SlotFilled(ns, neighbors[..], i, m, neighbor);
      SlotFilled(ds, neighborsSqDist[..], i, m, sqDist);
      neighbors[i] := neighbor;
      neighborsSqDist[i] := sqDist;
    }

    /** The same, seen as pairs; one slot beyond the count is in use now. */
    method PlacePair(neighbor: int, sqDist: real) returns (i: nat)
      requires Shape()
      modifies neighbors, neighborsSqDist
      ensures i <= nbNeighbors == |old(Kept())|
      ensures i > 0 ==> old(Kept())[i - 1].1 < sqDist
      ensures i < nbNeighbors ==> sqDist <= old(Kept())[i].1
      ensures Zip(neighbors[..nbNeighbors + 1], neighborsSqDist[..nbNeighbors + 1]) ==
              old(Kept())[..i] + [(neighbor, sqDist)] + old(Kept())[i..]
    {
      hide Zip;
      ghost var ns, ds := neighbors[..], neighborsSqDist[..];
      ghost var m := nbNeighbors;
      assert neighbors[..m] == ns[..m] && neighborsSqDist[..m] == ds[..m];
      ZipAt(ns, ds, m);
      i := Place(neighbor, sqDist);
      ZipSlot(ns, ds, i, m, neighbor, sqDist);
    }

    /** The candidate finds its place; a full buffer forgets its last one. */
    method Insert(neighbor: int, sqDist: real)
      requires Valid() && sqDist <= FurthestNeighborSqDist()
      modifies this, neighbors, neighborsSqDist
      ensures Valid() && all == old(all) + [(neighbor, sqDist)]
      ensures nbNeighbors == if old(nbNeighbors) < nbNeighborsMax then old(nbNeighbors) + 1 else nbNeighborsMax
      ensures nbNeighbors <= |Inserted(old(Kept()), (neighbor, sqDist))|
      ensures Kept() == Inserted(old(Kept()), (neighbor, sqDist))[..nbNeighbors]
      ensures out == if old(nbNeighbors) < nbNeighborsMax then old(out) else old(out) + [old(Kept()[nbNeighbors - 1])]
    {
      hide Nearest, Zip, Sorted, Inserted;
      ghost var was, m, c := Kept(), nbNeighbors, (neighbor, sqDist);
      LastKept();
      var i := PlacePair(neighbor, sqDist);
      ghost var more := Zip(neighbors[..m + 1], neighborsSqDist[..m + 1]);
      InsertKept(was, out, all, nbNeighborsMax, i, c, more);
      if nbNeighbors < nbNeighborsMax {
        nbNeighbors := nbNeighbors + 1;
      } else {
        out := out + [was[m - 1]];
        ZipCut(neighbors[..m + 1], neighborsSqDist[..m + 1], neighbors[..m], neighborsSqDist[..m]);
      }
      all := all + [c];
    }

    lemma LastKept()
      requires Shape()
      ensures |Kept()| == nbNeighbors
      ensures nbNeighbors > 0 ==> Kept()[nbNeighbors - 1].1 == neighborsSqDist[nbNeighbors - 1]
    {
    }

    /** What a search does with every point it meets. */
    method Offer(neighbor: int, sqDist: real)
      requires Valid() && sqDist <= maxDist
      modifies this, neighbors, neighborsSqDist
      ensures Valid() && all == old(all) + [(neighbor, sqDist)]
    {
      if sqDist <= FurthestNeighborSqDist() {
        Insert(neighbor, sqDist);
      } else {
        LeaveOut(Kept(), out, all, nbNeighborsMax, (neighbor, sqDist));
        out := out + [(neighbor, sqDist)];
        all := all + [(neighbor, sqDist)];
      }
    }
  }

  // The kept distances are the smallest of all -------------------------------------------------------------

  lemma {:induction false} CountsAppend(s: seq<Candidate>, t: seq<Candidate>, d: real)
    ensures Nearer(s + t, d) == Nearer(s, d) + Nearer(t, d) && Within(s + t, d) == Within(s, d) + Within(t, d)
  {
    if t == [] {
      assert s + t == s;
    } else {
      CountsAppend(s, t[..|t| - 1], d);
      assert (s + t)[..|s + t| - 1] == s + t[..|t| - 1];
    }
  }

  /** Counting does not depend on the order. */
  lemma {:induction false} CountsShuffled(s: seq<Candidate>, t: seq<Candidate>, d: real)
    requires multiset(s) == multiset(t)
    ensures Nearer(s, d) == Nearer(t, d) && Within(s, d) == Within(t, d)
  {
    if s == [] {
      assert |multiset(t)| == 0;
    } else {
      var c := s[|s| - 1];
      assert c in multiset(t);
      var k :| 0 <= k < |t| && t[k] == c;
      assert s == s[..|s| - 1] + [c];
      assert t == t[..k] + [c] + t[k + 1..];
      TakeOut(s, |s| - 1);
      TakeOut(t, k);
      assert s[..|s| - 1] + s[|s| - 1 + 1..] == s[..|s| - 1];
      CountsShuffled(s[..|s| - 1], t[..k] + t[k + 1..], d);
      CountsAppend(t[..k] + [c], t[k + 1..], d);
      CountsAppend(t[..k], [c], d);
      CountsAppend(t[..k], t[k + 1..], d);
      CountsAppend(s[..|s| - 1], [c], d);
    }
  }

  lemma {:induction false} NoneNearer(s: seq<Candidate>, d: real)
    requires forall i :: 0 <= i < |s| ==> d <= s[i].1
    ensures Nearer(s, d) == 0
  {
    if s != [] {
      NoneNearer(s[..|s| - 1], d);
    }
  }

  lemma {:induction false} AllWithin(s: seq<Candidate>, d: real)
    requires forall i :: 0 <= i < |s| ==> s[i].1 <= d
    ensures Within(s, d) == |s|
  {
    if s != [] {
      AllWithin(s[..|s| - 1], d);
    }
  }

  lemma {:induction false} NearerBound(s: seq<Candidate>, d: real)
    ensures Nearer(s, d) <= |s|
  {
    if s != [] {
      NearerBound(s[..|s| - 1], d);
    }
  }

  /**
    The i-th kept distance is the i-th order statistic of everything offered: at most i candidates are nearer,
    and at least i + 1 are as near. So the kept distances are determined by the candidates alone.
  */
  lemma KeptIsOrderStatistic(kept: seq<Candidate>, out: seq<Candidate>, all: seq<Candidate>, k: nat, i: nat)
    requires Nearest(kept, out, all, k) && i < |kept|
    ensures Nearer(all, kept[i].1) <= i < Within(all, kept[i].1)
  {
    var d := kept[i].1;
    CountsShuffled(kept + out, all, d);
    CountsAppend(kept, out, d);
    NoneNearer(out, d);
    assert kept == kept[..i] + kept[i..] && kept == kept[..i + 1] + kept[i + 1..];
    CountsAppend(kept[..i], kept[i..], d);
    NoneNearer(kept[i..], d);
    NearerBound(kept[..i], d);
    CountsAppend(kept[..i + 1], kept[i + 1..], d);
    AllWithin(kept[..i + 1], d);
  }

  /** Counting up to a smaller distance gives less. */
  lemma {:induction false} WithinNearer(s: seq<Candidate>, d: real, e: real)
    requires d < e
    ensures Within(s, d) <= Nearer(s, e)
  {
    if s != [] {
      WithinNearer(s[..|s| - 1], d, e);
    }
  }

  /** The order in which the candidates come does not matter for the distances. */
  lemma SameDistances(kept: seq<Candidate>, out: seq<Candidate>, all: seq<Candidate>,
                      kept2: seq<Candidate>, out2: seq<Candidate>, all2: seq<Candidate>, k: nat, i: nat)
    requires Nearest(kept, out, all, k) && Nearest(kept2, out2, all2, k) && multiset(all) == multiset(all2)
    requires i < |kept|
    ensures |kept2| == |kept| && kept2[i].1 == kept[i].1
  {
    assert |multiset(all)| == |all| && |multiset(all2)| == |all2|;
    KeptIsOrderStatistic(kept, out, all, k, i);
    KeptIsOrderStatistic(kept2, out2, all2, k, i);
    var d, e := kept[i].1, kept2[i].1;
    CountsShuffled(all, all2, d);
    CountsShuffled(all, all2, e);
    if d < e {
      WithinNearer(all, d, e);
      assert false;
    } else if e < d {
      WithinNearer(all, e, d);
      assert false;
    }
  }
}
