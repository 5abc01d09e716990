/** The state the solver starts from, and its first greedy matching. */
module MatchingStart {
  import opened Sums
  import opened Duality
  import opened EdgeIndex
  import opened BlossomTree
  import opened BlossomFamily
  import opened BlossomCircuit
  import opened BlossomMates
  import opened BlossomDuals
  import opened BlossomUnblock
  import opened BlossomRetrieve

  /** The vertices alone. */
  ghost function Vertices(n: nat): set<Tree> {
    set v | v in Upto(0, n) :: Tree(v, [])
  }

  lemma OneVertex(v: int, n: nat)
    requires 0 <= v < n
    ensures Shape(Tree(v, []), n) && Ids(Tree(v, [])) == {v} && Leaves(Tree(v, [])) == [v]
  {
  }

  lemma InVertices(n: nat, t: Tree)
    requires t in Vertices(n)
    ensures 0 <= t.id < n && t == Tree(t.id, []) && Shape(t, n) && Ids(t) == {t.id} && Leaves(t) == [t.id]
  {
    hide Shape, Ids, Leaves;
    OneVertex(t.id, n);
  }

  lemma VerticesCovered(n: nat)
    ensures Covered(Vertices(n)) == Upto(0, n) && Laminar(Vertices(n), {}, n)
  {
    hide Ids, Shape, Vertices, Upto;
    forall t | t in Vertices(n)
      ensures Shape(t, n) && Ids(t) == {t.id} && 0 <= t.id < n && t == Tree(t.id, [])
    {
      InVertices(n, t);
    }
    forall x
      ensures x in Covered(Vertices(n)) <==> x in Upto(0, n)
    {
      if x in Upto(0, n) {
        VertexIn(n, x);
        OneVertex(x, n);
        InCovered(Vertices(n), Tree(x, []));
      }
    }
  }

  lemma VertexIn(n: nat, x: int)
    requires 0 <= x < n
    ensures Tree(x, []) in Vertices(n)
  {
    assert x in Upto(0, n);
  }

  lemma StartFree(n: nat, active: seq<bool>, free: seq<int>)
    requires |active| == 2 * n && |free| == n
    requires (forall i :: 0 <= i < 2 * n ==> active[i] == (i < n)) && forall k :: 0 <= k < n ==> free[k] == n + k
    ensures FreeList(free, active, n) && Accounted(Vertices(n), {}, active, n)
  {
    VerticesCovered(n);
    hide Covered, Vertices;
    forall i
      ensures i in free <==> n <= i < 2 * n && !active[i]
    {
      if n <= i < 2 * n {
        assert free[i - n] == i;
      }
    }
  }

  lemma StartArrays(n: nat, deep: seq<seq<int>>, shallow: seq<seq<int>>, outer: seq<int>)
    requires |deep| == 2 * n && |shallow| == 2 * n && |outer| == 2 * n
    requires forall i :: 0 <= i < n ==> outer[i] == i && shallow[i] == [] && deep[i] == [i]
    ensures Arrays(Vertices(n), deep, shallow, outer)
  {
    hide Vertices;
    forall t | t in Vertices(n)
      ensures Outermost(t, deep, shallow, outer)
    {
      InVertices(n, t);
      VertexOutermost(t.id, n, deep, shallow, outer);
    }
  }

  lemma VertexOutermost(v: int, n: nat, deep: seq<seq<int>>, shallow: seq<seq<int>>, outer: seq<int>)
    requires 0 <= v < n && |deep| == 2 * n && |shallow| == 2 * n && |outer| == 2 * n
    requires outer[v] == v && shallow[v] == [] && deep[v] == [v]
    ensures Outermost(Tree(v, []), deep, shallow, outer)
  {
    assert Roots([]) == [];
  }

  /** The arrays before the first step. */
  lemma StartWhole(n: nat, active: seq<bool>, free: seq<int>, deep: seq<seq<int>>, shallow: seq<seq<int>>,
                   outer: seq<int>)
    requires |active| == 2 * n && |deep| == 2 * n && |shallow| == 2 * n && |outer| == 2 * n && |free| == n
    requires forall i :: 0 <= i < 2 * n ==> active[i] == (i < n)
    requires forall i :: 0 <= i < n ==> outer[i] == i && shallow[i] == [] && deep[i] == [i]
    requires forall k :: 0 <= k < n ==> free[k] == n + k
    ensures Whole(Vertices(n), {}, n, active, free, deep, shallow, outer)
  {
    VerticesCovered(n);
    StartFree(n, active, free);
    StartArrays(n, deep, shallow, outer);
    hide Vertices, Laminar, Accounted, FreeList, Arrays;
  }

  lemma StartTight(n: nat, slack: seq<real>)
    ensures TightFamily(Vertices(n), slack, n)
  {
  }

  /** Without duals the shifted costs certify themselves. */
  lemma StartCertified(n: nat, slack: seq<real>, dual: seq<real>, deep: seq<seq<int>>)
    requires |slack| == EdgeCount(n) && |dual| == 2 * n && |deep| == 2 * n
    requires (forall i :: 0 <= i < |slack| ==> slack[i] >= 0.0) && forall j :: 0 <= j < 2 * n ==> dual[j] == 0.0
    ensures Certified(n, slack, slack, dual, deep)
  {
    forall u, v | 0 <= u < v < n
      ensures SlackOf(slack, n, u, v) >= 0.0 && DualSum(dual, deep, u, v) == 0.0
    {
      IndexInRange(n, u, v);
      SumConstant(Shares(dual, deep, u, v), 0.0, 2 * n);
    }
  }

  lemma StartSettled(n: nat, outer: seq<int>, active: seq<bool>, blocked: seq<bool>, dual: seq<real>)
    requires |outer| == 2 * n && |active| == 2 * n && |blocked| == 2 * n && |dual| == 2 * n
    requires forall j :: 0 <= j < 2 * n ==> dual[j] == 0.0 && !blocked[j]
    ensures Settled(Upto(n, 2 * n), n, outer, active, blocked, dual)
  {
  }

  /** A cheapest matching for the shifted costs is one for the costs. */
  lemma CheapestForCosts(n: nat, costs: seq<real>, shifted: seq<real>, shift: real, best: seq<int>, other: seq<int>)
    requires |costs| == EdgeCount(n) && IsPerfect(best, n) && IsPerfect(other, n) && Lowered(costs, shifted, shift)
    requires TwiceCost(EdgeFunction(shifted, n), best) <= TwiceCost(EdgeFunction(shifted, n), other)
    ensures TwiceCost(EdgeFunction(costs, n), best) <= TwiceCost(EdgeFunction(costs, n), other)
  {
    forall u, v | 0 <= u < n && 0 <= v < n && u != v
      ensures EdgeFunction(shifted, n)(u, v) == EdgeFunction(costs, n)(u, v) - shift
    {
      IndexInRange(n, u, v);
    }
    hide EdgeFunction, EdgeCount, TwiceCost;
    ShiftKeepsOrder(n, EdgeFunction(costs, n), EdgeFunction(shifted, n), shift, best);
    ShiftKeepsOrder(n, EdgeFunction(costs, n), EdgeFunction(shifted, n), shift, other);
  }

  // The greedy matching ------------------------------------------------------------------------------------

  /** Every outermost node is unmatched or matched over an edge without slack. */
  ghost predicate PartlyMatched(family: set<Tree>, mate: seq<int>, slack: seq<real>, n: nat) {
    |mate| == 2 * n && forall t :: t in family && 0 <= t.id < 2 * n ==>
      mate[t.id] == -1 || HasMate(family, t, mate, slack, n)
  }

  /** Matching two unmatched nodes keeps the others. */
  lemma MatchTwo(family: set<Tree>, n: nat, mate: seq<int>, slack: seq<real>, s: Tree, t: Tree, u: int, v: int)
    requires Laminar(family, {}, n) && PartlyMatched(family, mate, slack, n) && s in family && t in family && s != t
    requires 0 <= s.id < 2 * n && 0 <= t.id < 2 * n && mate[s.id] == -1 && mate[t.id] == -1
    requires u in Leaves(s) && v in Leaves(t) && Tight(slack, n, u, v)
    ensures PartlyMatched(family, mate[s.id := v][t.id := u], slack, n)
  {
    var mate' := mate[s.id := v][t.id := u];
    RootsApart(family, n, s);
    RootsApart(family, n, t);
    assert Mutual(s, t, mate', slack, n) && Mutual(t, s, mate', slack, n);
    forall r | r in family && 0 <= r.id < 2 * n
      ensures mate'[r.id] == -1 || HasMate(family, r, mate', slack, n)
    {
      if r == s {
        HasMateBy(family, s, t, mate', slack, n);
      } else if r == t {
        HasMateBy(family, t, s, mate', slack, n);
      } else if mate[r.id] != -1 {
        OtherMate(family, n, mate, mate', slack, s, t, r);
      }
    }
  }

  lemma OtherMate(family: set<Tree>, n: nat, mate: seq<int>, mate': seq<int>, slack: seq<real>, s: Tree, t: Tree,
                  r: Tree)
    requires Laminar(family, {}, n) && HasMate(family, r, mate, slack, n) && |mate| == 2 * n && |mate'| == 2 * n
    requires s in family && t in family && r in family && r != s && r != t && s != t
    requires 0 <= s.id < 2 * n && 0 <= t.id < 2 * n && mate[s.id] == -1 && mate[t.id] == -1
    requires forall i :: 0 <= i < 2 * n && i != s.id && i != t.id ==> mate'[i] == mate[i]
    ensures HasMate(family, r, mate', slack, n)
  {
    RootsApart(family, n, r);
    var q :| q in family && q != r && Mutual(r, q, mate, slack, n);
    assert Tight(slack, n, mate[q.id], mate[r.id]);
    assert q.id != s.id && q.id != t.id;
    hide Laminar, Tight;
    MutualFrame(r, q, mate, mate', slack, n);
    HasMateBy(family, r, q, mate', slack, n);
  }

  /** v can be matched to u: joined without slack, in another outermost node, and unmatched. */
  predicate Candidate(u: int, v: int, n: nat, slack: seq<real>, outer: seq<int>, mate: seq<int>) {
    && 0 <= u < n && 0 <= v < n && |slack| == EdgeCount(n) && |outer| == 2 * n && |mate| == 2 * n
    && u != v && !IsEdgeBlocked(slack, n, u, v) && outer[u] != outer[v] && 0 <= outer[v] < 2 * n && mate[outer[v]] == -1
  }

  lemma CandidateTight(u: int, v: int, n: nat, slack: seq<real>, outer: seq<int>, mate: seq<int>)
    requires Candidate(u, v, n, slack, outer, mate)
    ensures Tight(slack, n, u, v) && outer[u] != outer[v] && mate[outer[v]] == -1 && 0 <= v < n && 0 <= outer[v] < 2 * n
  {
  }

  /** Nothing can be matched to u, or its node is matched. */
  ghost predicate Exhausted(u: int, n: nat, slack: seq<real>, outer: seq<int>, mate: seq<int>) {
    0 <= u < n && |outer| == 2 * n && |mate| == 2 * n && 0 <= outer[u] < 2 * n &&
    forall v :: 0 <= v < n && Candidate(u, v, n, slack, outer, mate) ==> mate[outer[u]] != -1
  }

  /** Matching more nodes leaves no new candidates. */
  lemma StillExhausted(u: int, n: nat, slack: seq<real>, outer: seq<int>, mate: seq<int>, mate': seq<int>)
    requires 0 <= u < n && |outer| == 2 * n && |mate| == 2 * n && |mate'| == 2 * n && 0 <= outer[u] < 2 * n
    requires forall i :: 0 <= i < 2 * n ==> mate'[i] == mate[i] || mate'[i] >= 0
    requires mate'[outer[u]] != -1 || forall v :: 0 <= v < n ==> !Candidate(u, v, n, slack, outer, mate)
    ensures Exhausted(u, n, slack, outer, mate')
    ensures forall x :: 0 <= x < n && Exhausted(x, n, slack, outer, mate) ==> Exhausted(x, n, slack, outer, mate')
  {
    forall x, v | 0 <= x < n && 0 <= v < n && Candidate(x, v, n, slack, outer, mate')
      ensures Candidate(x, v, n, slack, outer, mate)
    {
    }
  }

  /** All costs are lowered by the same amount. */
  ghost predicate Lowered(costs: seq<real>, slack: seq<real>, shift: real) {
    |slack| == |costs| && forall i :: 0 <= i < |costs| ==> slack[i] == costs[i] - shift
  }

  /** The shift is zero or one of the costs. */
  predicate IsShift(shift: real, costs: seq<real>) {
    shift == 0.0 || shift in costs
  }

  // Reading the matching ------------------------------------------------------------------------------------

  /** The costs of the vertices hit so far, each with its mate. */
  function HitCost(hit: seq<bool>, cost: (int, int) -> real, partner: seq<int>): int -> real {
    x => if 0 <= x < |hit| && hit[x] && x < |partner| then cost(x, partner[x]) else 0.0
  }

  ghost predicate InPair(x: int, pair: (int, int)) {
    x == pair.0 || x == pair.1
  }

  /** Each pair is a vertex and its partner, no vertex is in two pairs, and the vertices hit are those in pairs. */
  ghost predicate PairsOf(res: seq<(int, int)>, hit: seq<bool>, partner: seq<int>, n: nat) {
    && |hit| == n && |partner| == n
    && (forall k :: 0 <= k < |res| ==> 0 <= res[k].0 < n && res[k].1 == partner[res[k].0])
    && (forall k, l :: 0 <= k < l < |res| ==>
          res[k].0 != res[l].0 && res[k].0 != res[l].1 && res[k].1 != res[l].0 && res[k].1 != res[l].1)
    && (forall x :: 0 <= x < n ==> (hit[x] <==> exists k :: 0 <= k < |res| && InPair(x, res[k])))
  }

  lemma NextPair(res: seq<(int, int)>, hit: seq<bool>, partner: seq<int>, n: nat, u: int)
    requires IsPerfect(partner, n) && PairsOf(res, hit, partner, n) && 0 <= u < n && !hit[u]
    ensures 0 <= partner[u] < n && !hit[partner[u]] && partner[u] != u
    ensures PairsOf(res + [(u, partner[u])], hit[u := true][partner[u] := true], partner, n)
  {
    var v := partner[u];
    assert partner[v] == u;
    if k :| 0 <= k < |res| && InPair(v, res[k]) {
      assert InPair(u, res[k]);
    }
    var more, seen := res + [(u, v)], hit[u := true][v := true];
    assert forall k :: 0 <= k < |res| ==> !InPair(u, res[k]) && !InPair(v, res[k]);
    forall x | 0 <= x < n
      ensures seen[x] <==> exists k :: 0 <= k < |more| && InPair(x, more[k])
    {
      assert more[|res|] == (u, v);
      if k :| 0 <= k < |res| && InPair(x, res[k]) {
        assert InPair(x, more[k]);
      } else if x == u || x == v {
        assert InPair(x, more[|res|]);
      }
    }
  }

  lemma NextCost(hit: seq<bool>, cost: (int, int) -> real, partner: seq<int>, n: nat, u: int)
    requires IsPerfect(partner, n) && |hit| == n && 0 <= u < n && !hit[u] && 0 <= partner[u] < n && !hit[partner[u]]
    requires cost(u, partner[u]) == cost(partner[u], u)
    ensures Sum(HitCost(hit[u := true][partner[u] := true], cost, partner), n) == Sum(HitCost(hit, cost, partner),
      n) + 2.0 * cost(u, partner[u])
  {
    var v := partner[u];
    assert partner[v] == u && v != u;
    var two := x => if x == u || x == v then cost(u, v) else 0.0;
    SumPlus(HitCost(hit, cost, partner), two, HitCost(hit[u := true][v := true], cost, partner), n);
    SumPair(two, u, v, n);
  }

  lemma AllHit(hit: seq<bool>, cost: (int, int) -> real, partner: seq<int>, n: nat)
    requires |hit| == n && |partner| == n && forall x :: 0 <= x < n ==> hit[x]
    ensures Sum(HitCost(hit, cost, partner), n) == TwiceCost(cost, partner)
  {
    SumEqual(HitCost(hit, cost, partner), CostAt(cost, partner), n);
  }

  lemma NoneHit(cost: (int, int) -> real, partner: seq<int>, n: nat, hit: seq<bool>)
    requires |hit| == n && |partner| == n && forall x :: 0 <= x < n ==> !hit[x]
    ensures Sum(HitCost(hit, cost, partner), n) == 0.0 && PairsOf([], hit, partner, n)
  {
    SumConstant(HitCost(hit, cost, partner), 0.0, n);
  }
}
