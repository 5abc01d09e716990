/** The places of the edges of a complete graph in a triangular array. */
module EdgeIndex {

  /** The place of the edge between u and v, whichever is smaller. */
  function GetEdgeIndex(n: nat, u: int, v: int): int
    requires 0 <= u < n && 0 <= v < n && u != v
  {
    if u > v then GetEdgeIndex(n, v, u) else u * n - (u + 1) * (u + 2) / 2 + v
  }

  /** The number of edges. */
  function EdgeCount(n: nat): int {
    n * (n - 1) / 2
  }

  /** How many edges come before those whose smaller end is u. */
  function RowStart(n: nat, u: nat): int
    requires u <= n
  {
    if u == 0 then 0 else RowStart(n, u - 1) + (n - u)
  }

  lemma {:induction false} RowStartIs(n: nat, u: nat)
    requires u <= n
    ensures 2 * RowStart(n, u) == 2 * (u * n) - u * (u + 1)
    ensures (u * (u + 1)) % 2 == 0
  {
    if u > 0 {
      RowStartIs(n, u - 1);
      RowProducts(n, u);
    }
  }

  lemma RowProducts(n: int, u: int)
    ensures u * n == (u - 1) * n + n && u * (u + 1) == (u - 1) * u + 2 * u
  {
  }

  lemma IndexIs(n: nat, u: int, v: int)
    requires 0 <= u < v < n
    ensures GetEdgeIndex(n, u, v) == RowStart(n, u) + (v - u - 1)
  {
    RowStartIs(n, u);
    assert (u + 1) * (u + 2) == u * (u + 1) + 2 * (u + 1);
  }

  lemma RowsEnd(n: nat)
    ensures RowStart(n, n) == EdgeCount(n)
  {
    RowStartIs(n, n);
    assert 2 * (n * n) - n * (n + 1) == n * (n - 1);
  }

  lemma {:induction false} RowsGrow(n: nat, u: nat, w: nat)
    requires u <= w <= n
    ensures RowStart(n, u) <= RowStart(n, w)
  {
    if u < w {
      RowsGrow(n, u, w - 1);
    }
  }

  /** Every edge has a place of its own within the array. */
  lemma IndexInRange(n: nat, u: int, v: int)
    requires 0 <= u < n && 0 <= v < n && u != v
    ensures 0 <= GetEdgeIndex(n, u, v) < EdgeCount(n)
  {
    var a, b := if u < v then u else v, if u < v then v else u;
    IndexIs(n, a, b);
    RowsGrow(n, 0, a);
    RowsGrow(n, a + 1, n);
    RowsEnd(n);
  }

  lemma LaterRow(n: nat, u: int, v: int, x: int, y: int)
    requires 0 <= u < v < n && 0 <= x < y < n && u < x
    ensures GetEdgeIndex(n, u, v) < GetEdgeIndex(n, x, y)
  {
    IndexIs(n, u, v);
    IndexIs(n, x, y);
    RowsGrow(n, u + 1, x);
  }

  lemma IndexInjective(n: nat, u: int, v: int, x: int, y: int)
    requires 0 <= u < v < n && 0 <= x < y < n && GetEdgeIndex(n, u, v) == GetEdgeIndex(n, x, y)
    ensures u == x && v == y
  {
    if u < x {
      LaterRow(n, u, v, x, y);
    } else if x < u {
      LaterRow(n, x, y, u, v);
    }
  }

  /** Every place below the row of w is the place of an edge. */
  lemma {:induction false} IndexOntoRows(n: nat, w: nat, i: int) returns (u: int, v: int)
    requires w <= n && 0 <= i < RowStart(n, w)
    ensures 0 <= u < v < n && GetEdgeIndex(n, u, v) == i
  {
    if i >= RowStart(n, w - 1) {
      u, v := w - 1, i - RowStart(n, w - 1) + w;
      IndexIs(n, u, v);
    } else {
      u, v := IndexOntoRows(n, w - 1, i);
    }
  }

  /** The edges and the places correspond one to one, and a place does not depend on the direction. */
  lemma IndexIsBijection(n: nat, u: int, v: int, x: int, y: int)
    requires 0 <= u < n && 0 <= v < n && u != v && 0 <= x < n && 0 <= y < n && x != y
    ensures 0 <= GetEdgeIndex(n, u, v) < EdgeCount(n)
    ensures GetEdgeIndex(n, u, v) == GetEdgeIndex(n, x, y) <==> (u == x && v == y) || (u == y && v == x)
  {
    IndexInRange(n, u, v);
    var a, b := if u < v then u else v, if u < v then v else u;
    var c, d := if x < y then x else y, if x < y then y else x;
    if GetEdgeIndex(n, a, b) == GetEdgeIndex(n, c, d) {
      IndexInjective(n, a, b, c, d);
    }
  }

  lemma IndexOnto(n: nat, i: int) returns (u: int, v: int)
    requires 0 <= i < EdgeCount(n)
    ensures 0 <= u < v < n && GetEdgeIndex(n, u, v) == i
  {
    RowsEnd(n);
    u, v := IndexOntoRows(n, n, i);
  }

  /** The slack of the edge between two points. */
  function SlackOf(slack: seq<real>, n: nat, u: int, v: int): real
    requires 0 <= u < n && 0 <= v < n && u != v && |slack| == EdgeCount(n)
  {
    IndexInRange(n, u, v);
    slack[GetEdgeIndex(n, u, v)]
  }

  /** An edge can be used only while it has no slack. */
  predicate IsEdgeBlocked(slack: seq<real>, n: nat, u: int, v: int)
    requires 0 <= u < n && 0 <= v < n && u != v && |slack| == EdgeCount(n)
  {
    SlackOf(slack, n, u, v) > 0.0
  }

  predicate IsAdjacent(slack: seq<real>, n: nat, u: int, v: int)
    requires 0 <= u < n && 0 <= v < n && |slack| == EdgeCount(n)
  {
    u != v && !IsEdgeBlocked(slack, n, u, v)
  }
}
