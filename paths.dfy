/** Walks and cycles in the edge list, and the two facts that tie Kahn's
    algorithm to cycles: a non-empty set of nodes each of which has an
    incoming edge from inside the set contains a cycle, and an ordering that
    places every edge's source before its target rules cycles out. */
module Paths {
  import opened GraphTypes

  /** Each consecutive pair of p is an edge. */
  ghost predicate IsWalk(edges: seq<Edge>, p: seq<NodeId>) {
    forall k :: 0 <= k < |p| - 1 ==> (p[k], p[k + 1]) in edges
  }

  /** A closed walk of at least one edge: [v, v] is a self-loop,
      [1, 2, 1] the loop 1 -> 2 -> 1. */
  ghost predicate IsCycle(edges: seq<Edge>, c: seq<NodeId>) {
    |c| >= 2 && IsWalk(edges, c) && c[0] == c[|c| - 1]
  }

  ghost predicate HasCycle(edges: seq<Edge>) {
    exists c :: IsCycle(edges, c)
  }

  /** Every node of u has an incoming edge whose source is in u: the state in
      which Kahn's algorithm can remove none of them. */
  ghost predicate Blocked(edges: seq<Edge>, u: set<NodeId>) {
    forall x :: x in u ==> exists e :: e in edges && e.1 == x && e.0 in u
  }

  /** Every edge into order[j] comes from a node placed before position j. */
  ghost predicate RespectsEdges(order: seq<NodeId>, edges: seq<Edge>) {
    forall j, e :: 0 <= j < |order| && e in edges && e.1 == order[j] ==> e.0 in order[..j]
  }

  /** Position of x in s (its first one). */
  function IndexOf(s: seq<NodeId>, x: NodeId): (i: nat)
    requires x in s
    ensures i < |s| && s[i] == x
    ensures forall j :: 0 <= j < i ==> s[j] != x
  {
    if s[0] == x then 0 else 1 + IndexOf(s[1..], x)
  }

  lemma IndexOfDistinct(s: seq<NodeId>, i: nat)
    requires Distinct(s) && i < |s|
    ensures IndexOf(s, s[i]) == i
  {
  }

  /** Walking back from v through edges that stay inside a blocked set u
      yields a walk of any length inside u ending at v. */
  lemma {:induction false} WalkInto(edges: seq<Edge>, u: set<NodeId>, n: nat, v: NodeId)
    returns (p: seq<NodeId>)
    requires v in u && Blocked(edges, u)
    ensures |p| == n + 1 && p[n] == v && IsWalk(edges, p)
    ensures forall k :: 0 <= k < |p| ==> p[k] in u
  {
    if n == 0 {
      p := [v];
    } else {
      var q := WalkInto(edges, u, n - 1, v);
      var e :| e in edges && e.1 == q[0] && e.0 in u;
      p := [e.0] + q;
      assert (p[0], p[1]) == e;
      forall k | 0 <= k < |p| - 1 ensures (p[k], p[k + 1]) in edges {
        if k > 0 {
          assert (p[k], p[k + 1]) == (q[k - 1], q[k]);
        }
      }
    }
  }

  /** A non-empty blocked set contains a cycle. */
  lemma BlockedHasCycle(edges: seq<Edge>, u: set<NodeId>, v: NodeId)
    requires v in u && Blocked(edges, u)
    ensures HasCycle(edges)
  {
    var p := WalkInto(edges, u, |u|, v);
    Pigeonhole(p, u);
    var i, j :| 0 <= i < j < |p| && p[i] == p[j];
    var c := p[i..j + 1];
    forall k | 0 <= k < |c| - 1 ensures (c[k], c[k + 1]) in edges {
      assert (c[k], c[k + 1]) == (p[i + k], p[i + k + 1]);
    }
    assert IsCycle(edges, c);
  }

  /** In a repetition-free ordering that respects the edges and holds every
      edge target, every edge's source comes strictly before its target. */
  lemma EdgeSourceFirst(order: seq<NodeId>, edges: seq<Edge>, e: Edge)
    requires Distinct(order) && RespectsEdges(order, edges)
    requires e in edges && e.1 in order
    ensures e.0 in order && IndexOf(order, e.0) < IndexOf(order, e.1)
  {
    var j := IndexOf(order, e.1);
    assert e.0 in order[..j];
    var i :| 0 <= i < j && order[..j][i] == e.0;
    IndexOfDistinct(order, i);
  }

  /** Along a walk whose nodes are all ordered, positions strictly increase. */
  lemma {:induction false} WalkClimbs(order: seq<NodeId>, edges: seq<Edge>, p: seq<NodeId>, m: nat)
    requires Distinct(order) && RespectsEdges(order, edges)
    requires IsWalk(edges, p) && 1 <= m < |p|
    requires forall x :: x in p ==> x in order
    ensures IndexOf(order, p[0]) < IndexOf(order, p[m])
  {
    assert (p[m - 1], p[m]) in edges;
    EdgeSourceFirst(order, edges, (p[m - 1], p[m]));
    if m > 1 {
      WalkClimbs(order, edges, p, m - 1);
    }
  }

  /** An ordering that respects the edges and holds every edge target
      witnesses that the graph has no cycle. */
  lemma OrderedAcyclic(order: seq<NodeId>, edges: seq<Edge>)
    requires Distinct(order) && RespectsEdges(order, edges)
    requires forall e :: e in edges ==> e.1 in order
    ensures !HasCycle(edges)
  {
    if c :| IsCycle(edges, c) {
      forall x | x in c ensures x in order {
        var k :| 0 <= k < |c| && c[k] == x;
        if k == 0 {
          assert (c[|c| - 2], c[|c| - 1]) in edges;
        } else {
          assert (c[k - 1], c[k]) in edges;
        }
      }
      WalkClimbs(order, edges, c, |c| - 1);
    }
  }
}
