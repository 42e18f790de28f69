/** The scheduler's order is fully determined: at most one repetition-free,
    edge-respecting sequence is the roots followed by its own batches, so the
    sort's postcondition pins its result down. Worked examples: the cycles
    the sort refuses, and the default five-node graph, which it accepts. */
module SchedulerOrder {
  import opened GraphTypes
  import opened Paths
  import opened Scheduler

  /** Every node released while visiting succ[..j] is one of those
      successors. */
  lemma {:induction false} NewlyReadyFrom(edges: seq<Edge>, done: seq<NodeId>, succ: seq<NodeId>, j: nat)
    requires j <= |succ|
    ensures forall x :: x in NewlyReady(edges, done, succ, j) ==> x in succ
  {
    if j > 0 {
      NewlyReadyFrom(edges, done, succ, j - 1);
    }
  }

  /** A node released while visiting the successors of s has an edge from
      s. */
  lemma ReleasedFrom(edges: seq<Edge>, done: seq<NodeId>, s: NodeId, q: nat)
    requires var succ := Successors(edges, s); q < |NewlyReady(edges, done, succ, |succ|)|
    ensures var succ := Successors(edges, s); (s, NewlyReady(edges, done, succ, |succ|)[q]) in edges
  {
    var succ := Successors(edges, s);
    var released := NewlyReady(edges, done, succ, |succ|);
    NewlyReadyFrom(edges, done, succ, |succ|);
    assert forall x :: x in released ==> x in succ;
    var x := released[q];
    assert x in released;
    assert x in succ;
  }

  /** The batches of a prefix of done are a prefix of the batches of done. */
  lemma {:induction false} BatchesPrefix(edges: seq<Edge>, done: seq<NodeId>, m: nat)
    requires m <= |done|
    ensures var b := Batches(edges, done[..m]);
            |b| <= |Batches(edges, done)| && Batches(edges, done)[..|b|] == b
  {
    if m < |done| {
      var init := done[..|done| - 1];
      assert init[..m] == done[..m];
      BatchesPrefix(edges, init, m);
    } else {
      assert done[..m] == done;
    }
  }

  /** Processing more nodes never shrinks the batches. */
  lemma BatchesGrow(edges: seq<Edge>, done: seq<NodeId>, a: nat, b: nat)
    requires a <= b <= |done|
    ensures |Batches(edges, done[..a])| <= |Batches(edges, done[..b])|
  {
    BatchesPrefix(edges, done[..b], a);
    assert done[..b][..a] == done[..a];
  }

  /** Short prefixes are the same with or without the last entry. */
  lemma PrefixOfInit(s: seq<NodeId>, m: nat)
    requires m + 1 < |s|
    ensures s[..|s| - 1][..m] == s[..m] && s[..|s| - 1][..m + 1] == s[..m + 1]
  {
  }

  /** Position p of the batches of done lies in the batch of done[m]: past
      the batches of done[..m] and within those of done[..m + 1], and done[m]
      has an edge to the node there. */
  ghost predicate OriginAt(edges: seq<Edge>, done: seq<NodeId>, p: nat, m: nat) {
    && m < |done| && p < |Batches(edges, done)|
    && |Batches(edges, done[..m])| <= p < |Batches(edges, done[..m + 1])|
    && (done[m], Batches(edges, done)[p]) in edges
  }

  /** A position among the batches of done without its last node has its
      origin there. */
  lemma {:induction false} OriginEarlier(edges: seq<Edge>, done: seq<NodeId>, p: nat) returns (m: nat)
    requires done != [] && p < |Batches(edges, done[..|done| - 1])|
    ensures OriginAt(edges, done, p, m)
    decreases |done|, 0
  {
    var init := done[..|done| - 1];
    m := BatchOrigin(edges, init, p);
    PrefixOfInit(done, m);
    var succ := Successors(edges, Last(done));
    assert Batches(edges, done) == Batches(edges, init) + NewlyReady(edges, done, succ, |succ|);
    assert Batches(edges, done)[p] == Batches(edges, init)[p];
  }

  /** A position past the batches of done without its last node lies in the
      last node's batch. */
  lemma OriginLast(edges: seq<Edge>, done: seq<NodeId>, p: nat)
    requires done != [] && |Batches(edges, done[..|done| - 1])| <= p < |Batches(edges, done)|
    ensures OriginAt(edges, done, p, |done| - 1)
  {
    var init := done[..|done| - 1];
    var succ := Successors(edges, Last(done));
    assert Batches(edges, done) == Batches(edges, init) + NewlyReady(edges, done, succ, |succ|);
    assert done[..|done| - 1 + 1] == done;
    ReleasedFrom(edges, done, Last(done), p - |Batches(edges, init)|);
  }

  /** Each released node belongs to the batch of some node of done with an
      edge to it. */
  lemma {:induction false} BatchOrigin(edges: seq<Edge>, done: seq<NodeId>, p: nat) returns (m: nat)
    requires p < |Batches(edges, done)|
    ensures OriginAt(edges, done, p, m)
    decreases |done|, 1
  {
    assert done != [];
    if p < |Batches(edges, done[..|done| - 1])| {
      m := OriginEarlier(edges, done, p);
    } else {
      OriginLast(edges, done, p);
      m := |done| - 1;
    }
  }

  /** The node of done whose batch holds position p has an edge to the
      node there, and that batch ends within the batches of done[..m + 1]. */
  lemma BatchSource(edges: seq<Edge>, done: seq<NodeId>, p: nat) returns (m: nat)
    requires p < |Batches(edges, done)|
    ensures m < |done| && p < |Batches(edges, done[..m + 1])|
    ensures (done[m], Batches(edges, done)[p]) in edges
  {
    m := BatchOrigin(edges, done, p);
  }

  /** In a repetition-free, edge-respecting sequence every edge into r[m]
      comes from an earlier position. */
  lemma EdgesBackward(r: seq<NodeId>, edges: seq<Edge>, m: nat)
    requires Distinct(r) && RespectsEdges(r, edges) && m < |r|
    ensures forall k :: 0 <= k < |r| && (r[k], r[m]) in edges ==> k < m
  {
    forall k | 0 <= k < |r| && (r[k], r[m]) in edges
      ensures k < m
    {
      assert r[k] in r[..m];
      var i :| 0 <= i < m && r[..m][i] == r[k];
      assert r[i] == r[k];
    }
  }

  /** Node r[m], past the roots, was released before r[m] itself was
      processed: the roots and the batches of r[..m] already reach past
      position m. */
  lemma ReleasedAhead(roots: seq<NodeId>, edges: seq<Edge>, r: seq<NodeId>, m: nat)
    requires |roots| <= m < |roots| + |Batches(edges, r)| && m < |r|
    requires r[m] == Batches(edges, r)[m - |roots|]
    requires forall k :: 0 <= k < |r| && (r[k], r[m]) in edges ==> k < m
    ensures m < |roots| + |Batches(edges, r[..m])|
  {
    var p := m - |roots|;
    var k := BatchSource(edges, r, p);
    assert (r[k], r[m]) in edges;
    assert k < m;
    BatchesGrow(edges, r, k + 1, m);
    assert p < |Batches(edges, r[..m])|;
  }

  /** Entry m of roots + b, past the roots, is an entry of b. */
  lemma EntryAfter(roots: seq<NodeId>, b: seq<NodeId>, r: seq<NodeId>, m: nat)
    requires r == roots + b && |roots| <= m < |r|
    ensures b[m - |roots|] == r[m]
  {
  }

  /** Entry j of roots + b, where b is a prefix of the batches. */
  lemma PrefixEntry(roots: seq<NodeId>, batches: seq<NodeId>, b: seq<NodeId>, r: seq<NodeId>, j: nat)
    requires r == roots + batches && |b| <= |batches| && batches[..|b|] == b
    requires j < |roots| + |b|
    ensures r[j] == (roots + b)[j]
  {
    if j >= |roots| {
      assert b[j - |roots|] == batches[..|b|][j - |roots|];
    }
  }

  /** In an edge-respecting fixpoint, r[j] is determined by r[..j]: it is
      entry j of the roots followed by the batches of r[..j]. */
  lemma PositionDetermined(roots: seq<NodeId>, edges: seq<Edge>, r: seq<NodeId>, j: nat)
    requires Distinct(r) && RespectsEdges(r, edges)
    requires r == roots + Batches(edges, r)
    requires j < |r|
    ensures var q := roots + Batches(edges, r[..j]);
            j < |q| && r[j] == q[j]
  {
    if j >= |roots| {
      EdgesBackward(r, edges, j);
      EntryAfter(roots, Batches(edges, r), r, j);
      ReleasedAhead(roots, edges, r, j);
    }
    BatchesPrefix(edges, r, j);
    PrefixEntry(roots, Batches(edges, r), Batches(edges, r[..j]), r, j);
  }

  /** Extending two equal prefixes by equal entries. */
  lemma ExtendPrefix(r1: seq<NodeId>, r2: seq<NodeId>, j: nat)
    requires j < |r1| && j < |r2| && r1[..j] == r2[..j] && r1[j] == r2[j]
    ensures r1[..j + 1] == r2[..j + 1]
  {
    assert r1[..j + 1] == r1[..j] + [r1[j]];
    assert r2[..j + 1] == r2[..j] + [r2[j]];
  }

  /** Two edge-respecting fixpoints of the same length agree on a prefix of
      every length. */
  lemma {:induction false} FixpointPrefix(roots: seq<NodeId>, edges: seq<Edge>, r1: seq<NodeId>, r2: seq<NodeId>, k: nat)
    requires Distinct(r1) && RespectsEdges(r1, edges) && r1 == roots + Batches(edges, r1)
    requires Distinct(r2) && RespectsEdges(r2, edges) && r2 == roots + Batches(edges, r2)
    requires |r1| == |r2| && k <= |r1|
    ensures r1[..k] == r2[..k]
  {
    if k > 0 {
      var j := k - 1;
      FixpointPrefix(roots, edges, r1, r2, j);
      PositionDetermined(roots, edges, r1, j);
      PositionDetermined(roots, edges, r2, j);
      ExtendPrefix(r1, r2, j);
    }
  }

  /** The sort's result is unique: two orderings of the nodes that respect
      the edges and are both the roots followed by their own batches are
      equal. */
  lemma SortResultUnique(ids: seq<NodeId>, edges: seq<Edge>, r1: seq<NodeId>, r2: seq<NodeId>)
    requires IsOrderingOf(r1, ids) && RespectsEdges(r1, edges) && r1 == Roots(ids, edges) + Batches(edges, r1)
    requires IsOrderingOf(r2, ids) && RespectsEdges(r2, edges) && r2 == Roots(ids, edges) + Batches(edges, r2)
    ensures r1 == r2
  {
    FixpointPrefix(Roots(ids, edges), edges, r1, r2, |r1|);
    assert r1[..|r1|] == r1 && r2[..|r2|] == r2;
  }

  /** An edge list with a self-loop has a cycle. */
  lemma SelfLoopCycle(edges: seq<Edge>, v: NodeId)
    requires (v, v) in edges
    ensures HasCycle(edges)
  {
    assert IsCycle(edges, [v, v]);
  }

  /** An edge list with two edges in opposite directions has a cycle. */
  lemma TwoNodeCycle(edges: seq<Edge>, a: NodeId, b: NodeId)
    requires (a, b) in edges && (b, a) in edges
    ensures HasCycle(edges)
  {
    var c := [a, b, a];
    assert (c[0], c[1]) in edges && (c[1], c[2]) in edges;
    assert IsCycle(edges, c);
  }

  const DiamondIds: seq<NodeId> := [1, 2, 3, 4, 5]
  const DiamondEdges: seq<Edge> := [(1, 2), (1, 3), (1, 4), (2, 5), (3, 5), (4, 5)]

  /** The default graph: node 1 feeds 2, 3 and 4, which all feed 5. It has
      no cycle, since 1, 2, 3, 4, 5 places every edge's source first. */
  lemma DiamondAcyclic()
    ensures !HasCycle(DiamondEdges)
  {
    var order := DiamondIds;
    forall j, e | 0 <= j < |order| && e in DiamondEdges && e.1 == order[j]
      ensures e.0 in order[..j]
    {
      if e.1 == 5 {
        assert j == 4 && order[..j] == [1, 2, 3, 4];
      } else {
        assert e.0 == 1 && order[0] == 1 && j > 0;
      }
    }
    OrderedAcyclic(order, DiamondEdges);
  }
}
