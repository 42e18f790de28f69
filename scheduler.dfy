/** The scheduler: Kahn's algorithm over the node insertion order and the
    edge list, with a FIFO queue seeded by the nodes without incoming edges
    in insertion order, and in-degrees that count duplicate edges
    separately. It succeeds exactly when the graph has no cycle, and then
    returns every node once, each edge's source before its target. */
module Scheduler {
  import opened GraphTypes
  import opened Paths

  /** Number of edges into v whose source is not among done: v's in-degree
      once the nodes of done have been removed from the graph. With done
      empty, the in-degree itself. */
  function Pending(edges: seq<Edge>, done: seq<NodeId>, v: NodeId): nat {
    if edges == [] then 0
    else Pending(edges[..|edges| - 1], done, v)
         + (if Last(edges).1 == v && Last(edges).0 !in done then 1 else 0)
  }

  /** The targets of the edges leaving s, in edge order, one per edge. */
  function Successors(edges: seq<Edge>, s: NodeId): (ts: seq<NodeId>)
    ensures forall t :: t in ts ==> (s, t) in edges
  {
    if edges == [] then []
    else Successors(edges[..|edges| - 1], s) + (if Last(edges).0 == s then [Last(edges).1] else [])
  }

  predicate NoIncoming(edges: seq<Edge>, v: NodeId) {
    forall e :: e in edges ==> e.1 != v
  }

  /** The nodes without incoming edges, in insertion order. */
  function Roots(ids: seq<NodeId>, edges: seq<Edge>): seq<NodeId> {
    Filter(ids, v => NoIncoming(edges, v))
  }

  /** Whether visiting position j of succ, the successor list of the node
      that has just been appended to done, brings succ[j]'s in-degree to
      zero: it is the last edge from that node into succ[j], and every edge
      into succ[j] now comes from done. */
  predicate ReadyAt(edges: seq<Edge>, done: seq<NodeId>, succ: seq<NodeId>, j: nat)
    requires j < |succ|
  {
    succ[j] !in succ[j + 1..] && Pending(edges, done, succ[j]) == 0
  }

  /** The nodes enqueued while visiting succ[..j], in the order they are
      enqueued. */
  function NewlyReady(edges: seq<Edge>, done: seq<NodeId>, succ: seq<NodeId>, j: nat): seq<NodeId>
    requires j <= |succ|
  {
    if j == 0 then []
    else NewlyReady(edges, done, succ, j - 1) + (if ReadyAt(edges, done, succ, j - 1) then [succ[j - 1]] else [])
  }

  /** The nodes enqueued while processing each node of done in turn: the
      batch of done[k] is the successors of done[k] whose last predecessor
      it is, ordered by the position of the last edge from done[k] to them. */
  function Batches(edges: seq<Edge>, done: seq<NodeId>): seq<NodeId> {
    if done == [] then []
    else
      var succ := Successors(edges, Last(done));
      Batches(edges, done[..|done| - 1]) + NewlyReady(edges, done, succ, |succ|)
  }

  /** order lists each node of ids exactly once. */
  ghost predicate IsOrderingOf(order: seq<NodeId>, ids: seq<NodeId>) {
    Distinct(order) && |order| == |ids| && forall v :: v in order <==> v in ids
  }

  /** Removing one more node n lowers v's pending in-degree by the number of
      edges from n to v. */
  lemma {:induction false} PendingRemove(edges: seq<Edge>, done: seq<NodeId>, n: NodeId, v: NodeId)
    requires n !in done
    ensures Pending(edges, done, v) == Pending(edges, done + [n], v) + multiset(Successors(edges, n))[v]
  {
    if edges != [] {
      PendingRemove(edges[..|edges| - 1], done, n, v);
    }
  }

  /** v's pending in-degree is zero exactly when every edge into v comes
      from done. */
  lemma {:induction false} PendingZero(edges: seq<Edge>, done: seq<NodeId>, v: NodeId)
    ensures Pending(edges, done, v) == 0 <==> forall e :: e in edges && e.1 == v ==> e.0 in done
  {
    if edges != [] {
      var init := edges[..|edges| - 1];
      PendingZero(init, done, v);
      assert edges == init + [Last(edges)];
      assert forall e :: e in edges <==> e in init || e == Last(edges);
    }
  }

  /** With nothing removed, the pending in-degree is zero exactly for the
      nodes without incoming edges. */
  lemma InitialPending(edges: seq<Edge>, v: NodeId)
    ensures Pending(edges, [], v) == 0 <==> NoIncoming(edges, v)
  {
    PendingZero(edges, [], v);
  }

  /** Python's defaultdict(int) lookup. */
  function Count(m: map<NodeId, int>, k: NodeId): int {
    if k in m then m[k] else 0
  }

  /** Python's defaultdict(list) lookup. */
  function Adjacent(m: map<NodeId, seq<NodeId>>, k: NodeId): seq<NodeId> {
    if k in m then m[k] else []
  }

  /** The bookkeeping of Kahn's algorithm: sorted holds the nodes output so
      far and queue the ready ones, both drawn from ids without repetition;
      each node's counter is its pending in-degree plus the edges into it
      still to be visited in rest, and is zero exactly for the nodes output
      or queued. */
  ghost predicate Tracked(ids: seq<NodeId>, edges: seq<Edge>, sorted: seq<NodeId>, queue: seq<NodeId>,
                          inDegree: map<NodeId, int>, rest: seq<NodeId>)
  {
    && Distinct(sorted + queue)
    && forall v ::
         && (v in sorted + queue ==> v in ids)
         && (v in ids ==> && Count(inDegree, v) == Pending(edges, sorted, v) + multiset(rest)[v]
                          && (v in sorted + queue <==> Count(inDegree, v) == 0))
  }

  /** The state of Kahn's algorithm between two iterations of its main loop:
      the bookkeeping holds with nothing left to visit, sorted respects the
      edges, and sorted followed by the queue is the roots followed by the
      batches released so far. */
  ghost predicate KahnState(ids: seq<NodeId>, edges: seq<Edge>, sorted: seq<NodeId>,
                            queue: seq<NodeId>, inDegree: map<NodeId, int>)
  {
    && Tracked(ids, edges, sorted, queue, inDegree, [])
    && RespectsEdges(sorted, edges)
    && sorted + queue == Roots(ids, edges) + Batches(edges, sorted)
  }

  /** The state of the inner loop after visiting succ[..j], the successor
      list of the last node of sorted: the edges of succ[j..] are still to be
      visited, and the queue has grown by the nodes released so far. */
  ghost predicate Releasing(ids: seq<NodeId>, edges: seq<Edge>, sorted: seq<NodeId>, queue0: seq<NodeId>,
                            queue: seq<NodeId>, inDegree: map<NodeId, int>, succ: seq<NodeId>, j: nat)
  {
    && j <= |succ|
    && Tracked(ids, edges, sorted, queue, inDegree, succ[j..])
    && queue == queue0 + NewlyReady(edges, sorted, succ, j)
  }

  /** The first loop of the sort: one pass over the edges builds every
      node's in-degree (duplicate edges counted separately) and successor
      list (in edge order). */
  method CountEdges(edges: seq<Edge>) returns (inDegree: map<NodeId, int>, graph: map<NodeId, seq<NodeId>>)
    ensures forall v :: Count(inDegree, v) == Pending(edges, [], v)
    ensures forall s :: Adjacent(graph, s) == Successors(edges, s)
  {
    inDegree := map[];
    graph := map[];
    for i := 0 to |edges|
      invariant forall v :: Count(inDegree, v) == Pending(edges[..i], [], v)
      invariant forall s :: Adjacent(graph, s) == Successors(edges[..i], s)
    {
      var (src, tgt) := edges[i];
      graph := graph[src := Adjacent(graph, src) + [tgt]];
      inDegree := inDegree[tgt := Count(inDegree, tgt) + 1];
      if src !in inDegree {
        inDegree := inDegree[src := Count(inDegree, src)];
      }
      forall v ensures Count(inDegree, v) == Pending(edges[..i + 1], [], v) {
        CountStep(edges, i, v);
      }
      forall s ensures Adjacent(graph, s) == Successors(edges[..i + 1], s) {
        CountStep(edges, i, s);
      }
    }
    assert edges[..|edges|] == edges;
  }

  /** Counting one more edge raises only its target's in-degree, and lists
      that target after its source's earlier successors. */
  lemma CountStep(edges: seq<Edge>, i: nat, v: NodeId)
    requires i < |edges|
    ensures Pending(edges[..i + 1], [], v) == Pending(edges[..i], [], v) + (if edges[i].1 == v then 1 else 0)
    ensures Successors(edges[..i + 1], v) == Successors(edges[..i], v) + (if edges[i].0 == v then [edges[i].1] else [])
  {
    assert edges[..i + 1][..i] == edges[..i];
  }

  /** The inner loop of the sort: after the last node of sorted is output,
      visit its successor list, decrement each successor's counter once per
      edge, and enqueue a successor when its counter reaches zero. */
  method ReleaseSuccessors(ids: seq<NodeId>, edges: seq<Edge>, sorted: seq<NodeId>,
                           queue0: seq<NodeId>, inDegree0: map<NodeId, int>, succ: seq<NodeId>)
    returns (queue: seq<NodeId>, inDegree: map<NodeId, int>)
    requires forall t :: t in succ ==> t in ids
    requires Tracked(ids, edges, sorted, queue0, inDegree0, succ)
    ensures Releasing(ids, edges, sorted, queue0, queue, inDegree, succ, |succ|)
  {
    queue, inDegree := queue0, inDegree0;
    assert succ[0..] == succ && queue0 + [] == queue0;
    for j := 0 to |succ|
      invariant Releasing(ids, edges, sorted, queue0, queue, inDegree, succ, j)
    {
      var neighbor := succ[j];
      ReleaseStep(ids, edges, sorted, queue0, queue, inDegree, succ, j);
      inDegree := inDegree[neighbor := Count(inDegree, neighbor) - 1];
      if inDegree[neighbor] == 0 {
        queue := queue + [neighbor];
      }
    }
  }

  /** One visit of the inner loop: decrementing succ[j]'s counter reaches
      zero exactly when succ[j] becomes ready, and enqueuing it then keeps
      the inner loop's state. */
  lemma ReleaseStep(ids: seq<NodeId>, edges: seq<Edge>, sorted: seq<NodeId>, queue0: seq<NodeId>,
                    queue: seq<NodeId>, inDegree: map<NodeId, int>, succ: seq<NodeId>, j: nat)
    requires j < |succ| && succ[j] in ids
    requires Releasing(ids, edges, sorted, queue0, queue, inDegree, succ, j)
    ensures var t := succ[j];
            var d := inDegree[t := Count(inDegree, t) - 1];
            && (d[t] == 0 <==> ReadyAt(edges, sorted, succ, j))
            && Releasing(ids, edges, sorted, queue0, if d[t] == 0 then queue + [t] else queue, d, succ, j + 1)
  {
    var t := succ[j];
    assert succ[j..] == [t] + succ[j + 1..];
    var d := inDegree[t := Count(inDegree, t) - 1];
    assert Count(d, t) == Pending(edges, sorted, t) + multiset(succ[j + 1..])[t];
    if d[t] == 0 {
      assert sorted + (queue + [t]) == (sorted + queue) + [t];
    }
  }

  /** The queue is first seeded with the nodes of in-degree zero in
      insertion order: the roots. */
  lemma InitialState(ids: seq<NodeId>, edges: seq<Edge>, inDegree: map<NodeId, int>)
    requires Distinct(ids)
    requires forall v :: Count(inDegree, v) == Pending(edges, [], v)
    ensures KahnState(ids, edges, [], Filter(ids, v => Count(inDegree, v) == 0), inDegree)
  {
    var queue := Filter(ids, v => Count(inDegree, v) == 0);
    forall i | 0 <= i < |ids| ensures (Count(inDegree, ids[i]) == 0) == NoIncoming(edges, ids[i]) {
      InitialPending(edges, ids[i]);
    }
    FilterAgrees(ids, v => Count(inDegree, v) == 0, v => NoIncoming(edges, v));
    FilterDistinct(ids, v => Count(inDegree, v) == 0);
    assert [] + queue == queue;
  }

  /** The queue's head has not been output yet. */
  lemma HeadFresh(before: seq<NodeId>, queue: seq<NodeId>)
    requires Distinct(before + queue) && queue != []
    ensures queue[0] !in before
  {
    forall i | 0 <= i < |before| ensures before[i] != queue[0] {
      assert (before + queue)[i] == before[i];
      assert (before + queue)[|before|] == queue[0];
    }
  }

  /** Removing the queue's head and outputting it leaves every edge from it
      to be visited: the inner loop's initial state. */
  lemma PopHead(ids: seq<NodeId>, edges: seq<Edge>, before: seq<NodeId>, queue: seq<NodeId>,
                inDegree: map<NodeId, int>)
    requires Tracked(ids, edges, before, queue, inDegree, []) && queue != []
    ensures Tracked(ids, edges, before + [queue[0]], queue[1..], inDegree, Successors(edges, queue[0]))
  {
    var node := queue[0];
    assert (before + [node]) + queue[1..] == before + queue;
    HeadFresh(before, queue);
    forall v | v in ids
      ensures Count(inDegree, v) == Pending(edges, before + [node], v) + multiset(Successors(edges, node))[v]
    {
      PendingRemove(edges, before, node, v);
    }
  }

  /** A node is output only once its counter is zero, so all its
      predecessors come before it. */
  lemma PopRespects(ids: seq<NodeId>, edges: seq<Edge>, before: seq<NodeId>, queue: seq<NodeId>,
                    inDegree: map<NodeId, int>)
    requires Tracked(ids, edges, before, queue, inDegree, []) && queue != []
    requires RespectsEdges(before, edges)
    ensures RespectsEdges(before + [queue[0]], edges)
  {
    var node := queue[0];
    var sorted := before + [node];
    assert node in before + queue;
    PendingZero(edges, before, node);
    forall j, e | 0 <= j < |sorted| && e in edges && e.1 == sorted[j]
      ensures e.0 in sorted[..j]
    {
      if j < |before| {
        assert sorted[..j] == before[..j];
      } else {
        assert sorted[..j] == before;
      }
    }
  }

  /** After the inner loop every edge from the node just output has been
      visited. */
  lemma Drained(ids: seq<NodeId>, edges: seq<Edge>, sorted: seq<NodeId>, queue0: seq<NodeId>,
                queue: seq<NodeId>, inDegree: map<NodeId, int>, succ: seq<NodeId>)
    requires Releasing(ids, edges, sorted, queue0, queue, inDegree, succ, |succ|)
    ensures Tracked(ids, edges, sorted, queue, inDegree, [])
  {
    assert succ[|succ|..] == [];
  }

  /** Outputting one more node appends its batch to the batches. */
  lemma BatchesSnoc(edges: seq<Edge>, before: seq<NodeId>, node: NodeId)
    ensures var succ := Successors(edges, node);
            Batches(edges, before + [node]) == Batches(edges, before) + NewlyReady(edges, before + [node], succ, |succ|)
  {
    assert (before + [node])[..|before|] == before;
  }

  /** The nodes the inner loop enqueues are the batch of the node just
      output, so the output followed by the queue is again the roots
      followed by the batches. */
  lemma Released(roots: seq<NodeId>, edges: seq<Edge>, before: seq<NodeId>, node: NodeId,
                 queue0: seq<NodeId>, queue: seq<NodeId>)
    requires before + ([node] + queue0) == roots + Batches(edges, before)
    requires queue == queue0 + NewlyReady(edges, before + [node], Successors(edges, node),
                                          |Successors(edges, node)|)
    ensures (before + [node]) + queue == roots + Batches(edges, before + [node])
  {
    BatchesSnoc(edges, before, node);
    Regroup(before, node, queue0, roots, Batches(edges, before),
            NewlyReady(edges, before + [node], Successors(edges, node), |Successors(edges, node)|));
  }

  /** Reassociating the output, the queue and the batches. */
  lemma Regroup(before: seq<NodeId>, node: NodeId, queue0: seq<NodeId>, roots: seq<NodeId>,
                batches: seq<NodeId>, released: seq<NodeId>)
    requires before + ([node] + queue0) == roots + batches
    ensures (before + [node]) + (queue0 + released) == roots + (batches + released)
  {
    calc {
      (before + [node]) + (queue0 + released);
      (before + ([node] + queue0)) + released;
      (roots + batches) + released;
    }
  }

  /** The output and the queue never hold more nodes than the graph. */
  lemma StateBound(ids: seq<NodeId>, edges: seq<Edge>, sorted: seq<NodeId>, queue: seq<NodeId>,
                   inDegree: map<NodeId, int>)
    requires Distinct(ids) && KahnState(ids, edges, sorted, queue, inDegree)
    ensures |sorted| + |queue| <= |ids|
  {
    DistinctWithin(sorted + queue, ids);
  }

  /** With the queue empty and some node never output, the nodes never
      output form a blocked set, so the edges contain a cycle. */
  lemma StuckMeansCycle(ids: seq<NodeId>, edges: seq<Edge>, sorted: seq<NodeId>, inDegree: map<NodeId, int>)
    requires Distinct(ids) && EdgesWithin(ids, edges)
    requires Tracked(ids, edges, sorted, [], inDegree, [])
    requires |sorted| != |ids|
    ensures HasCycle(edges)
  {
    assert sorted + [] == sorted;
    forall x | x in sorted ensures x in ids {
      assert x in sorted + [];
    }
    DistinctWithin(sorted, ids);
    var v :| v in ids && v !in sorted;
    var stuck := set x | x in ids && x !in sorted;
    forall x | x in stuck ensures exists e :: e in edges && e.1 == x && e.0 in stuck {
      PendingZero(edges, sorted, x);
      var e :| e in edges && e.1 == x && e.0 !in sorted;
      assert e.0 in stuck;
    }
    BlockedHasCycle(edges, stuck, v);
  }

  /** With the queue empty and every node output, the output is an ordering
      of the nodes that respects the edges, so there is no cycle. */
  lemma DoneMeansOrdering(ids: seq<NodeId>, edges: seq<Edge>, sorted: seq<NodeId>, inDegree: map<NodeId, int>)
    requires Distinct(ids) && EdgesWithin(ids, edges)
    requires Tracked(ids, edges, sorted, [], inDegree, []) && RespectsEdges(sorted, edges)
    requires |sorted| == |ids|
    ensures IsOrderingOf(sorted, ids) && !HasCycle(edges)
  {
    assert sorted + [] == sorted;
    forall x | x in sorted ensures x in ids {
      assert x in sorted + [];
    }
    DistinctWithin(sorted, ids);
    OrderedAcyclic(sorted, edges);
  }

  /** Kahn's algorithm. Fails with CycleDetected exactly when the edges
      contain a cycle; otherwise returns each node once, every edge's source
      before its target, the nodes without incoming edges first in insertion
      order and every other node in the batch of the node whose processing
      removed its last incoming edge. */
  method TopologicalSort(ids: seq<NodeId>, edges: seq<Edge>) returns (r: Result<seq<NodeId>>)
    requires Distinct(ids) && EdgesWithin(ids, edges)
    ensures r.Ok? <==> !HasCycle(edges)
    ensures r.Err? ==> r.error == CycleDetected
    ensures r.Ok? ==> IsOrderingOf(r.value, ids) && RespectsEdges(r.value, edges)
    ensures r.Ok? ==> r.value == Roots(ids, edges) + Batches(edges, r.value)
  {
    var inDegree, graph := CountEdges(edges);
    var queue := Filter(ids, v => Count(inDegree, v) == 0);
    var sorted: seq<NodeId> := [];
    InitialState(ids, edges, inDegree);

    while queue != []
      invariant KahnState(ids, edges, sorted, queue, inDegree)
      decreases |ids| - |sorted|
    {
      StateBound(ids, edges, sorted, queue, inDegree);
      ghost var before, queue0 := sorted, queue[1..];
      PopHead(ids, edges, sorted, queue, inDegree);
      PopRespects(ids, edges, sorted, queue, inDegree);
      var node := queue[0];
      queue := queue[1..];
      sorted := sorted + [node];
      queue, inDegree := ReleaseSuccessors(ids, edges, sorted, queue, inDegree, Adjacent(graph, node));
      Drained(ids, edges, sorted, queue0, queue, inDegree, Adjacent(graph, node));
      Released(Roots(ids, edges), edges, before, node, queue0, queue);
    }

    if |sorted| != |ids| {
      StuckMeansCycle(ids, edges, sorted, inDegree);
      return Err(CycleDetected);
    }
    DoneMeansOrdering(ids, edges, sorted, inDegree);
    assert sorted + [] == sorted;
    return Ok(sorted);
  }
}
