/** The record a successful epoch appends to the log: the epoch number, a
    table of node properties keyed by node id in insertion order, and a
    table of edge properties keyed by the (source, target) pair in the order
    of each pair's first edge. Both tables are dictionary comprehensions,
    so a pair that occurs on several edges is recorded once. */
module EpochRecord {
  import opened GraphTypes
  import opened OrderedDict

  /** What a colour's pseudo-random generator is seeded with: a node's id,
      or the text "source_target" of an edge. With integer ids that text
      identifies the pair, so the pair itself stands for it. */
  datatype ColorSeed = IdSeed(id: NodeId) | PairSeed(source: NodeId, target: NodeId)

  /** An "rgb(r, g, b)" colour whose three channels are drawn from 100 to 255
      by a generator freshly seeded with seed. The channel values are not
      modelled; what matters is that the colour is a function of the seed. */
  datatype Color = SeededRgb(seed: ColorSeed)

  function NodeColor(id: NodeId): Color {
    SeededRgb(IdSeed(id))
  }

  function EdgeColor(e: Edge): Color {
    SeededRgb(PairSeed(e.0, e.1))
  }

  datatype NodeProps = NodeProps(output: Option<string>, color: Color)

  datatype EdgeProps = EdgeProps(color: Color)

  datatype Record = Record(epoch: int, nodeProps: Dict<NodeId, NodeProps>, edgeProps: Dict<Edge, EdgeProps>)

  /** One entry per node, in insertion order. */
  function NodeEntries(ids: seq<NodeId>, nodes: map<NodeId, Node>): (entries: seq<(NodeId, NodeProps)>)
    requires forall i :: 0 <= i < |ids| ==> ids[i] in nodes
    ensures |entries| == |ids|
    ensures forall i :: 0 <= i < |ids| ==> entries[i] == (ids[i], NodeProps(nodes[ids[i]].output, NodeColor(ids[i])))
  {
    if ids == [] then []
    else [(ids[0], NodeProps(nodes[ids[0]].output, NodeColor(ids[0])))] + NodeEntries(ids[1..], nodes)
  }

  /** One entry per edge, in edge order; an entry's properties depend only
      on its key, so repeated edges give identical entries. */
  function EdgeEntries(edges: seq<Edge>): (entries: seq<(Edge, EdgeProps)>)
    ensures Keys(entries) == edges
    ensures forall i :: 0 <= i < |entries| ==> entries[i].1 == EdgeProps(EdgeColor(entries[i].0))
  {
    seq(|edges|, i requires 0 <= i < |edges| => (edges[i], EdgeProps(EdgeColor(edges[i]))))
  }

  /** The node table maps each node of ids to its output and colour. */
  lemma NodeTable(ids: seq<NodeId>, nodes: map<NodeId, Node>)
    requires forall i :: 0 <= i < |ids| ==> ids[i] in nodes
    ensures forall v :: Lookup(FromEntries(NodeEntries(ids, nodes)), v)
                        == if v in ids then Some(NodeProps(nodes[v].output, NodeColor(v))) else None
  {
    var entries := NodeEntries(ids, nodes);
    assert Keys(entries) == ids;
    forall v ensures Lookup(FromEntries(entries), v) == if v in ids then Some(NodeProps(nodes[v].output, NodeColor(v))) else None {
      FromEntriesKeyed(entries, v);
      if v in ids {
        var i :| 0 <= i < |ids| && ids[i] == v;
        assert entries[i].0 == v;
      }
    }
  }

  /** The edge table maps each edge pair to its colour. */
  lemma EdgeTable(edges: seq<Edge>)
    ensures forall e :: Lookup(FromEntries(EdgeEntries(edges)), e) == if e in edges then Some(EdgeProps(EdgeColor(e))) else None
  {
    var entries := EdgeEntries(edges);
    forall e ensures Lookup(FromEntries(entries), e) == if e in edges then Some(EdgeProps(EdgeColor(e))) else None {
      FromEntriesKeyed(entries, e);
      if e in edges {
        var i :| 0 <= i < |edges| && edges[i] == e;
        assert entries[i].0 == e;
      }
    }
  }

  /** The record of an epoch: it carries the epoch number, maps every node
      of ids to its current output and colour, maps every edge pair to its
      colour, and holds no other key. */
  function MakeRecord(epoch: int, ids: seq<NodeId>, nodes: map<NodeId, Node>, edges: seq<Edge>): (r: Record)
    requires forall i :: 0 <= i < |ids| ==> ids[i] in nodes
    ensures r.epoch == epoch
    ensures forall v :: Lookup(r.nodeProps, v) == if v in ids then Some(NodeProps(nodes[v].output, NodeColor(v))) else None
    ensures forall e :: Lookup(r.edgeProps, e) == if e in edges then Some(EdgeProps(EdgeColor(e))) else None
  {
    NodeTable(ids, nodes);
    EdgeTable(edges);
    Record(epoch, FromEntries(NodeEntries(ids, nodes)), FromEntries(EdgeEntries(edges)))
  }

  /** The node table lists every node once, in insertion order, with the
      node's current output and its colour, and nothing else. */
  lemma RecordNodes(epoch: int, ids: seq<NodeId>, nodes: map<NodeId, Node>, edges: seq<Edge>)
    requires Distinct(ids) && forall i :: 0 <= i < |ids| ==> ids[i] in nodes
    ensures var r := MakeRecord(epoch, ids, nodes, edges);
            && r.epoch == epoch
            && Keys(r.nodeProps) == ids
            && forall v :: Lookup(r.nodeProps, v) == if v in ids then Some(NodeProps(nodes[v].output, NodeColor(v))) else None
  {
    var entries := NodeEntries(ids, nodes);
    assert Keys(entries) == ids;
    FromEntriesSpec(entries);
    DedupDistinct(ids);
  }

  /** The edge table holds each distinct (source, target) pair once, in the
      order of its first edge, with the pair's colour; it has one entry per
      edge exactly when no edge is repeated. */
  lemma RecordEdges(epoch: int, ids: seq<NodeId>, nodes: map<NodeId, Node>, edges: seq<Edge>)
    requires forall i :: 0 <= i < |ids| ==> ids[i] in nodes
    ensures var r := MakeRecord(epoch, ids, nodes, edges);
            && Keys(r.edgeProps) == Dedup(edges)
            && (forall e :: Lookup(r.edgeProps, e) == if e in edges then Some(EdgeProps(EdgeColor(e))) else None)
            && |r.edgeProps| <= |edges|
            && (|r.edgeProps| == |edges| <==> Distinct(edges))
  {
    FromEntriesSpec(EdgeEntries(edges));
    DedupLength(edges);
  }
}
