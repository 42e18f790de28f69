/** The command graph engine: a store of nodes (each a shell command and its
    last output) in insertion order, a list of directed edges, an epoch
    counter and a log of epoch records. Processing an epoch runs every node
    once, in the scheduler's order, feeding each node the concatenated
    outputs of its predecessors, and then records the outputs. */
module Engine {
  import opened GraphTypes
  import opened Paths
  import opened OrderedDict
  import opened Scheduler
  import opened NodeRunner
  import opened EpochRecord

  /** A node as the structure query reports it. */
  datatype NodeView = NodeView(id: NodeId, command: Option<string>)

  datatype Structure = Structure(nodes: seq<NodeView>, edges: seq<Edge>)

  /** The node views of ids, in order. */
  function Views(ids: seq<NodeId>, nodes: map<NodeId, Node>): (vs: seq<NodeView>)
    requires forall i :: 0 <= i < |ids| ==> ids[i] in nodes
    ensures |vs| == |ids|
    ensures forall i :: 0 <= i < |ids| ==> vs[i] == NodeView(ids[i], nodes[ids[i]].command)
  {
    if ids == [] then [] else [NodeView(ids[0], nodes[ids[0]].command)] + Views(ids[1..], nodes)
  }

  /** The log's epochs strictly increase and none lies beyond the counter. */
  ghost predicate LogOrdered(log: seq<Record>, currentEpoch: int) {
    && (forall i, j :: 0 <= i < j < |log| ==> log[i].epoch < log[j].epoch)
    && (forall i :: 0 <= i < |log| ==> 0 <= log[i].epoch <= currentEpoch)
  }

  /** A record of the current epoch may follow a log of older ones. */
  lemma LogAppend(log: seq<Record>, currentEpoch: int, record: Record)
    requires currentEpoch >= 0 && LogOrdered(log, currentEpoch - 1) && record.epoch == currentEpoch
    ensures LogOrdered(log + [record], currentEpoch)
  {
  }

  class CommandGraph {
    /** The node store's keys in insertion order, and its entries. */
    var nodeOrder: seq<NodeId>
    var nodes: map<NodeId, Node>
    var edges: seq<Edge>
    var epochLog: seq<Record>
    var currentEpoch: int

    ghost predicate Valid()
      reads this
    {
      && Distinct(nodeOrder)
      && (forall v :: v in nodes <==> v in nodeOrder)
      && (forall i :: 0 <= i < |nodeOrder| ==> nodeOrder[i] in nodes)
      && EdgesWithin(nodeOrder, edges)
      && currentEpoch >= -1
      && LogOrdered(epochLog, currentEpoch)
    }

    constructor()
      ensures Valid()
      ensures nodeOrder == [] && nodes == map[] && edges == [] && epochLog == [] && currentEpoch == -1
    {
      nodeOrder := [];
      nodes := map[];
      edges := [];
      epochLog := [];
      currentEpoch := -1;
    }

    /** Adds a node with no output yet; an id already present is refused and
        nothing changes. */
    method AddNode(id: NodeId, command: Option<string>) returns (r: Status)
      requires Valid()
      modifies this
      ensures Valid()
      ensures old(id in nodes) ==> r == Fail(DuplicateNode(id)) && nodeOrder == old(nodeOrder) && nodes == old(nodes)
      ensures old(id !in nodes) ==> && r == Pass
                                    && nodeOrder == old(nodeOrder) + [id]
                                    && nodes == old(nodes)[id := Node(command, None)]
      ensures edges == old(edges) && epochLog == old(epochLog) && currentEpoch == old(currentEpoch)
    {
      if id in nodes {
        return Fail(DuplicateNode(id));
      }
      nodeOrder := nodeOrder + [id];
      nodes := nodes[id := Node(command, None)];
      r := Pass;
    }

    /** Appends the edge (source, target); an edge with an endpoint that is
        not a node is refused and nothing changes. Self-loops and repeated
        edges are accepted. */
    method AddEdge(source: NodeId, target: NodeId) returns (r: Status)
      requires Valid()
      modifies this
      ensures Valid()
      ensures old(source !in nodes || target !in nodes) ==> r == Fail(UnknownEndpoint(source, target)) && edges == old(edges)
      ensures old(source in nodes && target in nodes) ==> r == Pass && edges == old(edges) + [(source, target)]
      ensures nodeOrder == old(nodeOrder) && nodes == old(nodes)
      ensures epochLog == old(epochLog) && currentEpoch == old(currentEpoch)
    {
      if source !in nodes || target !in nodes {
        return Fail(UnknownEndpoint(source, target));
      }
      edges := edges + [(source, target)];
      r := Pass;
    }

    /** The input of node v: the outputs of the sources of v's incoming
        edges, in edge order, an absent output read as empty. */
    method GatherInput(v: NodeId) returns (input: string)
      requires Valid()
      ensures input == InputText(edges, nodes, v)
    {
      input := "";
      for i := 0 to |edges|
        invariant input == InputText(edges[..i], nodes, v)
      {
        var (src, tgt) := edges[i];
        assert edges[..i + 1][..i] == edges[..i];
        if tgt == v {
          assert edges[i] in edges;
          var output := nodes[src].output;
          input := input + (if output.Some? then output.value else "");
        }
      }
      assert edges[..|edges|] == edges;
    }

    /** Runs node id's command on input with the given timeout in the
        current epoch; the outcome becomes the node's output and nothing
        else changes. */
    method RunNode(id: NodeId, input: string, timeout: int, world: World)
      requires Valid() && id in nodes
      modifies this`nodes
      ensures Valid()
      ensures nodes == old(nodes)[id := Node(old(nodes)[id].command,
        Some(OutputText(world(Invocation(currentEpoch, id, old(nodes)[id].command, StdinFor(input), timeout)))))]
    {
      var command := nodes[id].command;
      var outcome := world(Invocation(currentEpoch, id, command, StdinFor(input), timeout));
      nodes := nodes[id := Node(command, Some(OutputText(outcome)))];
    }

    /** The loop of an epoch: runs each node of order in turn on the input
        gathered just before it runs. When order lists every node once and
        respects the edges, afterwards every node holds the output of a run
        on its predecessors' final outputs. */
    method RunInOrder(order: seq<NodeId>, world: World)
      requires Valid() && IsOrderingOf(order, nodeOrder) && RespectsEdges(order, edges)
      modifies this`nodes
      ensures Valid()
      ensures nodes.Keys == old(nodes).Keys
      ensures forall v :: v in nodes ==> && nodes[v].command == old(nodes)[v].command
                                         && RanWith(world, currentEpoch, edges, nodes, v)
    {
      for k := 0 to |order|
        invariant Valid()
        invariant nodes.Keys == old(nodes).Keys
        invariant forall v :: v in nodes ==> nodes[v].command == old(nodes)[v].command
        invariant forall j :: 0 <= j < k ==> RanWith(world, currentEpoch, edges, nodes, order[j])
      {
        var id := order[k];
        var input := GatherInput(id);
        ghost var before := nodes;
        RunNode(id, input, DefaultTimeout, world);
        assert nodes == AfterRun(world, currentEpoch, edges, before, id);
        RunSettles(world, currentEpoch, edges, order, k, before);
      }
      forall v | v in nodes
        ensures RanWith(world, currentEpoch, edges, nodes, v)
      {
        var j :| 0 <= j < |order| && order[j] == v;
      }
    }

    /** The rest of a successful epoch: runs every node in the given order
        and appends the record of the current epoch, which is newer than
        every record in the log. */
    method RunAndRecord(order: seq<NodeId>, world: World)
      requires Valid() && IsOrderingOf(order, nodeOrder) && RespectsEdges(order, edges)
      requires currentEpoch >= 0 && LogOrdered(epochLog, currentEpoch - 1)
      modifies this`nodes, this`epochLog
      ensures Valid()
      ensures exists order :: IsOrderingOf(order, nodeOrder) && RespectsEdges(order, edges)
      ensures nodes.Keys == old(nodes).Keys
      ensures forall v :: v in nodes ==> && nodes[v].command == old(nodes)[v].command
                                         && RanWith(world, currentEpoch, edges, nodes, v)
      ensures epochLog == old(epochLog) + [MakeRecord(currentEpoch, nodeOrder, nodes, edges)]
    {
      RunInOrder(order, world);
      assert IsOrderingOf(order, nodeOrder) && RespectsEdges(order, edges);
      var record := MakeRecord(currentEpoch, nodeOrder, nodes, edges);
      LogAppend(epochLog, currentEpoch, record);
      epochLog := epochLog + [record];
    }

    /** Processes one epoch. The counter is advanced first. If the edges
        contain a cycle the epoch fails with nothing run and nothing
        recorded. Otherwise every node ends up holding the output of its
        command run in this epoch on its predecessors' outputs, commands and
        structure are untouched, and exactly one record of this epoch is
        appended to the log. */
    method ProcessEpoch(world: World) returns (r: Status)
      requires Valid()
      modifies this
      ensures Valid()
      ensures currentEpoch == old(currentEpoch) + 1
      ensures nodeOrder == old(nodeOrder) && edges == old(edges)
      ensures r.Fail? <==> HasCycle(edges)
      ensures r.Fail? ==> r.error == CycleDetected && nodes == old(nodes) && epochLog == old(epochLog)
      ensures r.Pass? ==> exists order :: IsOrderingOf(order, nodeOrder) && RespectsEdges(order, edges)
      ensures r.Pass? ==> nodes.Keys == old(nodes).Keys
      ensures r.Pass? ==> forall v :: v in nodes ==> && nodes[v].command == old(nodes)[v].command
                                                     && RanWith(world, currentEpoch, edges, nodes, v)
      ensures r.Pass? ==> epochLog == old(epochLog) + [MakeRecord(currentEpoch, nodeOrder, nodes, edges)]
    {
      currentEpoch := currentEpoch + 1;
      var sorted := TopologicalSort(nodeOrder, edges);
      if sorted.Err? {
        return Fail(sorted.error);
      }
      RunAndRecord(sorted.value, world);
      r := Pass;
    }

    /** The nodes in insertion order with their commands, and the edges. */
    function GraphStructure(): (s: Structure)
      requires Valid()
      reads this
      ensures |s.nodes| == |nodeOrder|
      ensures forall i :: 0 <= i < |nodeOrder| ==> s.nodes[i].id == nodeOrder[i] && s.nodes[i].command == nodes[nodeOrder[i]].command
      ensures s.edges == edges
      ensures forall i, j :: 0 <= i < j < |s.nodes| ==> s.nodes[i].id != s.nodes[j].id
      ensures forall e :: e in s.edges ==> exists i, j :: 0 <= i < |s.nodes| && 0 <= j < |s.nodes|
                                                         && s.nodes[i].id == e.0 && s.nodes[j].id == e.1
    {
      Structure(Views(nodeOrder, nodes), edges)
    }

    /** The epoch log, oldest first. */
    function Epochs(): (log: seq<Record>)
      requires Valid()
      reads this
      ensures forall i, j :: 0 <= i < j < |log| ==> log[i].epoch < log[j].epoch
      ensures forall i :: 0 <= i < |log| ==> 0 <= log[i].epoch <= currentEpoch
    {
      epochLog
    }
  }
}
