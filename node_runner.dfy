/** Running one node: its command is executed by a shell outside the model,
    fed the node's input on standard input, and what it produces becomes the
    node's output. The outside world is a function from the complete
    description of an invocation to its outcome; each node runs at most once
    per epoch and the epoch is part of the invocation, so every behaviour of
    the commands is one such function. */
module NodeRunner {
  import opened GraphTypes
  import opened Paths

  /** How an invocation ends: the command exits and its standard output is
      collected in full (standard error is only logged); the wait for it
      exceeds the timeout; or starting it raises an error with a message. */
  datatype RunOutcome = Exited(stdout: string) | TimedOut | Failed(message: string)

  /** Standard input: written and closed when the input text is non-empty,
      otherwise left open and never written. */
  datatype Stdin = Fed(text: string) | LeftOpen

  datatype Invocation = Invocation(epoch: int, id: NodeId, command: Option<string>, stdin: Stdin, timeout: int)

  type World = Invocation -> RunOutcome

  /** The timeout, in seconds, every epoch runs nodes with. */
  const DefaultTimeout := 10

  const TimeoutMessage := "Timeout expired"

  function StdinFor(input: string): Stdin {
    if input == "" then LeftOpen else Fed(input)
  }

  /** The output a node holds after an invocation with the given outcome. */
  function OutputText(outcome: RunOutcome): string {
    match outcome
    case Exited(stdout) => stdout
    case TimedOut => TimeoutMessage
    case Failed(message) => message
  }

  /** A node's output as read by its successors: absent reads as empty. */
  function OutputOf(nodes: map<NodeId, Node>, s: NodeId): string {
    if s in nodes && nodes[s].output.Some? then nodes[s].output.value else ""
  }

  /** The input of node v: the outputs of the sources of the edges into v,
      concatenated in edge order, once per edge. */
  function InputText(edges: seq<Edge>, nodes: map<NodeId, Node>, v: NodeId): string {
    if edges == [] then ""
    else InputText(edges[..|edges| - 1], nodes, v) + (if Last(edges).1 == v then OutputOf(nodes, Last(edges).0) else "")
  }

  /** The edges whose sources supply v's input: splitting the edge list
      splits the input at the same point. */
  lemma {:induction false} InputTextAppend(a: seq<Edge>, b: seq<Edge>, nodes: map<NodeId, Node>, v: NodeId)
    ensures InputText(a + b, nodes, v) == InputText(a, nodes, v) + InputText(b, nodes, v)
  {
    if b != [] {
      var init := b[..|b| - 1];
      assert (a + b)[..|a + b| - 1] == a + init;
      assert Last(a + b) == Last(b);
      InputTextAppend(a, init, nodes, v);
    } else {
      assert a + b == a;
    }
  }

  /** A node without incoming edges gets the empty input. */
  lemma {:induction false} InputTextNoIncoming(edges: seq<Edge>, nodes: map<NodeId, Node>, v: NodeId)
    requires forall e :: e in edges ==> e.1 != v
    ensures InputText(edges, nodes, v) == ""
  {
    if edges != [] {
      var init := edges[..|edges| - 1];
      assert Last(edges) in edges;
      assert forall e :: e in init ==> e in edges;
      InputTextNoIncoming(init, nodes, v);
    }
  }

  /** v's input depends only on the outputs of v's predecessors. */
  lemma {:induction false} InputTextFrame(edges: seq<Edge>, n1: map<NodeId, Node>, n2: map<NodeId, Node>, v: NodeId)
    requires forall e :: e in edges && e.1 == v ==> OutputOf(n1, e.0) == OutputOf(n2, e.0)
    ensures InputText(edges, n1, v) == InputText(edges, n2, v)
  {
    if edges != [] {
      var init := edges[..|edges| - 1];
      assert Last(edges) in edges;
      assert forall e :: e in init ==> e in edges;
      InputTextFrame(init, n1, n2, v);
    }
  }

  /** Node v's output is what the world produces when v's command is run in
      the given epoch, with the default timeout, on the input gathered from
      the current outputs of v's predecessors. */
  ghost predicate RanWith(world: World, epoch: int, edges: seq<Edge>, nodes: map<NodeId, Node>, v: NodeId)
    requires v in nodes
  {
    nodes[v].output
      == Some(OutputText(world(Invocation(epoch, v, nodes[v].command, StdinFor(InputText(edges, nodes, v)), DefaultTimeout))))
  }

  /** nodes after running w on its input: only w's output changes. */
  function AfterRun(world: World, epoch: int, edges: seq<Edge>, nodes: map<NodeId, Node>, w: NodeId): map<NodeId, Node>
    requires w in nodes
  {
    var input := InputText(edges, nodes, w);
    nodes[w := Node(nodes[w].command,
                    Some(OutputText(world(Invocation(epoch, w, nodes[w].command, StdinFor(input), DefaultTimeout)))))]
  }

  /** Running the nodes of an edge-respecting order one by one: once
      order[k] has run, every node of order[..k + 1] holds the output of a
      run on its predecessors' current outputs, because order[k] feeds none
      of the nodes before it, nor itself. */
  lemma RunSettles(world: World, epoch: int, edges: seq<Edge>, order: seq<NodeId>, k: nat,
                   nodes: map<NodeId, Node>)
    requires Distinct(order) && RespectsEdges(order, edges) && k < |order|
    requires forall v :: v in order ==> v in nodes
    requires forall j :: 0 <= j < k ==> RanWith(world, epoch, edges, nodes, order[j])
    ensures forall j :: 0 <= j <= k ==> RanWith(world, epoch, edges, AfterRun(world, epoch, edges, nodes, order[k]), order[j])
  {
    var w := order[k];
    var after := AfterRun(world, epoch, edges, nodes, w);
    forall j | 0 <= j <= k
      ensures RanWith(world, epoch, edges, after, order[j])
    {
      var v := order[j];
      forall e | e in edges && e.1 == v
        ensures OutputOf(nodes, e.0) == OutputOf(after, e.0)
      {
        assert e.0 in order[..j];
        var i :| 0 <= i < j && order[..j][i] == e.0;
        assert order[i] != w;
      }
      InputTextFrame(edges, nodes, after, v);
      if j < k {
        assert order[j] != w;
      }
    }
  }

  /** The outputs an epoch leaves behind are determined by the world: two
      node stores with the same commands that both hold, for every node of
      an edge-respecting order, the output of a run on their predecessors'
      outputs agree on every output. */
  lemma {:induction false} RunDetermined(world: World, epoch: int, edges: seq<Edge>, order: seq<NodeId>, k: nat,
                                         n1: map<NodeId, Node>, n2: map<NodeId, Node>)
    requires RespectsEdges(order, edges) && k <= |order|
    requires forall j :: 0 <= j < |order| ==> order[j] in n1 && order[j] in n2
    requires forall j :: 0 <= j < |order| ==> && n1[order[j]].command == n2[order[j]].command
                                              && RanWith(world, epoch, edges, n1, order[j])
                                              && RanWith(world, epoch, edges, n2, order[j])
    ensures forall j :: 0 <= j < k ==> n1[order[j]].output == n2[order[j]].output
  {
    if k > 0 {
      RunDetermined(world, epoch, edges, order, k - 1, n1, n2);
      var v := order[k - 1];
      forall e | e in edges && e.1 == v
        ensures OutputOf(n1, e.0) == OutputOf(n2, e.0)
      {
        assert e.0 in order[..k - 1];
        var i :| 0 <= i < k - 1 && order[..k - 1][i] == e.0;
        assert n1[order[i]].output == n2[order[i]].output;
      }
      InputTextFrame(edges, n1, n2, v);
    }
  }
}
