# CommandGraph: a verified model of a command-pipeline engine

The engine keeps a directed graph whose nodes are shell commands.

- The nodes form an insertion-ordered store. Each node holds a command and its last output.
- The edges are an ordered list of (source, target) pairs. Duplicates and self-loops are allowed.
- The engine also keeps an epoch counter and an append-only log of epoch records.

Processing an epoch does four things, in order:

1. It advances the counter.
2. It orders the nodes with Kahn's algorithm. A cycle aborts the epoch.
3. It runs every node once, in that order. Each node's standard input is the concatenation of its predecessors' outputs, in edge order.
4. It appends a record to the log. The record holds every node's output and a colour per node and per distinct edge.

The model is split into these modules:

- `GraphTypes` (graph_types.dfy): ids, edges, nodes, errors, and sequence helpers.
- `Paths` (paths.dfy): walks and cycles, and the two facts that tie the sort to cycles.
- `Scheduler` (scheduler.dfy): the sort as an imperative method, proved against specification functions.
  - `Pending` gives the in-degree left once some nodes have been removed.
  - `Roots` and `Batches` describe the FIFO order.
- `SchedulerOrder` (scheduler_order.dfy): shows that the sort's contract determines its result uniquely, plus worked examples.
- `NodeRunner` (node_runner.dfy): the input a node receives, and the abstract run step.
- `OrderedDict` (ordered_dict.dfy): insertion-ordered dictionaries and dictionary comprehensions.
- `EpochRecord` (epoch_record.dfy): the record an epoch appends.
- `Engine` (engine.dfy): the `CommandGraph` class, with fields updated in place by its methods.

Three modelling decisions apply throughout:

- **The outside world is a parameter.** Running a command is up to the operating system. The model takes it as a function `World` from an invocation to an outcome.
  - An invocation is the epoch, the node id, the command, the standard input and the timeout.
  - The outcome is the collected stdout, a timeout, or a failure with a message.
  - Every node runs once per epoch, and the epoch is part of the invocation. So every behaviour in which the run ends with the node's output set to one string is some such function. The case where the draining thread itself fails is listed under "## Left out".
- **Node ids are integers.** This matches the default graph.
- **Standard input.** Standard input is written and closed only when the input text is non-empty (app.py:82-84); otherwise it is left open (`NodeRunner.StdinFor`).

## Model

| member | source | states |
|---|---|---|
| Engine.CommandGraph.constructor | app.py:14-18 | A new graph has no nodes, no edges and an empty log, and its epoch counter is -1. |
| Engine.CommandGraph.AddNode | app.py:20-23 | A present id fails with DuplicateNode and changes nothing. Otherwise the id is appended to the insertion order with the given command and no output. Edges, log and counter are untouched, and the graph invariant is kept. |
| Engine.CommandGraph.AddEdge | app.py:25-28 | If either endpoint is unknown, it fails with UnknownEndpoint and leaves the edges unchanged. Otherwise it appends exactly (source, target), with duplicates and self-loops kept. Nodes, log and counter are untouched. It keeps the invariant that every edge endpoint is a node. |
| Scheduler.CountEdges | app.py:31-37 | After one pass over the edges, every node's counter is its in-degree, with duplicate edges counted separately and absent keys reading 0. Every node's adjacency list is its successors in edge order. |
| Scheduler.CountStep | app.py:33-37 | Counting one more edge raises only its target's in-degree, and appends the target to its source's successor list. |
| Scheduler.InitialPending | app.py:39 | A node's in-degree is zero exactly when no edge enters it. |
| Scheduler.InitialState | app.py:39 | Seeding the queue with the zero-in-degree nodes, in insertion order, gives the algorithm's invariant: the queue is the roots, nothing is output, and the counters are the in-degrees. |
| Scheduler.PopHead | app.py:43-44 | Popping the queue's head and outputting it keeps the output and queue free of repetitions. Every edge leaving the head is then still to be visited. |
| Scheduler.PopRespects | app.py:43-44 | A node leaves the queue only with its counter at zero, so every edge into it comes from a node already output. |
| Scheduler.PendingRemove | app.py:45-46 | Removing node n lowers v's pending in-degree by the number of edges from n to v. |
| Scheduler.PendingZero | app.py:47 | A pending in-degree is zero exactly when every edge into the node comes from an output node. |
| Scheduler.ReleaseSuccessors | app.py:45-48 | The inner loop decrements each successor's counter once per edge, in edge order. It enqueues exactly the successors whose counter reaches zero, in the order the loop reaches them, and keeps the counters equal to the pending in-degrees. |
| Scheduler.ReleaseStep | app.py:46-48 | One decrement reaches zero exactly when this is the last edge into the successor still unvisited and all its predecessors are output. |
| Scheduler.Released | app.py:45-48 | After the inner loop, the output followed by the queue is still the roots followed by the batch released by each output node. |
| Scheduler.StateBound | app.py:42-44 | The output and the queue together never hold more nodes than the graph, which bounds the main loop. |
| Scheduler.StuckMeansCycle | app.py:50-51 | When the queue is empty and the output is shorter than the node list, the nodes never output form a blocked set, so the edges contain a cycle. |
| Scheduler.DoneMeansOrdering | app.py:50-52 | When the output has every node, it lists each node once and respects every edge, so there is no cycle. |
| Scheduler.TopologicalSort | app.py:30-52 | Fails with CycleDetected if and only if the edges contain a cycle. On success the result is a permutation of the node ids in which every edge's source precedes its target. The result is the roots in insertion order followed by the nodes released in FIFO order. |
| Paths.BlockedHasCycle | app.py:50-51 | A non-empty set of nodes, each with an incoming edge from inside the set, contains a cycle. |
| Paths.OrderedAcyclic | app.py:50-52 | A repetition-free order that holds every edge target and places each edge's source first rules out every cycle. |
| SchedulerOrder.BatchOrigin | app.py:45-48 | Every released position p lies in the batch of some output node done[m]: past the batches of the nodes before it and within the batches up to and including it. done[m] has an edge to the node at p. |
| SchedulerOrder.PositionDetermined | app.py:39-48 | In an edge-respecting fixpoint of the FIFO rule, each entry is fixed by the entries before it. |
| SchedulerOrder.SortResultUnique | app.py:39-48 | At most one sequence is a permutation of the nodes that respects the edges and is the roots followed by its own batches. So the sort's result is fully determined by the node insertion order and the edge order. |
| SchedulerOrder.SelfLoopCycle | app.py:50-51 | Any edge list that contains a self-loop has a cycle, so the sort refuses every such graph. |
| SchedulerOrder.TwoNodeCycle | app.py:50-51 | Any edge list that contains both a to b and b to a has a cycle, so the sort refuses every such graph, for example 1 to 2 with 2 to 1. |
| SchedulerOrder.DiamondAcyclic | app.py:158-171 | The default graph (1 feeds 2, 3 and 4, which all feed 5) has no cycle, so its epochs succeed. |
| NodeRunner.InputTextAppend | app.py:106-108 | Splitting the edge list splits a node's input at the same point: the input is gathered edge by edge, in order. |
| NodeRunner.InputTextNoIncoming | app.py:105-108 | A node with no incoming edge gets the empty input. |
| NodeRunner.InputTextFrame | app.py:106-108 | A node's input depends only on the outputs of its predecessors. |
| NodeRunner.RunSettles | app.py:104-109 | Running the nodes of an edge-respecting order one by one leaves each node already run holding the output of a run on its predecessors' current outputs. |
| NodeRunner.RunDetermined | app.py:104-109 | Take two node stores with the same commands, under the same world, and an edge-respecting ordering of the nodes. If in both stores every node holds the output of a run on its predecessors' outputs, the two stores agree on every output. With the ordering that `ProcessEpoch` promises on success, this fixes an epoch's outputs. |
| Engine.CommandGraph.GatherInput | app.py:105-108 | The input built for a node is the concatenation, in edge order, of the output of the source of every edge into it. A duplicate edge contributes twice and an absent output contributes the empty string. |
| Engine.CommandGraph.RunNode | app.py:54-98 | Only the given node's output changes. It becomes the collected stdout, the "Timeout expired" sentinel, or the failure message (app.py:77, 94, 96). The outcome is the world's answer to the invocation with this node's command, the timeout, and standard input `StdinFor(input)`: left open when the input is empty, otherwise fed exactly that text (app.py:82-84). |
| Engine.CommandGraph.RunInOrder | app.py:104-109 | After the loop over an edge-respecting order of all nodes, every node holds the output of a run, in this epoch, on its predecessors' final outputs. Commands and keys are unchanged. |
| Engine.CommandGraph.RunAndRecord | app.py:104-131 | Runs every node, then appends exactly one record built from the current epoch, the insertion order, the new outputs and the edges. The nodes keep an edge-respecting ordering, which `RunDetermined` needs. |
| Engine.LogAppend | app.py:131 | A record of the new epoch may follow a log of older ones, keeping the log's epochs strictly increasing. |
| Engine.CommandGraph.ProcessEpoch | app.py:100-131 | The counter goes up by one before sorting. It fails with CycleDetected exactly when the edges contain a cycle; then no node runs and the log is unchanged. Otherwise the nodes have an edge-respecting ordering, every node holds its run's output, and exactly one record of the new epoch is appended. Structure and commands never change. |
| EpochRecord.MakeRecord | app.py:111-129 | The record carries the epoch number. Its node table maps exactly the nodes of the insertion order, each to its current output and the colour seeded by its id. Its edge table maps exactly the pairs occurring in the edge list, each to the colour seeded by the pair. |
| EpochRecord.NodeTable | app.py:113-120 | The node-table comprehension maps each node to its output and colour and holds no other key. |
| EpochRecord.EdgeEntries | app.py:121-128 | One edge-table entry per edge, in edge order. An entry's properties depend only on its (source, target) key, so repeated edges give identical entries. |
| EpochRecord.EdgeTable | app.py:121-128 | The edge-table comprehension maps each pair occurring in the edge list to its colour and holds no other key. |
| EpochRecord.NodeEntries | app.py:113-120 | One node-table entry per node, in insertion order, holding the node's output and colour. |
| EpochRecord.RecordNodes | app.py:111-120 | The record carries the new epoch. Its node table lists every node exactly once, in insertion order, with that node's current output and the colour seeded by its id, and holds nothing else. |
| EpochRecord.RecordEdges | app.py:121-129 | The edge table holds each distinct (source, target) pair once, in order of first occurrence, with the colour seeded by the pair. It is shorter than the edge list exactly when some edge is repeated. |
| OrderedDict.InsertSpec | app.py:113-129 | Assigning to a present key keeps its position and replaces its value. Assigning to a new key appends it. Other keys keep their values. |
| OrderedDict.FromEntriesSpec | app.py:113-129 | A dictionary comprehension keeps each key once, in order of first occurrence, with the value of its last occurrence. |
| OrderedDict.FromEntriesKeyed | app.py:113-129 | When equal keys always carry equal values, the comprehension maps exactly the keys of the entries to their values. |
| OrderedDict.DedupLength | app.py:121-128 | Collapsing repeated keys shortens the sequence exactly when it has a repetition. |
| Engine.Views | app.py:143-146 | One view per node, in insertion order, with the node's id and command. |
| Engine.CommandGraph.GraphStructure | app.py:141-148 | Reports the nodes in insertion order, each once with its command, and the edge list as it is. Every edge endpoint appears among the reported nodes. |
| Engine.CommandGraph.Epochs | app.py:150-151 | Returns the log, whose epochs strictly increase and lie between 0 and the current counter. |

## Left out

- Process execution inside `run_node` (app.py:55-98) is represented by the `World` function. Not modelled:
  - starting a shell;
  - the thread that drains stdout and stderr;
  - `wait` with a timeout;
  - the logging prints.
- Partial output is not modelled. The draining thread writes output line by line while the process runs (app.py:74), so a concurrent reader could see it. The model records only the final value.
- The timeout race is not modelled. On a timeout, `wait` raises before the thread is joined and before the kill at app.py:89-91 is reached. So the process keeps running, and its thread can later overwrite the "Timeout expired" sentinel. The model stores the sentinel and stops there.
- A failure of the draining thread is not modelled. If that thread raises, for instance on output that cannot be decoded as text, app.py:77 never runs. The node then keeps a partial output or its previous value, possibly `None`, which `RunNode` does not allow.
- The kill at app.py:89-91 is never modelled. It only runs after `wait` has returned, when `poll()` is never `None`.
- Colours (app.py:133-139) are symbolic: a colour is the value seeded with the node id or the edge pair. Python's Mersenne Twister and the three channel values in 100..255 are not modelled.
- Node and edge labels and the `edge_data` text (app.py:117, 123, 125) are not modelled.
- The edge-table key `"{src}_{tgt}"` is modelled as the pair itself. For integer ids the formatted key identifies the pair.
- The HTTP routes, JSON shaping and `send_file` (app.py:176-218) are not modelled.
- Node ids are integers, whereas Python accepts any hashable value.
- `bootstrap_graph` (app.py:158-171) is not modelled. Its diamond shape appears only as the `DiamondIds`/`DiamondEdges` example.
- SchedulerOrder.DiamondAcyclic: the concrete order the sort gives for the diamond (1, 2, 3, 4, 5) is not proved. The lemma states only that the diamond is acyclic. The order is still pinned down by `SortResultUnique` together with the sort's contract.
- `run_node`'s default `input_text=None` is modelled as the empty string. Both are falsy there, so standard input is left open either way.
- Engine.CommandGraph.ProcessEpoch returns a status instead of raising. The status is Pass, or Fail with CycleDetected.
- Engine.CommandGraph.AddNode and Engine.CommandGraph.AddEdge return a status instead of raising `ValueError`.
- Engine.CommandGraph.Epochs returns the log as a value. Python returns the live list, which a caller could mutate.
- `OutputOf` reads a missing source node as the empty string. Under the graph invariant this never happens, whereas Python would raise `KeyError`.
