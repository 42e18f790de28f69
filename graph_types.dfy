/** Values shared by every part of the command graph engine: node identities,
    edges, nodes, the structural errors, and a few facts about sequences of
    distinct elements. */
module GraphTypes {

  /** Node identities. The engine accepts any hashable key; this model fixes
      integers, which is what the default (bootstrap) graph uses. */
  type NodeId = int

  /** A directed edge (source, target): the target's input includes the
      source's output. */
  type Edge = (NodeId, NodeId)

  datatype Option<T> = None | Some(value: T)

  /** A node of the graph store: its command line (absent when added without
      one) and its last output (absent until its first run). */
  datatype Node = Node(command: Option<string>, output: Option<string>)

  /** The structural errors the engine reports to its caller. */
  datatype GraphError =
    | DuplicateNode(id: NodeId)
    | UnknownEndpoint(source: NodeId, target: NodeId)
    | CycleDetected

  datatype Result<T> = Ok(value: T) | Err(error: GraphError)

  /** Outcome of an operation that only changes state or raises. */
  datatype Status = Pass | Fail(error: GraphError)

  function Last<T>(s: seq<T>): T
    requires s != []
  {
    s[|s| - 1]
  }

  predicate Distinct<T(==)>(s: seq<T>) {
    forall i, j :: 0 <= i < j < |s| ==> s[i] != s[j]
  }

  ghost function Elems<T>(s: seq<T>): set<T> {
    set x | x in s
  }

  /** Every edge endpoint is one of the given nodes. */
  predicate EdgesWithin(ids: seq<NodeId>, edges: seq<Edge>) {
    forall e :: e in edges ==> e.0 in ids && e.1 in ids
  }

  /** The elements of s, in order, that satisfy keep (a list comprehension
      with a condition). */
  function Filter(s: seq<NodeId>, keep: NodeId -> bool): (r: seq<NodeId>)
    ensures forall x :: x in r <==> x in s && keep(x)
    ensures |r| <= |s|
  {
    if s == [] then [] else (if keep(s[0]) then [s[0]] else []) + Filter(s[1..], keep)
  }

  lemma {:induction false} FilterAgrees(s: seq<NodeId>, p: NodeId -> bool, q: NodeId -> bool)
    requires forall i :: 0 <= i < |s| ==> p(s[i]) == q(s[i])
    ensures Filter(s, p) == Filter(s, q)
  {
    if s != [] {
      assert p(s[0]) == q(s[0]);
      FilterAgrees(s[1..], p, q);
      assert Filter(s, p) == (if p(s[0]) then [s[0]] else []) + Filter(s[1..], p);
      assert Filter(s, q) == (if q(s[0]) then [s[0]] else []) + Filter(s[1..], q);
    }
  }

  lemma {:induction false} FilterDistinct(s: seq<NodeId>, keep: NodeId -> bool)
    requires Distinct(s)
    ensures Distinct(Filter(s, keep))
  {
    if s != [] {
      FilterDistinct(s[1..], keep);
    }
  }

  /** A sequence without repetitions has as many elements as its length. */
  lemma {:induction false} DistinctCard<T>(s: seq<T>)
    requires Distinct(s)
    ensures |Elems(s)| == |s|
  {
    if s != [] {
      DistinctCard(s[1..]);
      assert Elems(s) == {s[0]} + Elems(s[1..]);
      assert s[0] !in Elems(s[1..]);
    }
  }

  lemma SubsetCard<T>(a: set<T>, b: set<T>)
    requires a <= b
    ensures |a| <= |b|
    ensures |a| == |b| ==> a == b
  {
    assert b == a + (b - a);
    assert a * (b - a) == {};
    if |a| == |b| {
      assert |b - a| == 0;
    }
  }

  /** Two repetition-free sequences, the first drawn from the second: the
      first is no longer, and exactly as long only when it uses every element
      of the second. */
  lemma DistinctWithin<T>(a: seq<T>, b: seq<T>)
    requires Distinct(a) && Distinct(b)
    requires forall x :: x in a ==> x in b
    ensures |a| <= |b|
    ensures |a| == |b| <==> forall x :: x in b ==> x in a
  {
    DistinctCard(a);
    DistinctCard(b);
    SubsetCard(Elems(a), Elems(b));
    if forall x :: x in b ==> x in a {
      assert Elems(a) == Elems(b);
    }
    if |a| == |b| {
      forall x | x in b ensures x in a {
        assert x in Elems(b);
      }
    }
  }

  /** A sequence drawn from a set larger than that set repeats an element. */
  lemma Pigeonhole<T>(p: seq<T>, u: set<T>)
    requires forall k :: 0 <= k < |p| ==> p[k] in u
    requires |p| > |u|
    ensures exists i, j :: 0 <= i < j < |p| && p[i] == p[j]
  {
    if Distinct(p) {
      DistinctCard(p);
      assert Elems(p) <= u;
      SubsetCard(Elems(p), u);
    }
  }
}
