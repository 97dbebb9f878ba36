/** The two validators of the flow builder: the connection rule (a node's
    source handle has at most one outgoing edge) and the save rule (with more
    than one node, at most one node has no incoming edge). */
module Validation {
  import opened Seqs
  import opened Graph

  /** The two user-facing errors. */
  datatype FlowError = DuplicateSource | MultipleRoots

  /** The banner text each error shows. */
  function Message(e: FlowError): (m: string)
    ensures m != ""
  {
    match e
    case DuplicateSource => "A source handle can only have one outgoing connection!"
    case MultipleRoots => "Cannot save Flow"
  }

  datatype Result<T> = Ok(value: T) | Err(error: FlowError)

  datatype Outcome = Pass | Fail(error: FlowError)

  // ------------------------------------------------------------- connecting

  /** Some edge already leaves node `source`. */
  predicate HasOutgoing(edges: seq<Edge>, source: string) {
    exists e :: e in edges && e.source == source
  }

  /** No two edges share a source. */
  predicate SourcesDistinct(edges: seq<Edge>) {
    DistinctBy(edges, SourceOf)
  }

  /** A connection attempt from `source` to `target`; `edgeId` is the id the
      diagramming library gives the edge it adds. */
  datatype Attempt = Attempt(source: string, target: string, edgeId: string)

  /** The edges after a connection attempt, or the error that rejects it. */
  function Connect(edges: seq<Edge>, a: Attempt): (r: Result<seq<Edge>>)
    ensures r.Err? <==> HasOutgoing(edges, a.source)
    ensures r.Err? ==> r.error == DuplicateSource
    ensures r.Ok? ==> r.value == edges + [Edge(a.edgeId, a.source, a.target)]
  {
    if HasOutgoing(edges, a.source) then Err(DuplicateSource)
    else Ok(edges + [Edge(a.edgeId, a.source, a.target)])
  }

  /** An accepted connection keeps sources distinct; a rejected one changes nothing. */
  lemma ConnectKeepsSourcesDistinct(edges: seq<Edge>, a: Attempt)
    requires SourcesDistinct(edges)
    ensures Connect(edges, a).Ok? ==> SourcesDistinct(Connect(edges, a).value)
  {
    if !HasOutgoing(edges, a.source) {
      forall i | 0 <= i < |edges| ensures SourceOf(edges[i]) != SourceOf(Edge(a.edgeId, a.source, a.target)) {
        assert edges[i] in edges;
      }
      AppendKeepsDistinctBy(edges, Edge(a.edgeId, a.source, a.target), SourceOf);
    }
  }

  /** Deleting a node's edges or an edge by id keeps sources distinct. */
  lemma DeleteKeepsSourcesDistinct(edges: seq<Edge>, id: string)
    requires SourcesDistinct(edges)
    ensures SourcesDistinct(RemoveIncidentEdges(edges, id))
    ensures SourcesDistinct(RemoveEdgeById(edges, id))
  {
    FilterKeepsDistinctBy(edges, (e: Edge) => e.source != id && e.target != id, SourceOf);
    FilterKeepsDistinctBy(edges, (e: Edge) => e.id != id, SourceOf);
  }

  /** The edges after a sequence of connection attempts, each applied to the result of the last. */
  function ConnectAll(edges: seq<Edge>, attempts: seq<Attempt>): seq<Edge>
    decreases |attempts|
  {
    if attempts == [] then edges
    else
      var r := Connect(edges, attempts[0]);
      ConnectAll(if r.Ok? then r.value else edges, attempts[1..])
  }

  lemma {:induction false} ConnectAllKeepsSourcesDistinct(edges: seq<Edge>, attempts: seq<Attempt>)
    requires SourcesDistinct(edges)
    ensures SourcesDistinct(ConnectAll(edges, attempts))
    decreases |attempts|
  {
    if attempts != [] {
      var r := Connect(edges, attempts[0]);
      ConnectKeepsSourcesDistinct(edges, attempts[0]);
      ConnectAllKeepsSourcesDistinct(if r.Ok? then r.value else edges, attempts[1..]);
    }
  }

  /** Starting from no edges, no sequence of connection attempts yields two edges with one source. */
  lemma NoSharedSourceFromEmpty(attempts: seq<Attempt>)
    ensures var es := ConnectAll([], attempts);
            forall i, j :: 0 <= i < j < |es| ==> es[i].source != es[j].source
  {
    ConnectAllKeepsSourcesDistinct([], attempts);
    var es := ConnectAll([], attempts);
    forall i, j | 0 <= i < j < |es| ensures es[i].source != es[j].source {
      assert SourceOf(es[i]) != SourceOf(es[j]);
    }
  }

  /** Connecting A to B and then A to C: the second attempt is rejected and only A to B remains. */
  lemma SecondConnectionFromSourceRejected(a: string, b: string, c: string, id1: string, id2: string)
    ensures Connect([], Attempt(a, b, id1)) == Ok([Edge(id1, a, b)])
    ensures Connect([Edge(id1, a, b)], Attempt(a, c, id2)) == Err(DuplicateSource)
    ensures ConnectAll([], [Attempt(a, b, id1), Attempt(a, c, id2)]) == [Edge(id1, a, b)]
  {
    assert [] + [Edge(id1, a, b)] == [Edge(id1, a, b)];
    assert Edge(id1, a, b) in [Edge(id1, a, b)];
    assert [Attempt(a, b, id1), Attempt(a, c, id2)][1..] == [Attempt(a, c, id2)];
    assert ConnectAll([Edge(id1, a, b)], [Attempt(a, c, id2)]) == ConnectAll([Edge(id1, a, b)], []);
  }

  // ----------------------------------------------------------------- saving

  /** Some edge ends at node `id`. */
  predicate HasIncoming(edges: seq<Edge>, id: string) {
    exists e :: e in edges && e.target == id
  }

  /** The test that selects roots: nodes no edge points to. */
  function IsRoot(edges: seq<Edge>): Node -> bool {
    (n: Node) => !HasIncoming(edges, n.id)
  }

  /** The nodes that are the target of no edge, in their order. */
  function Roots(nodes: seq<Node>, edges: seq<Edge>): (r: seq<Node>)
    ensures forall n :: n in r <==> n in nodes && !HasIncoming(edges, n.id)
    ensures forall n :: multiset(r)[n] == if !HasIncoming(edges, n.id) then multiset(nodes)[n] else 0
    ensures IsSubsequence(r, nodes)
  {
    Filter(nodes, IsRoot(edges))
  }

  /** The save verdict. */
  function SaveCheck(nodes: seq<Node>, edges: seq<Edge>): (r: Outcome)
    ensures r.Fail? ==> r.error == MultipleRoots && |nodes| > 1
  {
    if |nodes| > 1 && |Roots(nodes, edges)| > 1 then Fail(MultipleRoots) else Pass
  }

  /** No two positions of the node sequence both hold a root. */
  ghost predicate AtMostOneRoot(nodes: seq<Node>, edges: seq<Edge>) {
    forall i, j :: 0 <= i < j < |nodes| && !HasIncoming(edges, nodes[i].id) ==> HasIncoming(edges, nodes[j].id)
  }

  /** Save succeeds exactly when there is at most one node or at most one root. */
  lemma SaveAcceptedIff(nodes: seq<Node>, edges: seq<Edge>)
    ensures SaveCheck(nodes, edges) == Pass <==> |nodes| <= 1 || AtMostOneRoot(nodes, edges)
  {
    FilterAtMostOne(nodes, IsRoot(edges));
  }

  /** A text update leaves the save verdict as it was: roots depend on ids only. */
  lemma {:induction false} SetLabelKeepsRoots(nodes: seq<Node>, edges: seq<Edge>, id: string, newText: string)
    ensures |Roots(SetLabel(nodes, id, newText), edges)| == |Roots(nodes, edges)|
    ensures SaveCheck(SetLabel(nodes, id, newText), edges) == SaveCheck(nodes, edges)
  {
    if nodes != [] {
      var r, keep := SetLabel(nodes, id, newText), IsRoot(edges);
      SetLabelKeepsRoots(nodes[1..], edges, id, newText);
      assert r[1..] == SetLabel(nodes[1..], id, newText);
      assert keep(r[0]) == keep(nodes[0]) by { assert r[0].id == nodes[0].id; }
      assert |Filter(r, keep)| == (if keep(r[0]) then 1 else 0) + |Filter(r[1..], keep)|;
      assert |Filter(nodes, keep)| == (if keep(nodes[0]) then 1 else 0) + |Filter(nodes[1..], keep)|;
    }
  }

  /** A single node with no edges can be saved. */
  lemma SingleNodeSaves(n: Node)
    ensures SaveCheck([n], []) == Pass
  {
  }

  /** Two nodes joined by one edge A to B can be saved: A is the only root. */
  lemma ChainOfTwoSaves(a: Node, b: Node, edgeId: string)
    requires a.id != b.id
    ensures Roots([a, b], [Edge(edgeId, a.id, b.id)]) == [a]
    ensures SaveCheck([a, b], [Edge(edgeId, a.id, b.id)]) == Pass
  {
    var es := [Edge(edgeId, a.id, b.id)];
    assert HasIncoming(es, b.id) by { assert es[0] in es; }
    assert [a, b][1..] == [b];
    assert [b][1..] == [];
  }

  /** Two unconnected nodes cannot be saved: both are roots. */
  lemma TwoUnconnectedNodesFail(a: Node, b: Node)
    ensures Roots([a, b], []) == [a, b]
    ensures SaveCheck([a, b], []) == Fail(MultipleRoots)
  {
    var keep := IsRoot([]);
    assert keep(a) && keep(b);
    assert Filter([b], keep) == [b] + Filter([], keep) by { assert [b][1..] == []; }
    assert Filter([a, b], keep) == [a] + Filter([b], keep) by { assert [a, b][1..] == [b]; }
  }
}
