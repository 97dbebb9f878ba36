/** The flow graph held by the builder: message nodes and directed edges, and
    the pure computations its handlers apply to them (the filters of node and
    edge deletion, the map of a text update, the node minted by a drop). */
module Graph {
  import opened Seqs
  import opened Decimal

  /** Flow coordinates of a node; produced by the diagramming library and never computed on here. */
  datatype Position = Position(x: real, y: real)

  /** A node: its id, its node type (the string carried by the drag), its position and its `data.label` text (field `text`). */
  datatype Node = Node(id: string, kind: string, position: Position, text: string)

  /** An edge from the node with id `source` to the node with id `target`. */
  datatype Edge = Edge(id: string, source: string, target: string)

  function IdOf(n: Node): string { n.id }

  function SourceOf(e: Edge): string { e.source }

  function EdgeIdOf(e: Edge): string { e.id }

  predicate HasNode(nodes: seq<Node>, id: string) {
    exists n :: n in nodes && n.id == id
  }

  /** No two nodes share an id. */
  predicate IdsDistinct(nodes: seq<Node>) {
    DistinctBy(nodes, IdOf)
  }

  /** No two edges share an id. */
  predicate EdgeIdsDistinct(edges: seq<Edge>) {
    DistinctBy(edges, EdgeIdOf)
  }

  /** Every edge starts and ends at a node of the graph. */
  predicate EndpointsExist(nodes: seq<Node>, edges: seq<Edge>) {
    forall e :: e in edges ==> HasNode(nodes, e.source) && HasNode(nodes, e.target)
  }

  // ---------------------------------------------------------------- node ids

  /** The id a drop mints from the counter: `node_<counter>`. */
  function NodeId(k: nat): (id: string)
    ensures |id| > 5 && id[..5] == "node_"
    ensures AllDigits(id[5..]) && Read(id[5..]) == k
  {
    ReadShow(k);
    var id := "node_" + Show(k);
    assert id[5..] == Show(k);
    id
  }

  /** The label a drop gives a new node: `test message <counter>`. */
  function DefaultLabel(k: nat): (msg: string)
    ensures |msg| > 13 && msg[..13] == "test message "
    ensures AllDigits(msg[13..]) && Read(msg[13..]) == k
  {
    ReadShow(k);
    var msg := "test message " + Show(k);
    assert msg[13..] == Show(k);
    msg
  }

  /** The node a drop of type `kind` at `position` creates while the counter is k. */
  function NewNode(k: nat, kind: string, position: Position): (n: Node)
    ensures n.id == NodeId(k) && n.text == DefaultLabel(k)
    ensures n.kind == kind && n.position == position
  {
    Node(NodeId(k), kind, position, DefaultLabel(k))
  }

  /** Different counter values give different ids. */
  lemma NodeIdInjective(j: nat, k: nat)
    requires NodeId(j) == NodeId(k)
    ensures j == k
  {
    assert Read(NodeId(j)[5..]) == Read(NodeId(k)[5..]);
  }

  /** The id is `node_<k>` for some k from 1 up to, but not including, the counter. */
  ghost predicate MintedBelow(id: string, counter: nat) {
    exists k: nat :: 1 <= k < counter && id == NodeId(k)
  }

  /** Every node id was minted below the counter. */
  ghost predicate IdsBelow(nodes: seq<Node>, counter: nat) {
    forall n :: n in nodes ==> MintedBelow(n.id, counter)
  }

  /** While all ids use numbers below the counter, the id the counter mints is fresh. */
  lemma FreshNodeId(nodes: seq<Node>, counter: nat)
    requires IdsBelow(nodes, counter)
    ensures !HasNode(nodes, NodeId(counter))
  {
    forall n | n in nodes ensures n.id != NodeId(counter) {
      var k: nat :| 1 <= k < counter && n.id == NodeId(k);
      if n.id == NodeId(counter) {
        NodeIdInjective(k, counter);
      }
    }
  }

  /** Appending the node the counter mints keeps ids distinct and below the incremented counter. */
  lemma AppendNewNodeKeepsIds(nodes: seq<Node>, counter: nat, kind: string, position: Position)
    requires IdsDistinct(nodes) && IdsBelow(nodes, counter) && counter >= 1
    ensures IdsDistinct(nodes + [NewNode(counter, kind, position)])
    ensures IdsBelow(nodes + [NewNode(counter, kind, position)], counter + 1)
  {
    var n := NewNode(counter, kind, position);
    FreshNodeId(nodes, counter);
    forall i | 0 <= i < |nodes| ensures IdOf(nodes[i]) != IdOf(n) {
      assert nodes[i] in nodes;
    }
    AppendKeepsDistinctBy(nodes, n, IdOf);
    forall m | m in nodes + [n] ensures MintedBelow(m.id, counter + 1) {
      if m in nodes {
        var k: nat :| 1 <= k < counter && m.id == NodeId(k);
      } else {
        assert m.id == NodeId(counter);
      }
    }
  }

  // --------------------------------------------------------------- deletion

  /** The nodes kept by deleting node `id`: all nodes but those with that id, in order. */
  function RemoveNodeById(nodes: seq<Node>, id: string): (r: seq<Node>)
    ensures forall n :: n in r <==> n in nodes && n.id != id
    ensures forall n :: multiset(r)[n] == if n.id != id then multiset(nodes)[n] else 0
    ensures IsSubsequence(r, nodes)
  {
    Filter(nodes, (n: Node) => n.id != id)
  }

  /** The edges kept by deleting node `id`: all edges that neither start nor end at it, in order. */
  function RemoveIncidentEdges(edges: seq<Edge>, id: string): (r: seq<Edge>)
    ensures forall e :: e in r <==> e in edges && e.source != id && e.target != id
    ensures forall e :: multiset(r)[e] == if e.source != id && e.target != id then multiset(edges)[e] else 0
    ensures IsSubsequence(r, edges)
  {
    Filter(edges, (e: Edge) => e.source != id && e.target != id)
  }

  /** The edges kept by deleting edge `id`: all edges with another id, in order. */
  function RemoveEdgeById(edges: seq<Edge>, id: string): (r: seq<Edge>)
    ensures forall e :: e in r <==> e in edges && e.id != id
    ensures forall e :: multiset(r)[e] == if e.id != id then multiset(edges)[e] else 0
    ensures IsSubsequence(r, edges)
  {
    Filter(edges, (e: Edge) => e.id != id)
  }

  /** Deleting a node with its incident edges leaves no edge dangling. */
  lemma DeleteNodeKeepsEndpoints(nodes: seq<Node>, edges: seq<Edge>, id: string)
    requires EndpointsExist(nodes, edges)
    ensures EndpointsExist(RemoveNodeById(nodes, id), RemoveIncidentEdges(edges, id))
  {
    var ns, es := RemoveNodeById(nodes, id), RemoveIncidentEdges(edges, id);
    forall e | e in es ensures HasNode(ns, e.source) && HasNode(ns, e.target) {
      var s :| s in nodes && s.id == e.source;
      var t :| t in nodes && t.id == e.target;
      assert s in ns && t in ns;
    }
  }

  /** Deleting a node keeps node ids distinct and below the counter. */
  lemma RemoveNodeKeepsIds(nodes: seq<Node>, counter: nat, id: string)
    requires IdsDistinct(nodes) && IdsBelow(nodes, counter)
    ensures IdsDistinct(RemoveNodeById(nodes, id)) && IdsBelow(RemoveNodeById(nodes, id), counter)
  {
    FilterKeepsDistinctBy(nodes, (n: Node) => n.id != id, IdOf);
  }

  /** Both edge filters keep edge ids distinct. */
  lemma RemoveEdgesKeepsEdgeIds(edges: seq<Edge>, id: string)
    requires EdgeIdsDistinct(edges)
    ensures EdgeIdsDistinct(RemoveIncidentEdges(edges, id))
    ensures EdgeIdsDistinct(RemoveEdgeById(edges, id))
  {
    FilterKeepsDistinctBy(edges, (e: Edge) => e.source != id && e.target != id, EdgeIdOf);
    FilterKeepsDistinctBy(edges, (e: Edge) => e.id != id, EdgeIdOf);
  }

  /** Appending an edge whose id no edge has keeps edge ids distinct. */
  lemma AppendEdgeKeepsEdgeIds(edges: seq<Edge>, e: Edge)
    requires EdgeIdsDistinct(edges)
    requires forall f :: f in edges ==> f.id != e.id
    ensures EdgeIdsDistinct(edges + [e])
  {
    forall i | 0 <= i < |edges| ensures EdgeIdOf(edges[i]) != EdgeIdOf(e) {
      assert edges[i] in edges;
    }
    AppendKeepsDistinctBy(edges, e, EdgeIdOf);
  }

  // ------------------------------------------------------------ text update

  /** The nodes after setting the text of node `id`: position by position, a node with that id
      gets its text replaced by `newText` and keeps every other field; all other nodes are unchanged. */
  function SetLabel(nodes: seq<Node>, id: string, newText: string): (r: seq<Node>)
    ensures |r| == |nodes|
    ensures forall i :: 0 <= i < |nodes| ==>
              r[i] == if nodes[i].id == id then nodes[i].(text := newText) else nodes[i]
    ensures !HasNode(nodes, id) ==> r == nodes
  {
    if nodes == [] then []
    else
      var n := nodes[0];
      [if n.id == id then n.(text := newText) else n] + SetLabel(nodes[1..], id, newText)
  }

  /** A text update changes no id, so the id invariants survive it. */
  lemma SetLabelKeepsIds(nodes: seq<Node>, counter: nat, id: string, newText: string)
    requires IdsDistinct(nodes) && IdsBelow(nodes, counter)
    ensures IdsDistinct(SetLabel(nodes, id, newText)) && IdsBelow(SetLabel(nodes, id, newText), counter)
  {
    SetLabelKeepsDistinct(nodes, id, newText);
    SetLabelKeepsBelow(nodes, counter, id, newText);
  }

  lemma SetLabelKeepsDistinct(nodes: seq<Node>, id: string, newText: string)
    requires IdsDistinct(nodes)
    ensures IdsDistinct(SetLabel(nodes, id, newText))
  {
    var r := SetLabel(nodes, id, newText);
    forall i, j | 0 <= i < j < |r| ensures IdOf(r[i]) != IdOf(r[j]) {
      assert IdOf(r[i]) == IdOf(nodes[i]) && IdOf(r[j]) == IdOf(nodes[j]);
    }
  }

  lemma SetLabelKeepsBelow(nodes: seq<Node>, counter: nat, id: string, newText: string)
    requires IdsBelow(nodes, counter)
    ensures IdsBelow(SetLabel(nodes, id, newText), counter)
  {
    var r := SetLabel(nodes, id, newText);
    forall m | m in r ensures MintedBelow(m.id, counter) {
      var i :| 0 <= i < |r| && r[i] == m;
      assert m.id == nodes[i].id;
      assert nodes[i] in nodes;
    }
  }

  /** Setting the same text twice is the same as setting it once. */
  lemma SetLabelIdempotent(nodes: seq<Node>, id: string, newText: string)
    ensures SetLabel(SetLabel(nodes, id, newText), id, newText) == SetLabel(nodes, id, newText)
  {
    var once := SetLabel(nodes, id, newText);
    var twice := SetLabel(once, id, newText);
    forall i | 0 <= i < |nodes| ensures twice[i] == once[i] {
      assert once[i].id == nodes[i].id;
    }
  }
}
