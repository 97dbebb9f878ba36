/** The flow builder's state and its event handlers: the node and edge
    sequences, the selection, the banner message and the node id counter,
    each handler replacing them as the component's state setters do. */
module Editor {
  import opened Graph
  import opened Validation
  import opened SelectionState

  /** The node type a drop carries; `None` when the drag carried none. */
  datatype Option<T> = None | Some(value: T)

  /** The selection, if any, is a node the counter has minted. */
  ghost predicate SelectionMinted(sel: Selection, counter: nat) {
    sel.Editing? ==> MintedBelow(sel.node.id, counter)
  }

  /** Every id the counter has minted has a stored delete handler, and no
      handler was created while its own node was selected. */
  ghost predicate HandlersValid(captured: map<string, Selection>, counter: nat) {
    && (forall k: nat :: 1 <= k < counter ==> NodeId(k) in captured)
    && (forall id :: id in captured ==> !Selects(captured[id], id))
  }

  /** A drop stores the current selection for the new id and keeps the handlers valid. */
  lemma DropKeepsHandlersValid(captured: map<string, Selection>, sel: Selection, counter: nat)
    requires HandlersValid(captured, counter) && SelectionMinted(sel, counter)
    ensures HandlersValid(captured[NodeId(counter) := sel], counter + 1)
    ensures SelectionMinted(sel, counter + 1)
  {
    var m := captured[NodeId(counter) := sel];
    if sel.Editing? {
      var k: nat :| 1 <= k < counter && sel.node.id == NodeId(k);
      if sel.node.id == NodeId(counter) {
        NodeIdInjective(k, counter);
      }
    }
    forall k: nat | 1 <= k < counter + 1 ensures NodeId(k) in m {
      if k < counter {
        assert NodeId(k) in captured;
      }
    }
    forall id | id in m ensures !Selects(m[id], id) {
      if id != NodeId(counter) {
        assert m[id] == captured[id];
      }
    }
  }

  /** A node of the graph has a stored handler, and that handler does not select it. */
  lemma HandlerOfNode(nodes: seq<Node>, captured: map<string, Selection>, counter: nat, id: string)
    requires IdsBelow(nodes, counter) && HandlersValid(captured, counter) && HasNode(nodes, id)
    ensures id in captured && !Selects(captured[id], id)
  {
    var n :| n in nodes && n.id == id;
    var k: nat :| 1 <= k < counter && n.id == NodeId(k);
  }

  /** A clicked node of the graph carries a minted id. */
  lemma ClickedNodeMinted(nodes: seq<Node>, node: Node, counter: nat)
    requires IdsBelow(nodes, counter) && HasNode(nodes, node.id)
    ensures SelectionMinted(Editing(node), counter)
  {
    var n :| n in nodes && n.id == node.id;
    var k: nat :| 1 <= k < counter && n.id == NodeId(k);
  }

  /** The store's invariant over the five pieces of state: the counter has
      minted every node id (so ids are distinct), no two edges leave the same
      node, edge ids are distinct, the selection is a minted node, every
      minted id has a delete handler, and no handler was created while its
      own node was selected. */
  ghost predicate StoreValid(nodes: seq<Node>, edges: seq<Edge>, selection: Selection,
                             counter: nat, captured: map<string, Selection>) {
    && counter >= 1
    && IdsDistinct(nodes)
    && IdsBelow(nodes, counter)
    && SourcesDistinct(edges)
    && EdgeIdsDistinct(edges)
    && SelectionMinted(selection, counter)
    && HandlersValid(captured, counter)
  }

  /** Deleting a node, its edges and (if it was selected) the selection keeps the invariant. */
  lemma DeleteNodeKeepsStore(nodes: seq<Node>, edges: seq<Edge>, selection: Selection,
                             counter: nat, captured: map<string, Selection>, id: string)
    requires StoreValid(nodes, edges, selection, counter, captured)
    ensures StoreValid(RemoveNodeById(nodes, id), RemoveIncidentEdges(edges, id),
                       AfterDelete(selection, id), counter, captured)
  {
    RemoveNodeKeepsIds(nodes, counter, id);
    DeleteKeepsSourcesDistinct(edges, id);
    RemoveEdgesKeepsEdgeIds(edges, id);
  }

  /** Deleting a node with its own button keeps the invariant, and the handler
      the button holds leaves the selection as it is. */
  lemma ButtonDeleteKeepsStore(nodes: seq<Node>, edges: seq<Edge>, selection: Selection,
                               counter: nat, captured: map<string, Selection>, id: string)
    requires StoreValid(nodes, edges, selection, counter, captured) && HasNode(nodes, id)
    ensures id in captured && AfterButtonDelete(selection, captured[id], id) == selection
    ensures StoreValid(RemoveNodeById(nodes, id), RemoveIncidentEdges(edges, id),
                       selection, counter, captured)
  {
    HandlerOfNode(nodes, captured, counter, id);
    RemoveNodeKeepsIds(nodes, counter, id);
    DeleteKeepsSourcesDistinct(edges, id);
    RemoveEdgesKeepsEdgeIds(edges, id);
  }

  /** A drop with a node type keeps the invariant. */
  lemma DropKeepsStore(nodes: seq<Node>, edges: seq<Edge>, selection: Selection,
                       counter: nat, captured: map<string, Selection>, kind: string, position: Position)
    requires StoreValid(nodes, edges, selection, counter, captured)
    ensures !HasNode(nodes, NodeId(counter))
    ensures StoreValid(nodes + [NewNode(counter, kind, position)], edges, selection,
                       counter + 1, captured[NodeId(counter) := selection])
  {
    DropKeepsHandlersValid(captured, selection, counter);
    FreshNodeId(nodes, counter);
    AppendNewNodeKeepsIds(nodes, counter, kind, position);
  }

  /** An accepted connection with a fresh edge id keeps the invariant. */
  lemma ConnectKeepsStore(nodes: seq<Node>, edges: seq<Edge>, selection: Selection,
                          counter: nat, captured: map<string, Selection>, a: Attempt)
    requires StoreValid(nodes, edges, selection, counter, captured)
    requires !HasOutgoing(edges, a.source) ==> forall e :: e in edges ==> e.id != a.edgeId
    ensures Connect(edges, a).Ok? ==> StoreValid(nodes, Connect(edges, a).value, selection, counter, captured)
  {
    ConnectKeepsSourcesDistinct(edges, a);
    if !HasOutgoing(edges, a.source) {
      AppendEdgeKeepsEdgeIds(edges, Edge(a.edgeId, a.source, a.target));
    }
  }

  /** A text update keeps the invariant and the save verdict. */
  lemma UpdateKeepsStore(nodes: seq<Node>, edges: seq<Edge>, selection: Selection,
                         counter: nat, captured: map<string, Selection>, id: string, newText: string)
    requires StoreValid(nodes, edges, selection, counter, captured)
    ensures StoreValid(SetLabel(nodes, id, newText), edges, selection, counter, captured)
    ensures SaveCheck(SetLabel(nodes, id, newText), edges) == SaveCheck(nodes, edges)
  {
    SetLabelKeepsIds(nodes, counter, id, newText);
    SetLabelKeepsRoots(nodes, edges, id, newText);
  }

  class FlowBuilder {
    var nodes: seq<Node>
    var edges: seq<Edge>
    var selection: Selection
    var errorMessage: string
    var nodeIdCounter: nat
    /** For each dropped node id, the selection current when that node was
        dropped: the one its stored delete handler compares against. */
    var capturedSelection: map<string, Selection>

    /** The store's invariant on this builder's fields. */
    ghost predicate Valid()
      reads this`nodes, this`edges, this`selection, this`nodeIdCounter, this`capturedSelection
    {
      StoreValid(nodes, edges, selection, nodeIdCounter, capturedSelection)
    }

    /** An empty canvas, nothing selected, no banner, the counter at 1. */
    constructor ()
      ensures Valid()
      ensures nodes == [] && edges == [] && selection == NoSelection
      ensures errorMessage == "" && nodeIdCounter == 1
    {
      nodes, edges := [], [];
      selection := NoSelection;
      errorMessage := "";
      nodeIdCounter := 1;
      capturedSelection := map[];
    }

    /** The deletion handler run against the current selection: deletes node `id`,
        every edge that starts or ends at it, and the selection if it was that node. */
    method OnDeleteNode(id: string)
      requires Valid()
      modifies this`nodes, this`edges, this`selection
      ensures Valid()
      ensures nodes == RemoveNodeById(old(nodes), id)
      ensures edges == RemoveIncidentEdges(old(edges), id)
      ensures selection == AfterDelete(old(selection), id)
      ensures !HasNode(nodes, id) && !Selects(selection, id)
      ensures EndpointsExist(old(nodes), old(edges)) ==> EndpointsExist(nodes, edges)
    {
      DeleteNodeKeepsStore(nodes, edges, selection, nodeIdCounter, capturedSelection, id);
      if EndpointsExist(nodes, edges) {
        DeleteNodeKeepsEndpoints(nodes, edges, id);
      }
      nodes := RemoveNodeById(nodes, id);
      edges := RemoveIncidentEdges(edges, id);
      if Selects(selection, id) {
        selection := NoSelection;
      }
    }

    /** A node's own delete button: the node and its edges go as with
        `OnDeleteNode`, but the selection test uses the handler stored in the
        node at drop time. That handler never saw its own node selected, so
        the selection is never cleared, even when it is the deleted node. */
    method OnNodeButtonDelete(id: string)
      requires Valid() && HasNode(nodes, id)
      modifies this`nodes, this`edges, this`selection
      ensures Valid()
      ensures nodes == RemoveNodeById(old(nodes), id)
      ensures edges == RemoveIncidentEdges(old(edges), id)
      ensures selection == AfterButtonDelete(old(selection), capturedSelection[id], id)
      ensures selection == old(selection)
    {
      ButtonDeleteKeepsStore(nodes, edges, selection, nodeIdCounter, capturedSelection, id);
      nodes := RemoveNodeById(nodes, id);
      edges := RemoveIncidentEdges(edges, id);
      selection := AfterButtonDelete(selection, capturedSelection[id], id);
    }

    /** Deletes the edge with id `id`; nodes are untouched. */
    method OnDeleteEdge(id: string)
      requires Valid()
      modifies this`edges
      ensures Valid()
      ensures edges == RemoveEdgeById(old(edges), id)
    {
      DeleteKeepsSourcesDistinct(edges, id);
      RemoveEdgesKeepsEdgeIds(edges, id);
      edges := RemoveEdgeById(edges, id);
    }

    /** Clicking a node of the graph selects it. */
    method OnNodeClick(node: Node)
      requires Valid() && HasNode(nodes, node.id)
      modifies this`selection
      ensures Valid()
      ensures selection == Editing(node)
    {
      ClickedNodeMinted(nodes, node, nodeIdCounter);
      selection := Editing(node);
    }

    /** Clicking the empty canvas (or the settings panel's back button) clears the selection. */
    method OnPaneClick()
      requires Valid()
      modifies this`selection
      ensures Valid()
      ensures selection == NoSelection
    {
      selection := NoSelection;
    }

    /** A connection from `source` to `target`: rejected with the banner when an
        edge already leaves `source`, otherwise added as one new edge whose id,
        minted by the diagramming library, no current edge has. */
    method OnConnect(source: string, target: string, edgeId: string) returns (accepted: bool)
      requires Valid()
      requires !HasOutgoing(edges, source) ==> forall e :: e in edges ==> e.id != edgeId
      modifies this`edges, this`errorMessage
      ensures Valid()
      ensures accepted <==> !HasOutgoing(old(edges), source)
      ensures accepted ==> edges == old(edges) + [Edge(edgeId, source, target)] && errorMessage == old(errorMessage)
      ensures !accepted ==> edges == old(edges) && errorMessage == Message(DuplicateSource)
    {
      var a := Attempt(source, target, edgeId);
      ConnectKeepsStore(nodes, edges, selection, nodeIdCounter, capturedSelection, a);
      var r := Connect(edges, a);
      if r.Err? {
        errorMessage := Message(r.error);
        accepted := false;
      } else {
        edges := r.value;
        accepted := true;
      }
    }

    /** A drop of node type `kind` at `position`: without a type nothing happens;
        otherwise the node the counter mints is appended, its delete handler
        records the current selection, and the counter advances. */
    method OnDrop(kind: Option<string>, position: Position)
      requires Valid()
      modifies this`nodes, this`nodeIdCounter, this`capturedSelection
      ensures Valid()
      ensures kind == None || kind == Some("") ==>
                && nodes == old(nodes) && nodeIdCounter == old(nodeIdCounter)
                && capturedSelection == old(capturedSelection)
      ensures kind.Some? && kind.value != "" ==>
                && !HasNode(old(nodes), NodeId(old(nodeIdCounter)))
                && nodes == old(nodes) + [NewNode(old(nodeIdCounter), kind.value, position)]
                && nodeIdCounter == old(nodeIdCounter) + 1
                && capturedSelection == old(capturedSelection)[NodeId(old(nodeIdCounter)) := selection]
    {
      if kind == None || kind == Some("") {
        return;
      }
      DropKeepsStore(nodes, edges, selection, nodeIdCounter, capturedSelection, kind.value, position);
      capturedSelection := capturedSelection[NodeId(nodeIdCounter) := selection];
      nodes := nodes + [NewNode(nodeIdCounter, kind.value, position)];
      nodeIdCounter := nodeIdCounter + 1;
    }

    /** Sets the text of node `id`; the save verdict is not affected. */
    method OnUpdateNode(id: string, newText: string)
      requires Valid()
      modifies this`nodes
      ensures Valid()
      ensures nodes == SetLabel(old(nodes), id, newText)
      ensures SaveCheck(nodes, edges) == SaveCheck(old(nodes), edges)
    {
      UpdateKeepsStore(nodes, edges, selection, nodeIdCounter, capturedSelection, id, newText);
      nodes := SetLabel(nodes, id, newText);
    }

    /** Validates the flow; a rejected save only sets the banner. */
    method HandleSave() returns (saved: bool)
      requires Valid()
      modifies this`errorMessage
      ensures saved <==> |nodes| <= 1 || AtMostOneRoot(nodes, edges)
      ensures saved <==> SaveCheck(nodes, edges) == Pass
      ensures saved ==> errorMessage == old(errorMessage)
      ensures !saved ==> errorMessage == Message(MultipleRoots)
      ensures Valid()
    {
      SaveAcceptedIff(nodes, edges);
      saved := SaveCheck(nodes, edges) == Pass;
      if !saved {
        errorMessage := Message(MultipleRoots);
      }
    }

    /** The banner's dismissal (its close button, or the timer that follows an error). */
    method ClearError()
      requires Valid()
      modifies this`errorMessage
      ensures Valid()
      ensures errorMessage == ""
    {
      errorMessage := "";
    }
  }

  /** A node dropped while nothing is selected, clicked, then deleted with its
      own button: it is gone from the graph but still selected. */
  method StaleButtonDeleteScenario() {
    var fb := new FlowBuilder();
    fb.OnDrop(Some("textNode"), Position(0.0, 0.0));
    var a := NewNode(1, "textNode", Position(0.0, 0.0));
    assert fb.nodes == [a];
    assert HasNode(fb.nodes, a.id) by { assert fb.nodes[0] == a; }
    fb.OnNodeClick(a);
    fb.OnNodeButtonDelete(a.id);
    assert fb.selection == Editing(a);
    assert !HasNode(fb.nodes, a.id);
  }
}
