/** Which node the settings panel is editing. The builder stores the clicked
    node object itself, so an `Editing` selection holds a snapshot of a node. */
module SelectionState {
  import opened Graph

  datatype Selection = NoSelection | Editing(node: Node)

  /** The selection is the node with this id. */
  predicate Selects(sel: Selection, id: string) {
    sel.Editing? && sel.node.id == id
  }

  /** The selection after deleting node `id`: cleared when it was that node, kept otherwise. */
  function AfterDelete(sel: Selection, id: string): (r: Selection)
    ensures r == NoSelection <==> sel == NoSelection || Selects(sel, id)
    ensures !Selects(sel, id) ==> r == sel
    ensures !Selects(r, id)
  {
    if Selects(sel, id) then NoSelection else sel
  }

  /** The selection after a node's own delete button runs: the handler that
      button holds was created when the node was dropped, so it compares the
      id against `captured`, the selection at that moment, and leaves the
      current selection alone unless `captured` was the deleted node. */
  function AfterButtonDelete(current: Selection, captured: Selection, id: string): (r: Selection)
    ensures Selects(captured, id) ==> r == NoSelection
    ensures !Selects(captured, id) ==> r == current
  {
    if Selects(captured, id) then NoSelection else current
  }

  /** A node dropped while nothing was selected, then clicked, then deleted with
      its own button stays selected although it is gone from the graph. */
  lemma ButtonDeleteKeepsDeletedNodeSelected(nodes: seq<Node>, counter: nat, kind: string, position: Position)
    ensures var a := NewNode(counter, kind, position);
            var after := AfterButtonDelete(Editing(a), NoSelection, a.id);
            after == Editing(a) && Selects(after, a.id) &&
            !HasNode(RemoveNodeById(nodes + [a], a.id), a.id)
  {
  }
}
