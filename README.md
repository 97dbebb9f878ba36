# Chatbot flow builder: graph store and validators

This project models the state logic of the chatbot flow builder's `FlowBuilder`
component (`src/components/FlowBuilder.jsx`). The component holds an ordered
sequence of message nodes and an ordered sequence of directed edges, a
selection (the node whose settings panel is open), a banner error message,
and a counter that mints node ids. Its event handlers work on that state:

- drop a node onto the canvas;
- delete a node, with its incident edges;
- delete an edge;
- click a node or the empty canvas;
- connect two nodes;
- edit a node's text;
- save.

Two validators guard the graph:

- **Connection rule.** A node's source handle has at most one outgoing edge. An incoming edge count is unbounded.
- **Save rule.** With more than one node, at most one node may be the target of no edge. Such a node is a "root".

Modules, one per part of the component:

- `Seqs` (`seqs.dfy`): an order-keeping `Filter`, the model of JavaScript's `Array.prototype.filter`. It comes with the subsequence relation and with key distinctness.
- `Decimal` (`decimal.dfy`): renders the counter as `${n}` does, plus its inverse `Read`.
- `Graph` (`graph.dfy`): the node and edge datatypes, and the pure computations the handlers apply to them. These are the deletion filters, the text-update map, and the node a drop mints.
- `Validation` (`validation.dfy`): the connection and save validators and their properties.
- `SelectionState` (`selection.dfy`): the selection and how deleting a node affects it.
- `Editor` (`flow_builder.dfy`): class `FlowBuilder`, the component's state.
  - Its fields are `nodes`, `edges`, `selection`, `errorMessage` and `nodeIdCounter`.
  - A sixth field, `capturedSelection`, maps each dropped node id to the selection current at its drop. That is the `selectedNode` the delete handler stored in the node's `data.onDelete` (line 175) compares against.
  - There is one method per handler. Each method's `modifies` clause names exactly the fields that handler sets.
  - `Valid()` is the store invariant `StoreValid` applied to the builder's fields. Every handler preserves it, and each handler's preservation is also a lemma on plain values (`DeleteNodeKeepsStore` and the others below). It says:
    - every node id is `node_<k>` for some `k` below the counter, and node ids are distinct;
    - no two edges share a source, and edge ids are distinct;
    - a selected node has a minted id;
    - every minted id has a stored handler, and no handler was created while its own node was selected.

How the model reads the code:

- A node's type is whatever string the drag carried (`textNode` from the nodes panel), not a fixed enumeration.
- The selection stores the clicked node object itself, not its id. A text update does not refresh that snapshot.
- Two delete methods exist.
  - `OnNodeButtonDelete` is the path the component actually takes. A node's delete button (`TextNode.jsx`, called through `data.onDelete`) runs the handler stored at drop time, and that handler never clears the selection. See "## Findings".
  - `OnDeleteNode` is `onDeleteNode` run against the current selection, as lines 62-70 read. It is the corrected behaviour.
- `OnNodeClick` requires that the clicked node belongs to the graph: the diagramming library fires `onNodeClick` only for nodes it renders from `nodes`.
- `OnConnect` requires that an accepted connection's edge id is not already used. `addEdge` mints that id.
- The settings panel's back button (line 293) sets the selection to `null`, exactly as `OnPaneClick` does; it is modelled by that method.

React applies state updates at the next render, and each discrete event sees the state the previous event committed. The model therefore runs handlers one after another on a single state. Functional updates (`setNodeIdCounter((count) => count + 1)`) and closure reads of `nodes`, `edges` and `nodeIdCounter` both see that state. The one exception is the delete handler stored inside each node, which `capturedSelection` records.

## Model

| member | source | states |
|---|---|---|
| Seqs.Filter | src/components/FlowBuilder.jsx:64-66 | The result holds exactly the elements that pass the test, each as often as in the input. It is a subsequence of the input, so order is kept. |
| Seqs.FilterKeepsDistinctBy | src/components/FlowBuilder.jsx:64-66 | Filtering never makes two keys equal, so deletions keep ids and sources distinct. |
| Seqs.FilterAtMostOne | src/components/FlowBuilder.jsx:218-223 | A filter keeps at most one element if and only if no two positions both pass the test. |
| Decimal.Show | src/components/FlowBuilder.jsx:170 | The counter renders as at least one decimal digit, with no leading zero when it is positive. |
| Decimal.ReadShow | src/components/FlowBuilder.jsx:170 | Reading back the decimal rendering of the counter gives the counter. |
| Decimal.ShowInjective | src/components/FlowBuilder.jsx:170 | Different counter values render differently. |
| Graph.NewNode | src/components/FlowBuilder.jsx:169-177 | A dropped node has id `node_<counter>`, text `test message <counter>`, and the dropped type and position. |
| Graph.NodeId | src/components/FlowBuilder.jsx:170 | A minted id is `node_` followed by digits that read back as the counter. |
| Graph.DefaultLabel | src/components/FlowBuilder.jsx:174 | A new node's text is `test message ` followed by digits that read back as the counter. |
| Graph.NodeIdInjective | src/components/FlowBuilder.jsx:170 | Two counter values that mint the same id are equal. |
| Graph.FreshNodeId | src/components/FlowBuilder.jsx:170-180 | If every id uses a number below the counter, the id the counter mints is held by no node. |
| Graph.AppendNewNodeKeepsIds | src/components/FlowBuilder.jsx:179-180 | Appending the minted node and advancing the counter keeps ids distinct and below the counter. |
| Graph.RemoveNodeById | src/components/FlowBuilder.jsx:64 | Deleting a node keeps exactly the nodes with another id, each as often as before, in their order. |
| Graph.RemoveIncidentEdges | src/components/FlowBuilder.jsx:65-67 | Deleting a node keeps exactly the edges that neither start nor end at it, in their order. |
| Graph.RemoveEdgeById | src/components/FlowBuilder.jsx:80 | Deleting an edge keeps exactly the edges with another id, in their order. |
| Graph.DeleteNodeKeepsEndpoints | src/components/FlowBuilder.jsx:62-67 | If every edge ran between existing nodes before a node deletion, that still holds after it: the cascade leaves nothing dangling. |
| Graph.RemoveNodeKeepsIds | src/components/FlowBuilder.jsx:64 | Node deletion keeps ids distinct and below the counter. |
| Graph.RemoveEdgesKeepsEdgeIds | src/components/FlowBuilder.jsx:65-80 | Both edge filters keep edge ids distinct. |
| Graph.AppendEdgeKeepsEdgeIds | src/components/FlowBuilder.jsx:119-134 | Appending an edge with an unused id keeps edge ids distinct. |
| Graph.SetLabel | src/components/FlowBuilder.jsx:191-204 | Length and order are kept. Each node with the id gets the new text and keeps its other fields. Every other node is unchanged. With the id absent, the update is a no-op. |
| Graph.SetLabelKeepsIds | src/components/FlowBuilder.jsx:191-204 | A text update keeps ids distinct and below the counter. |
| Graph.SetLabelIdempotent | src/components/FlowBuilder.jsx:191-204 | Setting the same text twice equals setting it once. |
| Validation.Message | src/components/FlowBuilder.jsx:111-113 | Each error has a non-empty banner text: the connection message here, and "Cannot save Flow" from line 224. |
| Validation.Connect | src/components/FlowBuilder.jsx:105-137 | A connection is rejected with the duplicate-source error if and only if an edge already leaves its source. Otherwise exactly one edge from source to target is appended. |
| Validation.ConnectKeepsSourcesDistinct | src/components/FlowBuilder.jsx:105-137 | An accepted connection keeps "no two edges share a source". |
| Validation.DeleteKeepsSourcesDistinct | src/components/FlowBuilder.jsx:65-80 | Both the node-deletion cascade and edge deletion keep sources distinct. |
| Validation.ConnectAllKeepsSourcesDistinct | src/components/FlowBuilder.jsx:105-137 | Any sequence of connection attempts keeps sources distinct. |
| Validation.NoSharedSourceFromEmpty | src/components/FlowBuilder.jsx:105-137 | Starting from no edges, after any sequence of connection attempts no two edges share a source. |
| Validation.SecondConnectionFromSourceRejected | src/components/FlowBuilder.jsx:108-116 | Connecting A to B and then A to C rejects the second attempt; only A to B remains. |
| Validation.Roots | src/components/FlowBuilder.jsx:218-220 | The roots are exactly the nodes that no edge targets, each as often as in the node sequence, in node order. |
| Validation.SaveCheck | src/components/FlowBuilder.jsx:214-228 | A rejected save carries the multiple-roots error and has more than one node. |
| Validation.SaveAcceptedIff | src/components/FlowBuilder.jsx:214-228 | Save succeeds if and only if there is at most one node, or no two node positions are both roots. |
| Validation.SetLabelKeepsRoots | src/components/FlowBuilder.jsx:189-220 | A text update changes neither the root count nor the save verdict. |
| Validation.SingleNodeSaves | src/components/FlowBuilder.jsx:216 | A single node with no edges saves. |
| Validation.ChainOfTwoSaves | src/components/FlowBuilder.jsx:216-228 | Two nodes joined by A to B save, and A is the only root. |
| Validation.TwoUnconnectedNodesFail | src/components/FlowBuilder.jsx:216-227 | Two unconnected nodes are both roots, and the save fails with the multiple-roots error. |
| SelectionState.AfterDelete | src/components/FlowBuilder.jsx:68-70 | Deleting node `id` clears the selection if and only if it selected that node; otherwise the selection is unchanged. The result never selects `id`. |
| SelectionState.AfterButtonDelete | src/components/FlowBuilder.jsx:68-72 | The delete handler a node's button holds compares against the selection captured when the handler was made. It clears the current selection exactly when that captured selection was the deleted node; otherwise the current selection survives. |
| SelectionState.ButtonDeleteKeepsDeletedNodeSelected | src/components/FlowBuilder.jsx:175 | Drop a node with nothing selected, click it, then press its delete button: it stays selected although it is no longer in the graph. |
| Editor.DropKeepsHandlersValid | src/components/FlowBuilder.jsx:169-182 | Storing the current selection as the new node's handler keeps every minted id covered. The new handler does not select its own node, because the current selection has an older id. |
| Editor.HandlerOfNode | src/components/FlowBuilder.jsx:175 | Every node of the graph has a stored handler, and that handler does not select the node. |
| Editor.ClickedNodeMinted | src/components/FlowBuilder.jsx:89-91 | A clicked node of the graph carries a minted id. |
| Editor.DeleteNodeKeepsStore | src/components/FlowBuilder.jsx:62-73 | Removing a node and its incident edges, and clearing the selection if it was that node, keeps the store invariant. |
| Editor.ButtonDeleteKeepsStore | src/components/FlowBuilder.jsx:62-72 | For a node of the graph, the handler its button holds exists and leaves the selection as it is. The removal it performs keeps the store invariant. |
| Editor.DropKeepsStore | src/components/FlowBuilder.jsx:169-182 | The id the counter mints is not yet in the graph. Appending the new node, storing its handler and advancing the counter keeps the store invariant. |
| Editor.ConnectKeepsStore | src/components/FlowBuilder.jsx:105-137 | An accepted connection whose edge id is unused keeps the store invariant. |
| Editor.UpdateKeepsStore | src/components/FlowBuilder.jsx:189-207 | A text update keeps the store invariant and the save verdict. |
| Editor.FlowBuilder.constructor | src/components/FlowBuilder.jsx:50-57 | The builder starts with no nodes, no edges, no selection and an empty message, with the counter at 1. |
| Editor.FlowBuilder.OnDeleteNode | src/components/FlowBuilder.jsx:62-73 | Nodes become the node-deletion filter of the old nodes, and edges the cascade filter of the old edges. The selection is cleared exactly when it was that node. Nothing else changes, and the invariant and the absence of dangling edges are kept. |
| Editor.FlowBuilder.OnNodeButtonDelete | src/components/FlowBuilder.jsx:62-72 | The node's own button removes the node and its incident edges, as `OnDeleteNode` does. The selection becomes `AfterButtonDelete` under the handler stored at drop time, and so it is never changed. The invariant is kept. |
| Editor.FlowBuilder.OnDeleteEdge | src/components/FlowBuilder.jsx:78-83 | Only edges change, to the edge-deletion filter of the old edges; the invariant is kept. |
| Editor.FlowBuilder.OnNodeClick | src/components/FlowBuilder.jsx:89-91 | The clicked node of the graph becomes the selection; nothing else changes. |
| Editor.FlowBuilder.OnPaneClick | src/components/FlowBuilder.jsx:97-99 | The selection is cleared and nothing else changes, as also on the settings panel's back button (line 293). |
| Editor.FlowBuilder.OnConnect | src/components/FlowBuilder.jsx:105-137 | Accepted if and only if no edge leaves the source. If accepted, one edge is appended. If rejected, edges are unchanged and only the banner is set. Sources and edge ids stay distinct. |
| Editor.FlowBuilder.OnDrop | src/components/FlowBuilder.jsx:152-183 | A missing or empty type changes nothing. Otherwise the node minted from the old counter, with a fresh id, is appended, its delete handler records the current selection, and the counter advances by one. |
| Editor.FlowBuilder.OnUpdateNode | src/components/FlowBuilder.jsx:189-207 | Nodes become the text-update map of the old nodes. Nothing else changes, and neither the invariant nor the save verdict changes. |
| Editor.FlowBuilder.HandleSave | src/components/FlowBuilder.jsx:214-233 | Saved if and only if there is at most one node or at most one root. A failure sets only the banner; nodes and edges are never changed. |
| Editor.FlowBuilder.ClearError | src/components/FlowBuilder.jsx:114 | The banner is emptied, as the timer callbacks at lines 114 and 225 and the close button do. |

## Findings

| source | as written | input that shows it | evidently intended | confidence | as-written member | corrected member |
|---|---|---|---|---|---|---|
| src/components/FlowBuilder.jsx:175 | Each dropped node stores in `data.onDelete` the `onDeleteNode` callback current at drop time. That callback was memoised on the `selectedNode` of that moment (line 72). A text update copies it unchanged with `...node.data`. The node's delete button therefore compares the deleted id with the selection as it was when the node was dropped. | Drop a node while nothing is selected, click it, then press its delete button. The node and its edges are removed, but the selection still holds the deleted node, so its settings panel stays open. | Deleting the currently selected node clears the selection, which is what the test at line 68 is for. | medium; not executed | SelectionState.AfterButtonDelete, SelectionState.ButtonDeleteKeepsDeletedNodeSelected, Editor.FlowBuilder.OnNodeButtonDelete | SelectionState.AfterDelete, Editor.FlowBuilder.OnDeleteNode |

## Left out

- Rendering: everything the component returns as markup (lines 235-300), and the other components (`TextNode`, `EdgeEditButton`, `NodesPanel`, `ErrorNotification`, `SaveButton`, `App`, `main`). They are presentation only.
- `SettingsPanel`'s local textarea state: its only effect on the store is a call to `onUpdateNode`, which is modelled as `OnUpdateNode`.
- The diagramming library's code. These are foreign calls whose source is not part of this model:
  - `useNodesState` and `useEdgesState`;
  - the keyboard-delete path through `onNodesChange`/`onEdgesChange` (lines 260-261, 280);
  - `addEdge`'s internal id format.
- Editor.FlowBuilder.OnConnect: the id of the new edge is a parameter, because `addEdge` mints it. `addEdge` also refuses a connection identical to an existing edge. That is not modelled: such an edge has the same source, so the connection rule has already rejected it.
- Edge styling (`type`, `animated`, `style`, `markerEnd`), source and target handle names, and the `onDelete` callbacks kept in `data`. They carry no store behaviour, apart from the delete-button finding above.
- `screenToFlowPosition` (lines 163-166) is a floating-point conversion done by the library. The drop position is a parameter, and the model never computes on it.
- The 3-second `setTimeout`, `console.log`, `alert`, `preventDefault` and the `dataTransfer` calls (lines 114, 143-146, 154-156, 225, 231-232). These are timers, I/O and browser events. The timer's effect, emptying the banner, is `ClearError`. The value `getData` returns is the `kind` parameter of `OnDrop`, with `None` standing for `undefined`.
- Editor.FlowBuilder.OnDrop: the counter is an unbounded natural number. JavaScript numbers lose integer precision above 2^53, which is not modelled.
- Editor.FlowBuilder.HandleSave: a successful save only reports success. What the component does with the saved graph (a log line and an alert) is I/O.
