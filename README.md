# hierarchy-frontend, modelled in Dafny

This project models the logic core of a React front end that draws an
organisation's department hierarchy as a node-link diagram.

- **`processData`** (`src/utils/graphUtils.js`) flattens a forest of department
  records into diagram nodes and edges. It walks the forest depth-first in
  pre-order. Each record gets one node. Each record whose parent id is truthy
  gets one edge from its parent.
- **`getLayoutedElements`** (same file) hands the nodes and edges to the dagre
  layout library. It then turns the centre dagre reports for each node into
  the top-left corner of the node's 150×100 box.
- The **status-flag encoder** in the `handleSubmit` of the two department
  forms (`AddNodeModal.js`, `EditNodeModal.js`) packs the active, deleted and
  approved checkboxes into bit values 1, 2 and 4 (bits 0, 1 and 2). The forms then call their
  callbacks.

Files and modules:

- `ids.dfy`, module `Ids`: the decimal rendering of an integer id
  (`id.toString()`), its parser, and the proof that the rendering is
  injective.
- `graph_utils.dfy`, module `GraphUtils`: the record, node and edge
  datatypes.
  - The pure pre-order functions `TreeNodes`/`ForestNodes` and
    `TreeEdges`/`ForestEdges`.
  - The imperative `Traverse` and `ProcessData`, proved to build exactly
    those sequences.
  - The lemmas about them.
  - The position post-processing `GetLayoutedElements`.
- `status_flags.dfy`, module `StatusFlags`: the shared 3-bit encoder, as an
  imperative method (`let flags = 0` followed by conditional `|=`) and as
  functions, with decode and round-trip.
- `add_node_modal.dfy` and `edit_node_modal.dfy`: each form's initial state
  and `handleSubmit`.

Modelling choices:

- **Ids** are integers. A node's id is `IntToString(record.id)`. Its
  `data.id` and `parent_id` keep the raw integer.
- **Truthiness.** JavaScript's `if (parentId)` is `Truthy`: `null` (`None`)
  and `0` are falsy. So the children of a record with id 0 get a node whose
  `parent_id` is 0, but no edge.
- **Closure arrays.** The `nodes` and `edges` arrays that `traverse`
  captures are passed through `Traverse` as input and output sequences.
  Each call appends to them, just as each `push` does.
- **Callbacks.** The three callbacks are opaque values of a type parameter
  `H`. They are attached to every node and never inspected.
- **Missing children.** A record without a `children` field takes the same
  branch at `graphUtils.js:38` as one with an empty list. It is written
  with `children == []`.
- **dagre's result** is a function parameter `centre: string -> Position`.
  It stands for `dagreGraph.node(id)` after `dagre.layout`.
- **Form callbacks.** A form's callbacks are returned as the ordered list of
  calls `handleSubmit` makes (`Effect`).

Behaviour worth noting:

- A record with id 0 is falsy as a parent, so its children get no edge.
- An empty input gives two empty arrays; there is no separate error signal.
- Duplicate ids are not detected.
- Layout is dagre's; the code computes no positions of its own beyond
  moving dagre's centre to the box's corner.

## Model

| member | source | states |
|---|---|---|
| `Ids.IntToString` | src/utils/graphUtils.js:12 | definition of `id.toString()` for an integer id: a minus sign before the decimal digits of the magnitude when negative. Its properties are the lemmas below |
| `Ids.NatToStringDigits` | src/utils/graphUtils.js:12 | the decimal rendering of a natural number is a non-empty string of digits |
| `Ids.IntToStringShape` | src/utils/graphUtils.js:12 | `id.toString()` is an optional minus sign followed by digits, and starts with '-' exactly for negative ids |
| `Ids.NatRoundTrip` | src/utils/graphUtils.js:12 | reading back the digits of a natural number's rendering gives the number |
| `Ids.IntRoundTrip` | src/utils/graphUtils.js:12 | parsing `id.toString()` gives back the id |
| `Ids.IntToStringInjective` | src/utils/graphUtils.js:12 | two ids have the same string form if and only if they are equal |
| `Ids.DashSeparatedInjective` | src/utils/graphUtils.js:30 | an id's rendering followed by '-' determines both the id and the rest of the string |
| `GraphUtils.Truthy` | src/utils/graphUtils.js:28 | definition of the test `if (parentId)`: `null` and 0 are falsy, every other id is truthy |
| `GraphUtils.NodeFor` | src/utils/graphUtils.js:11-26 | definition of the node literal: id `toString(item.id)`, type "customNode", `data.id` the record id, label its name, `parent_id` the parent id passed in, the three status fields and the three callbacks, position (0, 0) |
| `GraphUtils.EdgeId` | src/utils/graphUtils.js:30 | definition of the template `e${parentId}-${item.id}` |
| `GraphUtils.EdgeFor` | src/utils/graphUtils.js:29-35 | definition of the edge literal: that id, source and target the two ids' string forms, animated, type "step" |
| `GraphUtils.LinkFrom` | src/utils/graphUtils.js:28-36 | definition of the conditional push: one edge from the parent when the parent id is truthy, none otherwise |
| `GraphUtils.TreeNodes` | src/utils/graphUtils.js:10-42 | reference definition of the nodes `traverse(item, parentId)` pushes: the record's node, then each child's subtree below the record's id, in order |
| `GraphUtils.ForestNodes` | src/utils/graphUtils.js:38-47 | reference definition of the nodes pushed by traversing a list of siblings in order |
| `GraphUtils.TreeEdges` | src/utils/graphUtils.js:28-42 | reference definition of the edges `traverse(item, parentId)` pushes: the record's own edge if any, then its children's |
| `GraphUtils.ForestEdges` | src/utils/graphUtils.js:38-47 | reference definition of the edges pushed by traversing a list of siblings in order |
| `GraphUtils.EdgeIdInjective` | src/utils/graphUtils.js:30 | `e${parent}-${child}` ids are equal if and only if both parent and child ids are equal |
| `GraphUtils.Traverse` | src/utils/graphUtils.js:10-43 | `traverse(item, parentId)` appends exactly the pre-order nodes and edges of the item's subtree to the arrays built so far |
| `GraphUtils.ProcessData` | src/utils/graphUtils.js:6-50 | the result is the pre-order nodes and edges of the forest. An empty input gives empty nodes and edges. There is one node per record. The edges are those derived from the nodes in node order. Every edge runs from an earlier emitted node's id to a later one's |
| `GraphUtils.LeafContribution` | src/utils/graphUtils.js:38-42 | a record with no children contributes exactly its own node, and one edge exactly when its parent id is truthy |
| `GraphUtils.ExtendByOne` | src/utils/graphUtils.js:39-41 | one `forEach` step preserves "the arrays hold the start plus the pre-order of the siblings done so far" |
| `GraphUtils.TreeNodeCount` | src/utils/graphUtils.js:11 | a subtree's traversal pushes as many nodes as the subtree has records |
| `GraphUtils.ForestNodeCount` | src/utils/graphUtils.js:45-47 | the node count equals the total number of records in the forest |
| `GraphUtils.ForestNodesAppend` | src/utils/graphUtils.js:45-47 | traversing two lists of siblings one after the other yields the concatenation of their nodes |
| `GraphUtils.SubtreeBlock` | src/utils/graphUtils.js:10-12 | pre-order placement: the i-th record's subtree is one contiguous block of nodes, starting with the record's own node, after the blocks of the records before it. So roots follow input order, a parent's node precedes its children's, and children follow their given order |
| `GraphUtils.TreeNodesShaped` | src/utils/graphUtils.js:11-25 | every node of a subtree has id `toString(data.id)`, type "customNode", position (0, 0) and the three given callbacks |
| `GraphUtils.ForestNodesShaped` | src/utils/graphUtils.js:11-25 | the same for every node of processData's result |
| `GraphUtils.EdgesOfAppend` | src/utils/graphUtils.js:28-36 | edges derived from concatenated node lists are the concatenation of the derived edges |
| `GraphUtils.TreeEdgesFollowNodes` | src/utils/graphUtils.js:28-41 | a subtree's edges are exactly those derived from its nodes, in node order |
| `GraphUtils.ForestEdgesFollowNodes` | src/utils/graphUtils.js:28-41 | an edge is emitted for a node if and only if its parent id is truthy. Its id is `e{parent}-{child}`, its source the parent's string and its target the child's. Edges appear in the order of their target nodes |
| `GraphUtils.EdgeOwner` | src/utils/graphUtils.js:28-35 | each derived edge belongs to a node with a truthy parent id and runs from that parent id to the node's id |
| `GraphUtils.ParentsPrecedeAppend` | src/utils/graphUtils.js:45-47 | "every node's parent was emitted earlier" survives concatenating sibling subtrees |
| `GraphUtils.TreeParentsPrecede` | src/utils/graphUtils.js:10-17 | in a subtree, every node's parent id is the subtree's parent id or the id of an earlier node |
| `GraphUtils.ForestParentsPrecede` | src/utils/graphUtils.js:38-47 | in the nodes of sibling subtrees traversed below a parent id, each node's parent_id is that parent id or the id of an earlier node. So at the top level, where roots get `parent_id` null, every non-null parent_id names an earlier node |
| `GraphUtils.EdgeEndpointsAreEarlierNodes` | src/utils/graphUtils.js:28-47 | every edge's source and target are ids of nodes emitted in the same call, the source's node before the target's |
| `GraphUtils.TreeEdgeCount` | src/utils/graphUtils.js:28-42 | with no zero ids, a subtree below a truthy parent has one edge per record, and one fewer below `null` |
| `GraphUtils.ForestEdgeCount` | src/utils/graphUtils.js:28-47 | with no zero ids, the edge count is the number of non-root records |
| `GraphUtils.ZeroIdParentHasNoEdges` | src/utils/graphUtils.js:28 | a child of a record with id 0 gets a node with parent_id 0 but no edge |
| `GraphUtils.OneRootTwoChildren` | src/utils/graphUtils.js:6-50 | department 1 with children 2 and 3 gives three nodes in pre-order and the edges "e1-2" and "e1-3" |
| `GraphUtils.DistinctTargets` | src/utils/graphUtils.js:32 | nodes with distinct record ids yield edges with distinct targets |
| `GraphUtils.ForestNodeIds` | src/utils/graphUtils.js:10-47 | the `data.id`s of the emitted nodes, in order, are exactly the input forest's record ids in pre-order |
| `GraphUtils.ForestNodeRecords` | src/utils/graphUtils.js:14-20 | the k-th emitted node's `data` carries the id, name (as label) and the three status fields of the k-th record of the input forest in pre-order, copied unchanged |
| `GraphUtils.UniqueIdsGiveUniqueKeys` | src/utils/graphUtils.js:12-32 | if the input forest's record ids (in pre-order) are pairwise distinct, so are the node ids and the edge ids processData produces |
| `GraphUtils.TopLeft` | src/utils/graphUtils.js:67-70 | the top-left corner of a 150×100 box is its centre minus (75, 50), and the box's centre recovered from it is dagre's centre |
| `GraphUtils.GetLayoutedElements` | src/utils/graphUtils.js:65-74 | same nodes in the same order, each unchanged except its position, which is dagre's centre minus half the 150×100 box. The edges are returned unchanged |
| `StatusFlags.FlagsOf` | src/components/EditNodeModal.js:14-17 | the encoding of the checkboxes is in 0..7, has bit value 1 set iff active, 2 iff deleted, 4 iff approved, and decodes back to exactly the checkboxes |
| `StatusFlags.EncodeDecode` | src/components/EditNodeModal.js:14-17 | every value in 0..7 is the encoding of the checkboxes it decodes to |
| `StatusFlags.FlagsOfInjective` | src/components/EditNodeModal.js:14-17 | two sets of checkboxes have the same flags iff they are equal |
| `StatusFlags.EncodeFlags` | src/components/AddNodeModal.js:13-16 | `let flags = 0` followed by `|= 1`, `|= 2`, `|= 4` for the ticked boxes gives a value in 0..7 with bit value 1 set iff active, 2 iff deleted and 4 iff approved, whose bits decode back to the three checkboxes |
| `AddNodeModal.InitialForm` | src/components/AddNodeModal.js:5-8 | the form starts with an empty name and all boxes clear, which encodes flags 0 |
| `AddNodeModal.HandleSubmit` | src/components/AddNodeModal.js:10-20 | `onAddNode` is called exactly once, with only `name` and `flags`, then `onClose`. The flags are in 0..7 and decode to the checkboxes |
| `EditNodeModal.InitialForm` | src/components/EditNodeModal.js:5-9 | the form starts with the node's label as name, its three status flags as checkboxes and its parent_id |
| `EditNodeModal.Apply` | src/components/EditNodeModal.js:33-67 | definition of one `onChange` setter: typing replaces the name, each checkbox sets its own flag, and nothing else of the form changes |
| `EditNodeModal.ApplyAll` | src/components/EditNodeModal.js:27-71 | definition of a sequence of such edits, applied in order |
| `EditNodeModal.ParentIdReadOnly` | src/components/EditNodeModal.js:9 | no sequence of edits through the inputs changes the form's parent id |
| `EditNodeModal.PayloadOf` | src/components/EditNodeModal.js:14-19 | the submitted payload carries the node's id, the form's parent id and name, and flags in 0..7 that decode to the checkboxes |
| `EditNodeModal.HandleSubmit` | src/components/EditNodeModal.js:11-21 | `onEditNode` is called exactly once with that payload, then `onClose` |
| `EditNodeModal.SubmittedKeysUnchanged` | src/components/EditNodeModal.js:39-44 | whatever the user changes, the submitted id and parent_id are the node's own |
| `EditNodeModal.UntouchedEditResubmitsRecord` | src/components/EditNodeModal.js:5-19 | saving the form untouched on a node built from a record submits the record's id, parent id and name, and flags that decode to its status |

## Left out

- `dagre.layout`, the dagre graph object and the `setGraph`/`setNode`/`setEdge` calls (`graphUtils.js:53-63`) are left out. This is third-party code that is not part of this model. Its result enters only as the `centre` function.
- GetLayoutedElements: does not model that `map` assigns `node.position` in place. The model returns new node values. It does not capture that the caller's node objects are changed too.
- Positions are real numbers. JavaScript's floating-point rounding of `x - 75` and `y - 50` is not modelled.
- Ids.IntToString: gives the exact decimal digits of every integer, which is what JavaScript's `Number#toString` prints only for integers of magnitude up to 2^53. Ids beyond ±2^53 are not modelled: most of them cannot be held by a JavaScript number, and the rest are printed with rounded digits padded by zeros (2^60 prints as "1152921504606847000"), so there the model's node and edge ids differ from the program's and injectivity is not promised for them.
- Ids are integers. Non-integer ids, and `NaN` (also falsy) are not modelled. The status fields are booleans. Other JavaScript values are not modelled.
- The module-level `dagreGraph` shared across reloads (`src/App.js:20-21`) is not modelled. It is library state.
- `src/App.js` is not part of this model: REST calls, toasts, React state, the reload counter, search URLs and the empty-data early return are I/O and UI glue.
- `src/components/Login.js`, `src/components/Toolbar.js` and `src/components/CustomNode.js` are presentation and network glue, and are not part of this model.
- In the two forms, JSX rendering, `e.preventDefault()` and the modal's opening and closing are not modelled. The `onChange` handlers appear only as the `EditNodeModal.Input` edits used to show that the parent id is read-only.
- Duplicate-id detection, structural-error reporting and an empty-input error signal are not modelled, because the code does none of them. `UniqueIdsGiveUniqueKeys` states what holds when the input's ids are distinct.
