/** The hierarchy-to-graph flattener `processData` and the position
    post-processing of `getLayoutedElements` (src/utils/graphUtils.js).

    `processData` walks a forest of department records depth-first in
    pre-order, pushing one node per record onto a local `nodes` array and one
    edge per record whose parent id is truthy onto a local `edges` array. The
    recursive `traverse` closure is modelled by the method Traverse, which
    threads those two arrays through as in/out sequences; the pure functions
    TreeNodes/ForestNodes and TreeEdges/ForestEdges give the pre-order result
    that Traverse and ProcessData are proved to build. */
module GraphUtils {
  import opened Ids

  datatype Option<T> = None | Some(value: T)

  /** Every node is registered with dagre as a box of this size. */
  const NodeWidth: real := 150.0
  const NodeHeight: real := 100.0

  /** A department as the backend sends it. A record without a `children`
      field behaves exactly like one with an empty list, and is written so. */
  datatype Record = Record(
    id: int,
    name: string,
    isActive: bool,
    isDeleted: bool,
    isApproved: bool,
    children: seq<Record>)

  /** The three callbacks the caller hands to `processData`; they are only
      attached to nodes, never inspected or called. */
  datatype Handlers<H> = Handlers(onEdit: H, onDelete: H, onAddChild: H)

  datatype Position = Position(x: real, y: real)

  /** A node's `data` payload (`labelText` is the `label` field): `parentId` is the raw id of the parent record,
      or None (JavaScript `null`) for a root. */
  datatype NodeData<H> = NodeData(
    id: int,
    labelText: string,
    parentId: Option<int>,
    isActive: bool,
    isDeleted: bool,
    isApproved: bool,
    onEdit: H,
    onDelete: H,
    onAddChild: H)

  /** A node of the diagram; `kind` is the node's `type` field. */
  datatype FlowNode<H> = FlowNode(id: string, kind: string, data: NodeData<H>, position: Position)

  /** An edge of the diagram; `kind` is the edge's `type` field. */
  datatype FlowEdge = FlowEdge(id: string, source: string, target: string, animated: bool, kind: string)

  /** JavaScript truthiness of `parentId`: `null` and the id 0 are falsy. */
  predicate Truthy(parentId: Option<int>) {
    parentId.Some? && parentId.value != 0
  }

  /** The node pushed for `item` when it is visited below `parentId`. */
  function NodeFor<H>(item: Record, parentId: Option<int>, h: Handlers<H>): FlowNode<H> {
    FlowNode(
      IntToString(item.id),
      "customNode",
      NodeData(item.id, item.name, parentId, item.isActive, item.isDeleted, item.isApproved,
               h.onEdit, h.onDelete, h.onAddChild),
      Position(0.0, 0.0))
  }

  /** The template `e${parentId}-${item.id}`. */
  function EdgeId(parent: int, child: int): string {
    "e" + IntToString(parent) + "-" + IntToString(child)
  }

  function EdgeFor(parent: int, child: int): FlowEdge {
    FlowEdge(EdgeId(parent, child), IntToString(parent), IntToString(child), true, "step")
  }

  /** The edge (if any) pushed for `item` when it is visited below `parentId`. */
  function LinkFrom(item: Record, parentId: Option<int>): seq<FlowEdge> {
    if Truthy(parentId) then [EdgeFor(parentId.value, item.id)] else []
  }

  /** Distinct (parent, child) pairs give distinct edge ids: the id string can
      be split back into the two integers. */
  lemma EdgeIdInjective(p: int, c: int, p': int, c': int)
    ensures EdgeId(p, c) == EdgeId(p', c') <==> p == p' && c == c'
  {
    if EdgeId(p, c) == EdgeId(p', c') {
      var s := EdgeId(p, c);
      assert IntToString(p) + "-" + IntToString(c) == s[1..];
      assert IntToString(p') + "-" + IntToString(c') == s[1..];
      DashSeparatedInjective(p, p', IntToString(c), IntToString(c'));
      IntToStringInjective(c, c');
    }
  }

  // ---------------------------------------------------------------------------
  // The pre-order result, as functions

  /** Number of records in a tree. */
  function TreeSize(item: Record): nat
    decreases item
  {
    1 + ForestSize(item.children)
  }

  /** Number of records in a forest. */
  function ForestSize(items: seq<Record>): nat
    decreases items
  {
    if items == [] then 0 else ForestSize(items[..|items| - 1]) + TreeSize(items[|items| - 1])
  }

  /** The nodes `traverse(item, parentId)` pushes: the record's own node, then
      its children's subtrees in their given order. */
  function TreeNodes<H>(item: Record, parentId: Option<int>, h: Handlers<H>): seq<FlowNode<H>>
    decreases item
  {
    [NodeFor(item, parentId, h)] + ForestNodes(item.children, Some(item.id), h)
  }

  /** The nodes pushed by traversing each of `items` in order below `parentId`. */
  function ForestNodes<H>(items: seq<Record>, parentId: Option<int>, h: Handlers<H>): seq<FlowNode<H>>
    decreases items
  {
    if items == [] then []
    else ForestNodes(items[..|items| - 1], parentId, h) + TreeNodes(items[|items| - 1], parentId, h)
  }

  /** The edges `traverse(item, parentId)` pushes. */
  function TreeEdges(item: Record, parentId: Option<int>): seq<FlowEdge>
    decreases item
  {
    LinkFrom(item, parentId) + ForestEdges(item.children, Some(item.id))
  }

  function ForestEdges(items: seq<Record>, parentId: Option<int>): seq<FlowEdge>
    decreases items
  {
    if items == [] then []
    else ForestEdges(items[..|items| - 1], parentId) + TreeEdges(items[|items| - 1], parentId)
  }

  // ---------------------------------------------------------------------------
  // processData

  /** The recursive `traverse` closure: pushes the record's node, its edge when
      the parent id is truthy, then traverses each child with this record's id
      as parent. */
  method Traverse<H>(item: Record, parentId: Option<int>, h: Handlers<H>,
                     nodes: seq<FlowNode<H>>, edges: seq<FlowEdge>)
    returns (nodesOut: seq<FlowNode<H>>, edgesOut: seq<FlowEdge>)
    ensures nodesOut == nodes + TreeNodes(item, parentId, h)
    ensures edgesOut == edges + TreeEdges(item, parentId)
    decreases item
  {
    nodesOut := nodes + [NodeFor(item, parentId, h)];
    edgesOut := edges;
    if Truthy(parentId) {
      edgesOut := edgesOut + [EdgeFor(parentId.value, item.id)];
    }
    ghost var nodesBefore, edgesBefore := nodesOut, edgesOut;
    assert edgesBefore == edges + LinkFrom(item, parentId);
    if |item.children| > 0 {
      var i := 0;
      while i < |item.children|
        invariant 0 <= i <= |item.children|
        invariant nodesOut == nodesBefore + ForestNodes(item.children[..i], Some(item.id), h)
        invariant edgesOut == edgesBefore + ForestEdges(item.children[..i], Some(item.id))
      {
        ExtendByOne(nodesBefore, edgesBefore, item.children, i, Some(item.id), h);
        nodesOut, edgesOut := Traverse(item.children[i], Some(item.id), h, nodesOut, edgesOut);
        i := i + 1;
      }
      assert item.children[..i] == item.children;
    }
    Assoc(nodes, [NodeFor(item, parentId, h)], ForestNodes(item.children, Some(item.id), h));
    Assoc(edges, LinkFrom(item, parentId), ForestEdges(item.children, Some(item.id)));
  }

  /** The loop step of `forEach`: traversing the i-th record after the first i. */
  lemma ExtendByOne<H>(nodes: seq<FlowNode<H>>, edges: seq<FlowEdge>, items: seq<Record>, i: nat,
                       parentId: Option<int>, h: Handlers<H>)
    requires i < |items|
    ensures nodes + ForestNodes(items[..i], parentId, h) + TreeNodes(items[i], parentId, h)
            == nodes + ForestNodes(items[..i + 1], parentId, h)
    ensures edges + ForestEdges(items[..i], parentId) + TreeEdges(items[i], parentId)
            == edges + ForestEdges(items[..i + 1], parentId)
  {
    assert items[..i + 1] == items[..i] + [items[i]];
    ForestStep(items[..i], items[i], parentId, h);
    Assoc(nodes, ForestNodes(items[..i], parentId, h), TreeNodes(items[i], parentId, h));
    Assoc(edges, ForestEdges(items[..i], parentId), TreeEdges(items[i], parentId));
  }

  lemma Assoc<T>(a: seq<T>, b: seq<T>, c: seq<T>)
    ensures a + b + c == a + (b + c)
  {
  }

  /** A record with no children contributes exactly its own node, and one
      edge exactly when its parent id is truthy. */
  lemma LeafContribution<H>(item: Record, parentId: Option<int>, h: Handlers<H>)
    requires item.children == []
    ensures TreeNodes(item, parentId, h) == [NodeFor(item, parentId, h)]
    ensures |TreeEdges(item, parentId)| == if Truthy(parentId) then 1 else 0
  {
  }

  /** Traversing one more record appends its subtree's nodes and edges. */
  lemma ForestStep<H>(done: seq<Record>, next: Record, parentId: Option<int>, h: Handlers<H>)
    ensures ForestNodes(done + [next], parentId, h) == ForestNodes(done, parentId, h) + TreeNodes(next, parentId, h)
    ensures ForestEdges(done + [next], parentId) == ForestEdges(done, parentId) + TreeEdges(next, parentId)
  {
    assert (done + [next])[..|done|] == done;
  }

  /** `processData(data, handleEdit, handleDelete, handleAddChild)`. */
  method ProcessData<H>(data: seq<Record>, handleEdit: H, handleDelete: H, handleAddChild: H)
    returns (nodes: seq<FlowNode<H>>, edges: seq<FlowEdge>)
    ensures nodes == ForestNodes(data, None, Handlers(handleEdit, handleDelete, handleAddChild))
    ensures edges == ForestEdges(data, None)
    ensures data == [] ==> nodes == [] && edges == []
    ensures |nodes| == ForestSize(data)
    ensures edges == EdgesOf(nodes)
    ensures forall m :: 0 <= m < |edges| ==>
              exists j, k :: 0 <= j < k < |nodes| &&
                nodes[j].id == edges[m].source && nodes[k].id == edges[m].target
  {
    var h := Handlers(handleEdit, handleDelete, handleAddChild);
    nodes, edges := [], [];
    var i := 0;
    while i < |data|
      invariant 0 <= i <= |data|
      invariant nodes == ForestNodes(data[..i], None, h)
      invariant edges == ForestEdges(data[..i], None)
    {
      assert data[..i + 1] == data[..i] + [data[i]];
      ForestStep(data[..i], data[i], None, h);
      nodes, edges := Traverse(data[i], None, h, nodes, edges);
      i := i + 1;
    }
    assert data[..i] == data;
    ForestNodeCount(data, None, h);
    ForestEdgesFollowNodes(data, None, h);
    EdgeEndpointsAreEarlierNodes(data, h);
  }

  // ---------------------------------------------------------------------------
  // Counting and placement

  lemma {:induction false} TreeNodeCount<H>(item: Record, parentId: Option<int>, h: Handlers<H>)
    ensures |TreeNodes(item, parentId, h)| == TreeSize(item)
    decreases item
  {
    ForestNodeCount(item.children, Some(item.id), h);
  }

  /** One node per record of the forest. */
  lemma {:induction false} ForestNodeCount<H>(items: seq<Record>, parentId: Option<int>, h: Handlers<H>)
    ensures |ForestNodes(items, parentId, h)| == ForestSize(items)
    decreases items
  {
    if items != [] {
      ForestNodeCount(items[..|items| - 1], parentId, h);
      TreeNodeCount(items[|items| - 1], parentId, h);
    }
  }

  lemma {:induction false} ForestNodesAppend<H>(a: seq<Record>, b: seq<Record>, parentId: Option<int>, h: Handlers<H>)
    ensures ForestNodes(a + b, parentId, h) == ForestNodes(a, parentId, h) + ForestNodes(b, parentId, h)
    decreases |b|
  {
    if b == [] {
      assert a + b == a;
    } else {
      var n := |b| - 1;
      assert b == b[..n] + [b[n]];
      assert a + b == (a + b[..n]) + [b[n]];
      ForestStep(a + b[..n], b[n], parentId, h);
      ForestStep(b[..n], b[n], parentId, h);
      ForestNodesAppend(a, b[..n], parentId, h);
    }
  }

  /** Pre-order placement: the subtree of the i-th record of a forest occupies
      one contiguous block of the nodes, starting with the record's own node,
      after the blocks of the records before it. With TreeNodes this places
      every record: roots follow input order, a record's node precedes its
      children's, and children follow their given order. */
  lemma SubtreeBlock<H>(items: seq<Record>, parentId: Option<int>, h: Handlers<H>, i: nat)
    requires i < |items|
    ensures ForestSize(items[..i]) < ForestSize(items[..i + 1]) <= |ForestNodes(items, parentId, h)|
    ensures ForestNodes(items, parentId, h)[ForestSize(items[..i])..ForestSize(items[..i + 1])]
            == TreeNodes(items[i], parentId, h)
    ensures ForestNodes(items, parentId, h)[ForestSize(items[..i])] == NodeFor(items[i], parentId, h)
  {
    var ns := ForestNodes(items, parentId, h);
    var before := ForestNodes(items[..i], parentId, h);
    var block := TreeNodes(items[i], parentId, h);
    var after := ForestNodes(items[i + 1..], parentId, h);
    assert items[..i + 1][..i] == items[..i];
    assert items == items[..i + 1] + items[i + 1..];
    ForestNodesAppend(items[..i + 1], items[i + 1..], parentId, h);
    assert ns == before + block + after;
    ForestNodeCount(items[..i], parentId, h);
    ForestNodeCount(items[..i + 1], parentId, h);
    TreeNodeCount(items[i], parentId, h);
    assert ns[|before|..|before| + |block|] == block;
  }

  // ---------------------------------------------------------------------------
  // Node contents

  /** What every node carries regardless of its record: its id is the string
      form of its record id, its type is "customNode", its position (0, 0),
      and the callbacks are the ones handed to processData. */
  ghost predicate Shaped<H>(n: FlowNode<H>, h: Handlers<H>) {
    && n.id == IntToString(n.data.id)
    && n.kind == "customNode"
    && n.position == Position(0.0, 0.0)
    && n.data.onEdit == h.onEdit && n.data.onDelete == h.onDelete && n.data.onAddChild == h.onAddChild
  }

  lemma {:induction false} TreeNodesShaped<H>(item: Record, parentId: Option<int>, h: Handlers<H>)
    ensures forall k :: 0 <= k < |TreeNodes(item, parentId, h)| ==> Shaped(TreeNodes(item, parentId, h)[k], h)
    decreases item
  {
    ForestNodesShaped(item.children, Some(item.id), h);
  }

  lemma {:induction false} ForestNodesShaped<H>(items: seq<Record>, parentId: Option<int>, h: Handlers<H>)
    ensures forall k :: 0 <= k < |ForestNodes(items, parentId, h)| ==> Shaped(ForestNodes(items, parentId, h)[k], h)
    decreases items
  {
    if items != [] {
      ForestNodesShaped(items[..|items| - 1], parentId, h);
      TreeNodesShaped(items[|items| - 1], parentId, h);
    }
  }

  // ---------------------------------------------------------------------------
  // Edges, in terms of the nodes

  /** The edge a node gets: one from its parent exactly when its parent id is truthy. */
  function EdgeOfNode<H>(n: FlowNode<H>): seq<FlowEdge> {
    if Truthy(n.data.parentId) then [EdgeFor(n.data.parentId.value, n.data.id)] else []
  }

  /** The edges derived from a node list, in node order. */
  function EdgesOf<H>(ns: seq<FlowNode<H>>): seq<FlowEdge> {
    if ns == [] then [] else EdgesOf(ns[..|ns| - 1]) + EdgeOfNode(ns[|ns| - 1])
  }

  lemma {:induction false} EdgesOfAppend<H>(a: seq<FlowNode<H>>, b: seq<FlowNode<H>>)
    ensures EdgesOf(a + b) == EdgesOf(a) + EdgesOf(b)
    decreases |b|
  {
    if b == [] {
      assert a + b == a;
    } else {
      var n := |b| - 1;
      assert (a + b)[..|a + b| - 1] == a + b[..n];
      EdgesOfAppend(a, b[..n]);
    }
  }

  lemma {:induction false} TreeEdgesFollowNodes<H>(item: Record, parentId: Option<int>, h: Handlers<H>)
    ensures TreeEdges(item, parentId) == EdgesOf(TreeNodes(item, parentId, h))
    decreases item
  {
    var node := NodeFor(item, parentId, h);
    var rest := ForestNodes(item.children, Some(item.id), h);
    EdgesOfAppend([node], rest);
    assert [node][..0] == [];
    ForestEdgesFollowNodes(item.children, Some(item.id), h);
  }

  /** The edges are exactly those derived from the emitted nodes in node order:
      one per node whose parent id is truthy (so none for the children of a
      record with id 0), in the order of their target nodes. */
  lemma {:induction false} ForestEdgesFollowNodes<H>(items: seq<Record>, parentId: Option<int>, h: Handlers<H>)
    ensures ForestEdges(items, parentId) == EdgesOf(ForestNodes(items, parentId, h))
    decreases items
  {
    if items != [] {
      var n := |items| - 1;
      ForestEdgesFollowNodes(items[..n], parentId, h);
      TreeEdgesFollowNodes(items[n], parentId, h);
      EdgesOfAppend(ForestNodes(items[..n], parentId, h), TreeNodes(items[n], parentId, h));
    }
  }

  /** Every derived edge belongs to a node with a truthy parent id and runs
      from that parent id to the node's own id; k is that node. */
  lemma {:induction false} EdgeOwner<H>(ns: seq<FlowNode<H>>, m: nat) returns (k: nat)
    requires m < |EdgesOf(ns)|
    ensures k < |ns| && Truthy(ns[k].data.parentId)
    ensures EdgesOf(ns)[m] == EdgeFor(ns[k].data.parentId.value, ns[k].data.id)
    decreases |ns|
  {
    assert ns != [];
    var n := |ns| - 1;
    var prefix := ns[..n];
    assert EdgesOf(ns) == EdgesOf(prefix) + EdgeOfNode(ns[n]);
    if m < |EdgesOf(prefix)| {
      k := EdgeOwner(prefix, m);
      assert prefix[k] == ns[k];
    } else {
      k := n;
    }
  }

  // ---------------------------------------------------------------------------
  // Parents come first

  /** Node k either sits directly below `parentId`, or an earlier node carries
      the record id that is node k's parent id. */
  ghost predicate ParentSeenBefore<H>(ns: seq<FlowNode<H>>, k: int, parentId: Option<int>)
    requires 0 <= k < |ns|
  {
    || ns[k].data.parentId == parentId
    || (ns[k].data.parentId.Some? &&
        exists j :: 0 <= j < k && ns[j].data.id == ns[k].data.parentId.value)
  }

  ghost predicate ParentsPrecede<H>(ns: seq<FlowNode<H>>, parentId: Option<int>) {
    forall k :: 0 <= k < |ns| ==> ParentSeenBefore(ns, k, parentId)
  }

  lemma ParentsPrecedeAppend<H>(a: seq<FlowNode<H>>, b: seq<FlowNode<H>>, parentId: Option<int>)
    requires ParentsPrecede(a, parentId) && ParentsPrecede(b, parentId)
    ensures ParentsPrecede(a + b, parentId)
  {
    var ab := a + b;
    forall k | 0 <= k < |ab| ensures ParentSeenBefore(ab, k, parentId) {
      if k < |a| {
        assert ab[k] == a[k];
        assert ParentSeenBefore(a, k, parentId);
        if ab[k].data.parentId != parentId {
          var j :| 0 <= j < k && a[j].data.id == a[k].data.parentId.value;
          assert ab[j] == a[j];
        }
      } else {
        var k' := k - |a|;
        assert ab[k] == b[k'];
        assert ParentSeenBefore(b, k', parentId);
        if ab[k].data.parentId != parentId {
          var j :| 0 <= j < k' && b[j].data.id == b[k'].data.parentId.value;
          assert ab[|a| + j] == b[j];
        }
      }
    }
  }

  lemma {:induction false} TreeParentsPrecede<H>(item: Record, parentId: Option<int>, h: Handlers<H>)
    ensures ParentsPrecede(TreeNodes(item, parentId, h), parentId)
    decreases item
  {
    var ns := TreeNodes(item, parentId, h);
    var rest := ForestNodes(item.children, Some(item.id), h);
    ForestParentsPrecede(item.children, Some(item.id), h);
    forall k | 0 <= k < |ns| ensures ParentSeenBefore(ns, k, parentId) {
      if k > 0 {
        assert ns[k] == rest[k - 1];
        assert ParentSeenBefore(rest, k - 1, Some(item.id));
        if ns[k].data.parentId == Some(item.id) {
          assert ns[0].data.id == item.id;
        } else {
          var j :| 0 <= j < k - 1 && rest[j].data.id == rest[k - 1].data.parentId.value;
          assert ns[j + 1] == rest[j];
        }
      }
    }
  }

  lemma {:induction false} ForestParentsPrecede<H>(items: seq<Record>, parentId: Option<int>, h: Handlers<H>)
    ensures ParentsPrecede(ForestNodes(items, parentId, h), parentId)
    decreases items
  {
    if items != [] {
      var n := |items| - 1;
      ForestParentsPrecede(items[..n], parentId, h);
      TreeParentsPrecede(items[n], parentId, h);
      ParentsPrecedeAppend(ForestNodes(items[..n], parentId, h), TreeNodes(items[n], parentId, h), parentId);
    }
  }

  /** Every edge of processData's result runs from a node to a later node of
      the same result: its source is an emitted node's id, emitted before the
      node whose id is its target. */
  lemma EdgeEndpointsAreEarlierNodes<H>(data: seq<Record>, h: Handlers<H>)
    ensures var nodes := ForestNodes(data, None, h);
            var edges := ForestEdges(data, None);
            forall m :: 0 <= m < |edges| ==>
              exists j, k :: 0 <= j < k < |nodes| &&
                nodes[j].id == edges[m].source && nodes[k].id == edges[m].target
  {
    var nodes := ForestNodes(data, None, h);
    var edges := ForestEdges(data, None);
    ForestEdgesFollowNodes(data, None, h);
    ForestParentsPrecede(data, None, h);
    ForestNodesShaped(data, None, h);
    forall m | 0 <= m < |edges|
      ensures exists j, k :: 0 <= j < k < |nodes| &&
                nodes[j].id == edges[m].source && nodes[k].id == edges[m].target
    {
      var k := EdgeOwner(nodes, m);
      assert ParentSeenBefore(nodes, k, None);
      var j :| 0 <= j < k && nodes[j].data.id == nodes[k].data.parentId.value;
      assert Shaped(nodes[j], h) && Shaped(nodes[k], h);
    }
  }

  // ---------------------------------------------------------------------------
  // Edge count

  /** No record anywhere in the forest has id 0. */
  ghost predicate NoZeroIds(items: seq<Record>)
    decreases items
  {
    forall i :: 0 <= i < |items| ==> items[i].id != 0 && NoZeroIds(items[i].children)
  }

  lemma {:induction false} TreeEdgeCount(item: Record, parentId: Option<int>)
    requires item.id != 0 && NoZeroIds(item.children)
    ensures |TreeEdges(item, parentId)| == TreeSize(item) - (if Truthy(parentId) then 0 else 1)
    decreases item
  {
    ForestEdgeCount(item.children, Some(item.id));
  }

  /** When no record has id 0, a forest traversed below a truthy parent gets
      one edge per record, and at the top level (parent `null`) one edge per
      non-root record. */
  lemma {:induction false} ForestEdgeCount(items: seq<Record>, parentId: Option<int>)
    requires NoZeroIds(items)
    ensures |ForestEdges(items, parentId)| == ForestSize(items) - (if Truthy(parentId) then 0 else |items|)
    decreases items
  {
    if items != [] {
      var n := |items| - 1;
      assert NoZeroIds(items[..n]) by {
        forall i | 0 <= i < n ensures items[..n][i].id != 0 && NoZeroIds(items[..n][i].children) {
          assert items[..n][i] == items[i];
        }
      }
      ForestEdgeCount(items[..n], parentId);
      TreeEdgeCount(items[n], parentId);
    }
  }

  /** A record with id 0 is falsy as a parent id: its child gets a node whose
      parent_id is 0, but no edge. */
  lemma ZeroIdParentHasNoEdges<H>(name: string, child: Record, h: Handlers<H>)
    requires child.children == []
    ensures var root := Record(0, name, true, false, false, [child]);
            ForestNodes([root], None, h) == [NodeFor(root, None, h), NodeFor(child, Some(0), h)] &&
            ForestEdges([root], None) == []
  {
    var root := Record(0, name, true, false, false, [child]);
    ForestStep([], root, None, h);
    ForestStep([], child, Some(0), h);
    assert [] + [root] == [root] && [] + [child] == [child];
  }

  /** Department 1 with children 2 and 3: three nodes in pre-order and the
      edges "e1-2" and "e1-3" from "1" to "2" and "3". */
  lemma OneRootTwoChildren<H>(h: Handlers<H>)
    ensures var c2 := Record(2, "B", true, false, false, []);
            var c3 := Record(3, "C", true, false, false, []);
            var root := Record(1, "A", true, false, true, [c2, c3]);
            && ForestNodes([root], None, h)
               == [NodeFor(root, None, h), NodeFor(c2, Some(1), h), NodeFor(c3, Some(1), h)]
            && ForestEdges([root], None)
               == [FlowEdge("e1-2", "1", "2", true, "step"), FlowEdge("e1-3", "1", "3", true, "step")]
  {
    var c2 := Record(2, "B", true, false, false, []);
    var c3 := Record(3, "C", true, false, false, []);
    var root := Record(1, "A", true, false, true, [c2, c3]);
    ForestStep([], root, None, h);
    ForestStep([], c2, Some(1), h);
    ForestStep([c2], c3, Some(1), h);
    assert [] + [root] == [root] && [] + [c2] == [c2] && [c2] + [c3] == [c2, c3];
    assert IntToString(1) == "1" && IntToString(2) == "2" && IntToString(3) == "3";
    assert EdgeId(1, 2) == "e1-2" && EdgeId(1, 3) == "e1-3";
    assert TreeEdges(c2, Some(1)) == [EdgeFor(1, 2)];
    assert TreeEdges(c3, Some(1)) == [EdgeFor(1, 3)];
    assert ForestEdges([c2, c3], Some(1)) == [EdgeFor(1, 2), EdgeFor(1, 3)];
  }

  // ---------------------------------------------------------------------------
  // Unique ids

  ghost predicate Distinct(ids: seq<int>) {
    forall i, j :: 0 <= i < j < |ids| ==> ids[i] != ids[j]
  }

  /** The ids of a tree's records, in pre-order. */
  ghost function TreeIds(item: Record): seq<int>
    decreases item
  {
    [item.id] + ForestIds(item.children)
  }

  /** The ids of a forest's records, in pre-order. */
  ghost function ForestIds(items: seq<Record>): seq<int>
    decreases items
  {
    if items == [] then [] else ForestIds(items[..|items| - 1]) + TreeIds(items[|items| - 1])
  }

  /** The record ids the nodes carry in `data.id`, in node order. */
  ghost function DataIds<H>(ns: seq<FlowNode<H>>): seq<int> {
    seq(|ns|, k requires 0 <= k < |ns| => ns[k].data.id)
  }

  lemma DataIdsAppend<H>(a: seq<FlowNode<H>>, b: seq<FlowNode<H>>)
    ensures DataIds(a + b) == DataIds(a) + DataIds(b)
  {
    assert forall k :: 0 <= k < |a + b| ==> DataIds(a + b)[k] == (DataIds(a) + DataIds(b))[k];
  }

  lemma {:induction false} TreeNodeIds<H>(item: Record, parentId: Option<int>, h: Handlers<H>)
    ensures DataIds(TreeNodes(item, parentId, h)) == TreeIds(item)
    decreases item
  {
    ForestNodeIds(item.children, Some(item.id), h);
    DataIdsAppend([NodeFor(item, parentId, h)], ForestNodes(item.children, Some(item.id), h));
  }

  /** The nodes carry the forest's record ids, one per record, in pre-order. */
  lemma {:induction false} ForestNodeIds<H>(items: seq<Record>, parentId: Option<int>, h: Handlers<H>)
    ensures DataIds(ForestNodes(items, parentId, h)) == ForestIds(items)
    decreases items
  {
    if items != [] {
      var n := |items| - 1;
      ForestNodeIds(items[..n], parentId, h);
      TreeNodeIds(items[n], parentId, h);
      DataIdsAppend(ForestNodes(items[..n], parentId, h), TreeNodes(items[n], parentId, h));
    }
  }

  // ---------------------------------------------------------------------------
  // Record contents

  /** The records of a tree, in pre-order. */
  ghost function TreeRecords(item: Record): seq<Record>
    decreases item
  {
    [item] + ForestRecords(item.children)
  }

  /** The records of a forest, in pre-order. */
  ghost function ForestRecords(items: seq<Record>): seq<Record>
    decreases items
  {
    if items == [] then [] else ForestRecords(items[..|items| - 1]) + TreeRecords(items[|items| - 1])
  }

  /** A node's `data` carries the record's id, name and three status fields. */
  ghost predicate Carries<H>(n: FlowNode<H>, r: Record) {
    && n.data.id == r.id
    && n.data.labelText == r.name
    && n.data.isActive == r.isActive
    && n.data.isDeleted == r.isDeleted
    && n.data.isApproved == r.isApproved
  }

  ghost predicate CarriesAll<H>(ns: seq<FlowNode<H>>, rs: seq<Record>) {
    |ns| == |rs| && forall k :: 0 <= k < |ns| ==> Carries(ns[k], rs[k])
  }

  lemma CarriesAllAppend<H>(a: seq<FlowNode<H>>, b: seq<FlowNode<H>>, ra: seq<Record>, rb: seq<Record>)
    requires CarriesAll(a, ra) && CarriesAll(b, rb)
    ensures CarriesAll(a + b, ra + rb)
  {
    forall k | 0 <= k < |a + b| ensures Carries((a + b)[k], (ra + rb)[k]) {
      if k < |a| {
        assert (a + b)[k] == a[k] && (ra + rb)[k] == ra[k];
      } else {
        assert (a + b)[k] == b[k - |a|] && (ra + rb)[k] == rb[k - |a|];
      }
    }
  }

  lemma {:induction false} TreeNodeRecords<H>(item: Record, parentId: Option<int>, h: Handlers<H>)
    ensures CarriesAll(TreeNodes(item, parentId, h), TreeRecords(item))
    decreases item
  {
    ForestNodeRecords(item.children, Some(item.id), h);
    CarriesAllAppend([NodeFor(item, parentId, h)], ForestNodes(item.children, Some(item.id), h),
                     [item], ForestRecords(item.children));
  }

  /** The k-th node carries the id, name and status fields of the k-th record
      in pre-order, copied unchanged. */
  lemma {:induction false} ForestNodeRecords<H>(items: seq<Record>, parentId: Option<int>, h: Handlers<H>)
    ensures CarriesAll(ForestNodes(items, parentId, h), ForestRecords(items))
    decreases items
  {
    if items != [] {
      var n := |items| - 1;
      ForestNodeRecords(items[..n], parentId, h);
      TreeNodeRecords(items[n], parentId, h);
      CarriesAllAppend(ForestNodes(items[..n], parentId, h), TreeNodes(items[n], parentId, h),
                       ForestRecords(items[..n]), TreeRecords(items[n]));
    }
  }

  /** Edge targets derived from nodes with pairwise distinct record ids are
      pairwise distinct. */
  lemma {:induction false} DistinctTargets<H>(ns: seq<FlowNode<H>>)
    requires Distinct(DataIds(ns))
    ensures forall i, j :: 0 <= i < j < |EdgesOf(ns)| ==> EdgesOf(ns)[i].target != EdgesOf(ns)[j].target
    decreases |ns|
  {
    if ns != [] {
      var n := |ns| - 1;
      var prefix := ns[..n];
      assert DataIds(prefix) == DataIds(ns)[..n];
      DistinctTargets(prefix);
      var es := EdgesOf(ns);
      var ps := EdgesOf(prefix);
      assert es == ps + EdgeOfNode(ns[n]);
      forall i, j | 0 <= i < j < |es| ensures es[i].target != es[j].target {
        if j >= |ps| {
          assert es[j] == EdgeFor(ns[n].data.parentId.value, ns[n].data.id);
          assert es[i] == ps[i];
          var k := EdgeOwner(prefix, i);
          assert prefix[k] == ns[k];
          assert DataIds(ns)[k] == ns[k].data.id && DataIds(ns)[n] == ns[n].data.id;
          IntToStringInjective(ns[k].data.id, ns[n].data.id);
        }
      }
    }
  }

  /** If the forest's record ids are pairwise distinct, so are the node ids
      and the edge ids processData produces. */
  lemma UniqueIdsGiveUniqueKeys<H>(data: seq<Record>, h: Handlers<H>)
    requires Distinct(ForestIds(data))
    ensures var nodes := ForestNodes(data, None, h);
            forall i, j :: 0 <= i < j < |nodes| ==> nodes[i].id != nodes[j].id
    ensures var edges := ForestEdges(data, None);
            forall i, j :: 0 <= i < j < |edges| ==> edges[i].id != edges[j].id
  {
    var nodes := ForestNodes(data, None, h);
    var edges := ForestEdges(data, None);
    ForestNodeIds(data, None, h);
    ForestNodesShaped(data, None, h);
    forall i, j | 0 <= i < j < |nodes| ensures nodes[i].id != nodes[j].id {
      assert Shaped(nodes[i], h) && Shaped(nodes[j], h);
      assert DataIds(nodes)[i] == nodes[i].data.id && DataIds(nodes)[j] == nodes[j].data.id;
      IntToStringInjective(nodes[i].data.id, nodes[j].data.id);
    }
    ForestEdgesFollowNodes(data, None, h);
    DistinctTargets(nodes);
    assert edges == EdgesOf(nodes);
    forall i, j | 0 <= i < j < |edges| ensures edges[i].id != edges[j].id {
      var ki := EdgeOwner(nodes, i);
      var kj := EdgeOwner(nodes, j);
      EdgeIdInjective(nodes[ki].data.parentId.value, nodes[ki].data.id,
                      nodes[kj].data.parentId.value, nodes[kj].data.id);
    }
  }

  // ---------------------------------------------------------------------------
  // getLayoutedElements: what happens after dagre.layout

  /** dagre reports each node's centre; the diagram wants the box's top-left corner. */
  function TopLeft(centre: Position): (corner: Position)
    ensures CentreOf(corner) == centre
  {
    Position(centre.x - NodeWidth / 2.0, centre.y - NodeHeight / 2.0)
  }

  /** The centre of the NodeWidth x NodeHeight box whose top-left corner is `corner`. */
  function CentreOf(corner: Position): Position {
    Position(corner.x + NodeWidth / 2.0, corner.y + NodeHeight / 2.0)
  }

  /** The post-processing of `getLayoutedElements`: `centre` is what
      `dagreGraph.node(id)` reports after `dagre.layout` on these nodes and
      edges. Each node keeps its place, id and data and gets as position the
      top-left corner of its box centred on dagre's point; the edges are
      returned as given. */
  method GetLayoutedElements<H>(nodes: seq<FlowNode<H>>, edges: seq<FlowEdge>, centre: string -> Position)
    returns (layoutedNodes: seq<FlowNode<H>>, layoutedEdges: seq<FlowEdge>)
    ensures |layoutedNodes| == |nodes|
    ensures forall k :: 0 <= k < |nodes| ==>
              layoutedNodes[k] == nodes[k].(position := TopLeft(centre(nodes[k].id)))
    ensures forall k :: 0 <= k < |nodes| ==>
              CentreOf(layoutedNodes[k].position) == centre(layoutedNodes[k].id)
    ensures layoutedEdges == edges
  {
    layoutedNodes := [];
    var i := 0;
    while i < |nodes|
      invariant 0 <= i <= |nodes|
      invariant |layoutedNodes| == i
      invariant forall k :: 0 <= k < i ==>
                  layoutedNodes[k] == nodes[k].(position := TopLeft(centre(nodes[k].id)))
    {
      var node := nodes[i];
      var withPosition := centre(node.id);
      var position := Position(withPosition.x - NodeWidth / 2.0, withPosition.y - NodeHeight / 2.0);
      layoutedNodes := layoutedNodes + [node.(position := position)];
      i := i + 1;
    }
    layoutedEdges := edges;
  }
}
