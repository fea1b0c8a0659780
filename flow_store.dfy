/**
 * The graph store of src/store/useStore.ts: the node, edge, component and
 * generated-file collections and the actions that replace them, with the
 * first-match upstream query and the node-list-to-file-map synthesis as
 * pure functions the actions are specified by.
 */
module FlowStore {
  import opened Wrappers
  import opened Text
  import opened Types

  // ---------------------------------------------------------------------
  // addNode
  // ---------------------------------------------------------------------

  /**
   * The node `addNode(kind, position)` creates when the two `Date.now()`
   * reads return `nodeNow` and `componentNow`. Its ids carry the times in
   * decimal after a fixed prefix, and its closure is bound to its own id.
   */
  function NewNode(kind: string, position: Position, nodeNow: nat, componentNow: nat): (r: Node)
    ensures r.kind == kind && r.position == position && r.data.component.kind == kind
    ensures r.data.labelText == "New " + kind
    ensures r.data.component.name == "New" + Capitalize(kind)
    ensures r.data.component.code == ""
    ensures r.data.codeChangeTarget == r.id
    ensures |r.id| > |kind| + 1 && r.id[..|kind| + 1] == kind + "-"
    ensures r.id[|kind| + 1..] == Decimal(nodeNow) && ParseDecimal(r.id[|kind| + 1..]) == nodeNow
    ensures |r.data.component.id| > 10 && r.data.component.id[..10] == "component-"
    ensures r.data.component.id[10..] == Decimal(componentNow)
    ensures ParseDecimal(r.data.component.id[10..]) == componentNow
  {
    var nodeId := kind + "-" + Decimal(nodeNow);
    var componentId := "component-" + Decimal(componentNow);
    DecimalRoundTrip(nodeNow);
    DecimalRoundTrip(componentNow);
    assert nodeId[|kind| + 1..] == Decimal(nodeNow);
    assert componentId[10..] == Decimal(componentNow);
    Node(nodeId, kind, position,
      NodeData("New " + kind, Component(componentId, kind, "New" + Capitalize(kind), ""), nodeId))
  }

  // ---------------------------------------------------------------------
  // onConnect
  // ---------------------------------------------------------------------

  /** The guard of `onConnect`: both ends present and non-empty (a JavaScript truthy string). */
  predicate Connectable(c: Connection) {
    c.source.Some? && c.source.value != "" && c.target.Some? && c.target.value != ""
  }

  // ---------------------------------------------------------------------
  // updateComponent
  // ---------------------------------------------------------------------

  function Or(x: Option<string>, default: string): string {
    if x.Some? then x.value else default
  }

  /** `{ ...component, ...patch }`: a field the patch gives is taken from it, any other is kept. */
  function ApplyPatch(c: Component, p: ComponentPatch): (r: Component)
    ensures r.id == (if p.id.Some? then p.id.value else c.id)
    ensures r.kind == (if p.kind.Some? then p.kind.value else c.kind)
    ensures r.name == (if p.name.Some? then p.name.value else c.name)
    ensures r.code == (if p.code.Some? then p.code.value else c.code)
  {
    Component(Or(p.id, c.id), Or(p.kind, c.kind), Or(p.name, c.name), Or(p.code, c.code))
  }

  /** A patch doing what `p` and then `q` do. */
  function Then(p: ComponentPatch, q: ComponentPatch): ComponentPatch {
    ComponentPatch(
      if q.id.Some? then q.id else p.id,
      if q.kind.Some? then q.kind else p.kind,
      if q.name.Some? then q.name else p.name,
      if q.code.Some? then q.code else p.code)
  }

  /** The node after `updateComponent(id, p)`: only a matching node's component changes. */
  function PatchNode(n: Node, id: string, p: ComponentPatch): Node {
    if n.id == id then n.(data := n.data.(component := ApplyPatch(n.data.component, p))) else n
  }

  /** `nodes.map(...)` in `updateComponent(id, p)`. */
  function PatchNodes(ns: seq<Node>, id: string, p: ComponentPatch): (r: seq<Node>)
    ensures |r| == |ns|
    ensures forall i :: 0 <= i < |ns| ==>
      && r[i].id == ns[i].id && r[i].kind == ns[i].kind && r[i].position == ns[i].position
      && r[i].data.labelText == ns[i].data.labelText
      && r[i].data.codeChangeTarget == ns[i].data.codeChangeTarget
      && r[i].data.component == (if ns[i].id == id then ApplyPatch(ns[i].data.component, p) else ns[i].data.component)
  {
    seq(|ns|, i requires 0 <= i < |ns| => PatchNode(ns[i], id, p))
  }

  /** An id no node has: the update changes nothing. */
  lemma PatchNodesUnknownId(ns: seq<Node>, id: string, p: ComponentPatch)
    requires forall i :: 0 <= i < |ns| ==> ns[i].id != id
    ensures PatchNodes(ns, id, p) == ns
  {
    assert forall i :: 0 <= i < |ns| ==> PatchNodes(ns, id, p)[i] == ns[i];
  }

  /** Two updates of the same node are one update whose later fields win. */
  lemma PatchNodesThen(ns: seq<Node>, id: string, p: ComponentPatch, q: ComponentPatch)
    ensures PatchNodes(PatchNodes(ns, id, p), id, q) == PatchNodes(ns, id, Then(p, q))
  {
    var l, r := PatchNodes(PatchNodes(ns, id, p), id, q), PatchNodes(ns, id, Then(p, q));
    forall i | 0 <= i < |ns| ensures l[i] == r[i] {
    }
  }

  /** Updates with no field in common can be applied in either order. */
  lemma PatchNodesCommute(ns: seq<Node>, id: string, id': string, p: ComponentPatch, q: ComponentPatch)
    requires (p.id.None? || q.id.None?) && (p.kind.None? || q.kind.None?)
    requires (p.name.None? || q.name.None?) && (p.code.None? || q.code.None?)
    ensures PatchNodes(PatchNodes(ns, id, p), id', q) == PatchNodes(PatchNodes(ns, id', q), id, p)
  {
    var l, r := PatchNodes(PatchNodes(ns, id, p), id', q), PatchNodes(PatchNodes(ns, id', q), id, p);
    forall i | 0 <= i < |ns| ensures l[i] == r[i] {
    }
  }

  // ---------------------------------------------------------------------
  // getConnectedNode
  // ---------------------------------------------------------------------

  /** `nodes.find(n => n.id === id)`, as the index of the first node with that id. */
  function FindNodeIndex(ns: seq<Node>, id: string): (r: Option<nat>)
    ensures r.Some? ==> r.value < |ns| && ns[r.value].id == id
    ensures forall j :: 0 <= j < |ns| && (r.None? || j < r.value) ==> ns[j].id != id
  {
    if ns == [] then None
    else if ns[0].id == id then Some(0)
    else
      match FindNodeIndex(ns[1..], id)
      case None => None
      case Some(i) => Some(i + 1)
  }

  function FindNode(ns: seq<Node>, id: string): Option<Node> {
    match FindNodeIndex(ns, id)
    case None => None
    case Some(i) => Some(ns[i])
  }

  /** The test `edges.find` applies: the edge ends at `nodeId` and the node it starts from has type `sourceType`. */
  predicate Feeds(ns: seq<Node>, e: Edge, nodeId: string, sourceType: string) {
    e.target == nodeId && FindNode(ns, e.source).Some? && FindNode(ns, e.source).value.kind == sourceType
  }

  /** `edges.find(...)`, as the index of the first edge that passes the test. */
  function FirstFeedingEdge(ns: seq<Node>, es: seq<Edge>, nodeId: string, sourceType: string): (r: Option<nat>)
    ensures r.Some? ==> r.value < |es| && Feeds(ns, es[r.value], nodeId, sourceType)
    ensures forall j :: 0 <= j < |es| && (r.None? || j < r.value) ==> !Feeds(ns, es[j], nodeId, sourceType)
  {
    if es == [] then None
    else if Feeds(ns, es[0], nodeId, sourceType) then Some(0)
    else
      match FirstFeedingEdge(ns, es[1..], nodeId, sourceType)
      case None => None
      case Some(k) => Some(k + 1)
  }

  /**
   * `getConnectedNode(nodeId, sourceType)`: the node of type `sourceType` at
   * the start of the earliest edge into `nodeId` whose start has that type.
   */
  function ConnectedNode(ns: seq<Node>, es: seq<Edge>, nodeId: string, sourceType: string): (r: Option<Node>)
    ensures r.Some? ==> r.value.kind == sourceType && r.value in ns && FindNode(ns, r.value.id) == r
    ensures r.Some? ==> exists k :: (0 <= k < |es| && es[k].target == nodeId && es[k].source == r.value.id
      && forall j :: 0 <= j < k ==> !Feeds(ns, es[j], nodeId, sourceType))
    ensures r.None? <==> forall k :: 0 <= k < |es| ==> !Feeds(ns, es[k], nodeId, sourceType)
  {
    match FirstFeedingEdge(ns, es, nodeId, sourceType)
    case None => None
    case Some(k) => FindNode(ns, es[k].source)
  }

  /** Edges added after the one found never change what `getConnectedNode` returns. */
  lemma ConnectedNodeAppendEdges(ns: seq<Node>, es: seq<Edge>, more: seq<Edge>, nodeId: string, sourceType: string)
    requires ConnectedNode(ns, es, nodeId, sourceType).Some?
    ensures ConnectedNode(ns, es + more, nodeId, sourceType) == ConnectedNode(ns, es, nodeId, sourceType)
  {
    var k := FirstFeedingEdge(ns, es, nodeId, sourceType).value;
    var r := FirstFeedingEdge(ns, es + more, nodeId, sourceType);
    assert (es + more)[k] == es[k];
    assert forall j :: 0 <= j < k ==> (es + more)[j] == es[j];
    assert r == Some(k);
  }

  lemma FindNodeIndexSameIds(ns: seq<Node>, ms: seq<Node>, id: string)
    requires |ns| == |ms| && forall i :: 0 <= i < |ns| ==> ns[i].id == ms[i].id
    ensures FindNodeIndex(ns, id) == FindNodeIndex(ms, id)
  {
    var a, b := FindNodeIndex(ns, id), FindNodeIndex(ms, id);
    if a.Some? {
      assert b.Some? && b.value <= a.value;
    }
    if b.Some? {
      assert a.Some? && a.value <= b.value;
    }
  }

  lemma FirstFeedingEdgeSameIndex(ns: seq<Node>, ms: seq<Node>, es: seq<Edge>, nodeId: string, sourceType: string)
    requires forall e :: Feeds(ns, e, nodeId, sourceType) <==> Feeds(ms, e, nodeId, sourceType)
    ensures FirstFeedingEdge(ns, es, nodeId, sourceType) == FirstFeedingEdge(ms, es, nodeId, sourceType)
  {
    var a, b := FirstFeedingEdge(ns, es, nodeId, sourceType), FirstFeedingEdge(ms, es, nodeId, sourceType);
    if a.Some? {
      assert b.Some? && b.value <= a.value;
    }
    if b.Some? {
      assert a.Some? && a.value <= b.value;
    }
  }

  /**
   * `updateComponent` never changes which node `getConnectedNode` finds:
   * the answer after the update is the updated version of the answer before.
   */
  lemma ConnectedNodeAfterPatch(ns: seq<Node>, es: seq<Edge>, id: string, p: ComponentPatch, nodeId: string, sourceType: string)
    ensures match ConnectedNode(ns, es, nodeId, sourceType)
      case None => ConnectedNode(PatchNodes(ns, id, p), es, nodeId, sourceType) == None
      case Some(m) => ConnectedNode(PatchNodes(ns, id, p), es, nodeId, sourceType) == Some(PatchNode(m, id, p))
  {
    var ms := PatchNodes(ns, id, p);
    forall x ensures FindNodeIndex(ns, x) == FindNodeIndex(ms, x) {
      FindNodeIndexSameIds(ns, ms, x);
    }
    forall e ensures Feeds(ns, e, nodeId, sourceType) <==> Feeds(ms, e, nodeId, sourceType) {
    }
    FirstFeedingEdgeSameIndex(ns, ms, es, nodeId, sourceType);
    match FirstFeedingEdge(ns, es, nodeId, sourceType)
    case None =>
    case Some(k) =>
      var i := FindNodeIndex(ns, es[k].source).value;
      assert ms[i] == PatchNode(ns[i], id, p);
  }

  // ---------------------------------------------------------------------
  // generateFiles
  // ---------------------------------------------------------------------

  /** The key `generateFiles` writes a component's code under. */
  function FileKey(c: Component): string {
    c.kind + "/" + c.name + ".ts"
  }

  /** The file map after writing every node's code under its key, in node order. */
  function FilesOf(ns: seq<Node>): (r: map<string, string>)
    ensures ns == [] ==> r == map[]
    ensures ns != [] ==>
      FileKey(ns[|ns| - 1].data.component) in r && r[FileKey(ns[|ns| - 1].data.component)] == ns[|ns| - 1].data.component.code
    decreases |ns|
  {
    if ns == [] then map[]
    else
      var last := ns[|ns| - 1].data.component;
      FilesOf(ns[..|ns| - 1])[FileKey(last) := last.code]
  }

  /** Exactly the nodes' keys appear. */
  lemma {:induction false} FilesOfKeys(ns: seq<Node>)
    ensures FilesOf(ns).Keys == set i | 0 <= i < |ns| :: FileKey(ns[i].data.component)
    decreases |ns|
  {
    if ns != [] {
      var init := ns[..|ns| - 1];
      FilesOfKeys(init);
      assert forall i :: 0 <= i < |init| ==> init[i] == ns[i];
      var keys := set i | 0 <= i < |ns| :: FileKey(ns[i].data.component);
      var initKeys := set i | 0 <= i < |init| :: FileKey(init[i].data.component);
      assert keys == initKeys + {FileKey(ns[|ns| - 1].data.component)};
    }
  }

  /** No more files than nodes. */
  lemma {:induction false} FilesOfSize(ns: seq<Node>)
    ensures |FilesOf(ns)| <= |ns|
    decreases |ns|
  {
    if ns != [] {
      var init := ns[..|ns| - 1];
      FilesOfSize(init);
      var last := ns[|ns| - 1].data.component;
      var m := FilesOf(init);
      assert FilesOf(ns).Keys == m.Keys + {FileKey(last)};
      assert |m.Keys + {FileKey(last)}| <= |m.Keys| + |{FileKey(last)}|;
    }
  }

  /** A key holds the code of the last node in order that has that key. */
  lemma {:induction false} FilesOfLastWins(ns: seq<Node>, i: nat)
    requires i < |ns|
    requires forall j :: i < j < |ns| ==> FileKey(ns[j].data.component) != FileKey(ns[i].data.component)
    ensures FileKey(ns[i].data.component) in FilesOf(ns)
    ensures FilesOf(ns)[FileKey(ns[i].data.component)] == ns[i].data.component.code
    decreases |ns|
  {
    if i < |ns| - 1 {
      var init := ns[..|ns| - 1];
      assert init[i] == ns[i];
      assert forall j :: i < j < |init| ==> init[j] == ns[j];
      FilesOfLastWins(init, i);
    }
  }

  /**
   * The file map depends only on each node's component type, name and code:
   * node ids, labels, positions and component ids do not enter it.
   */
  lemma {:induction false} FilesOfSameEntries(ns: seq<Node>, ms: seq<Node>)
    requires |ns| == |ms|
    requires forall i :: 0 <= i < |ns| ==>
      FileKey(ns[i].data.component) == FileKey(ms[i].data.component) && ns[i].data.component.code == ms[i].data.component.code
    ensures FilesOf(ns) == FilesOf(ms)
    decreases |ns|
  {
    if ns != [] {
      FilesOfSameEntries(ns[..|ns| - 1], ms[..|ms| - 1]);
    }
  }

  // ---------------------------------------------------------------------
  // The store
  // ---------------------------------------------------------------------

  class Store {
    var nodes: seq<Node>
    var edges: seq<Edge>
    var components: seq<Component>
    var generatedFiles: map<string, string>

    /**
     * What every action keeps: one component entry per node, and every
     * node's `onCodeChange` closure bound to that node's own id.
     */
    ghost predicate Valid()
      reads this
    {
      && |components| == |nodes|
      && forall i :: 0 <= i < |nodes| ==> nodes[i].data.codeChangeTarget == nodes[i].id
    }

    constructor ()
      ensures Valid()
      ensures nodes == [] && edges == [] && components == [] && generatedFiles == map[]
    {
      nodes, edges, components, generatedFiles := [], [], [], map[];
    }

    /**
     * In a valid store, calling the closure held by node `i` writes that
     * node's code and leaves every node with another id as it was.
     */
    lemma ClosureWritesOwnNode(i: nat, code: string)
      requires Valid() && i < |nodes|
      ensures var r := PatchNodes(nodes, nodes[i].data.codeChangeTarget, CodePatch(code));
        && r[i].data.component.code == code
        && forall j :: 0 <= j < |nodes| && nodes[j].id != nodes[i].id ==> r[j] == nodes[j]
    {
    }

    /** `addNode(type, position)`, with the clock's two readings as parameters. */
    method AddNode(kind: string, position: Position, nodeNow: nat, componentNow: nat)
      modifies this`nodes, this`components
      ensures nodes == old(nodes) + [NewNode(kind, position, nodeNow, componentNow)]
      ensures components == old(components) + [NewNode(kind, position, nodeNow, componentNow).data.component]
      ensures old(Valid()) ==> Valid()
    {
      var newNode := NewNode(kind, position, nodeNow, componentNow);
      nodes, components := nodes + [newNode], components + [newNode.data.component];
    }

    /**
     * `onConnect(connection)`. The library's `addEdge` (which builds the
     * edge and decides about duplicates) is a parameter.
     */
    method OnConnect(connection: Connection, addEdge: (Connection, seq<Edge>) -> seq<Edge>)
      modifies this`edges
      ensures !Connectable(connection) ==> edges == old(edges)
      ensures Connectable(connection) ==> edges == addEdge(connection, old(edges))
    {
      if !Connectable(connection) {
        return;
      }
      edges := addEdge(connection, edges);
    }

    /**
     * `updateComponent(id, patch)`: the component of every node with that id
     * is patched; the label is not synced, and no other collection changes.
     */
    method UpdateComponent(id: string, patch: ComponentPatch)
      modifies this`nodes
      ensures nodes == PatchNodes(old(nodes), id, patch)
      ensures old(Valid()) ==> Valid()
    {
      nodes := PatchNodes(nodes, id, patch);
    }

    /** Calling a node's `onCodeChange(code)` closure. */
    method OnCodeChange(data: NodeData, code: string)
      modifies this`nodes
      ensures nodes == PatchNodes(old(nodes), data.codeChangeTarget, CodePatch(code))
      ensures old(Valid()) ==> Valid()
    {
      UpdateComponent(data.codeChangeTarget, CodePatch(code));
    }

    /** `getConnectedNode(nodeId, sourceType)` on the store's current nodes and edges. */
    function GetConnectedNode(nodeId: string, sourceType: string): (r: Option<Node>)
      reads this
      ensures r.Some? ==> r.value.kind == sourceType && r.value in nodes && FindNode(nodes, r.value.id) == r
      ensures r.Some? ==> exists k :: (0 <= k < |edges| && edges[k].target == nodeId && edges[k].source == r.value.id
        && forall j :: 0 <= j < k ==> !Feeds(nodes, edges[j], nodeId, sourceType))
      ensures r.None? <==> forall k :: 0 <= k < |edges| ==> !Feeds(nodes, edges[k], nodeId, sourceType)
    {
      ConnectedNode(nodes, edges, nodeId, sourceType)
    }

    /** `generateFiles()`: the `forEach` loop filling a fresh map, then one assignment. */
    method GenerateFiles()
      modifies this`generatedFiles
      ensures generatedFiles == FilesOf(nodes)
    {
      var files: map<string, string> := map[];
      var i := 0;
      while i < |nodes|
        invariant 0 <= i <= |nodes|
        invariant files == FilesOf(nodes[..i])
      {
        var component := nodes[i].data.component;
        files := files[FileKey(component) := component.code];
        assert nodes[..i + 1][..i] == nodes[..i];
        i := i + 1;
      }
      assert nodes[..|nodes|] == nodes;
      generatedFiles := files;
    }
  }
}
