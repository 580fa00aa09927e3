/** The editor's document store (app/lib/store/flow-store.ts): the current
    document, the selection, and a bounded undo/redo history. Every edit of
    the document goes through `UpdateDoc`, which records a snapshot.
    Clock readings and generated ids are parameters. */
module Store {
  import opened Types

  /** At most this many snapshots are kept. */
  const HistoryLimit := 50

  /** `Partial<FlowDoc>`: the fields an update sets; `updatedAt` is always
      overwritten by the clock. */
  datatype DocPatch = DocPatch(
    id: Option<string>,
    name: Option<string>,
    nodes: Option<seq<Node>>,
    edges: Option<seq<Edge>>,
    settings: Option<Settings>,
    version: Option<int>)

  /** `Partial<PBNode>`. */
  datatype NodePatch = NodePatch(
    id: Option<Id>,
    kind: Option<string>,
    position: Option<Position>,
    data: Option<map<string, Value>>)

  /** `Partial<PBEdge>`; `condition` may be set to undefined explicitly. */
  datatype EdgePatch = EdgePatch(
    id: Option<Id>,
    source: Option<Id>,
    target: Option<Id>,
    condition: Option<Option<string>>)

  function OrElse<T>(o: Option<T>, d: T): T {
    if o.Some? then o.value else d
  }

  /** The patch that sets only the node and edge lists. */
  function ListsPatch(nodes: Option<seq<Node>>, edges: Option<seq<Edge>>): DocPatch {
    DocPatch(None, None, nodes, edges, None, None)
  }

  /** `createInitialDoc()`: an empty document stamped with the clock. */
  function InitialDoc(id: string, now: int): (d: FlowDoc)
    ensures d.nodes == [] && d.edges == [] && d.updatedAt == now && d.version == 1
  {
    FlowDoc(id, "\U{65B0}\U{9879}\U{76EE}", [], [],
      Settings(Some("zh-CN"), Some("\n\n"), None, Some("gpt-3.5-turbo")), now, 1)
  }

  /** `{ ...doc, ...updates, updatedAt: now }`: each field the patch sets is
      taken from it, every other field is kept, and the time stamp is the
      clock's. */
  function Patched(doc: FlowDoc, u: DocPatch, now: int): (d: FlowDoc)
    ensures d.updatedAt == now
    ensures u.nodes.None? ==> d.nodes == doc.nodes
    ensures u.edges.None? ==> d.edges == doc.edges
    ensures u.id.None? && u.name.None? && u.settings.None? && u.version.None? ==>
      d.id == doc.id && d.name == doc.name && d.settings == doc.settings && d.version == doc.version
  {
    FlowDoc(OrElse(u.id, doc.id), OrElse(u.name, doc.name), OrElse(u.nodes, doc.nodes),
      OrElse(u.edges, doc.edges), OrElse(u.settings, doc.settings), now, OrElse(u.version, doc.version))
  }

  /** `{ ...node, ...updates }`. */
  function MergeNode(n: Node, u: NodePatch): Node {
    Node(OrElse(u.id, n.id), OrElse(u.kind, n.kind), OrElse(u.position, n.position), OrElse(u.data, n.data))
  }

  /** `{ ...edge, ...updates }`. */
  function MergeEdge(e: Edge, u: EdgePatch): Edge {
    Edge(OrElse(u.id, e.id), OrElse(u.source, e.source), OrElse(u.target, e.target), OrElse(u.condition, e.condition))
  }

  // ---------------------------------------------------------------------
  // List edits: `filter` and `map` over the node and edge arrays

  /** `s.filter(p)`. */
  function Retain<T(!new)>(s: seq<T>, p: T -> bool): (r: seq<T>)
    ensures |r| <= |s|
    ensures forall x :: x in r <==> x in s && p(x)
  {
    if s == [] then []
    else Retain(s[..|s| - 1], p) + (if p(s[|s| - 1]) then [s[|s| - 1]] else [])
  }

  /** Filtering a concatenation filters each part, in order: the kept
      elements keep their relative order. */
  lemma {:induction false} RetainAppend<T(!new)>(a: seq<T>, b: seq<T>, p: T -> bool)
    ensures Retain(a + b, p) == Retain(a, p) + Retain(b, p)
  {
    if b == [] {
      assert a + b == a;
    } else {
      var b0, x := b[..|b| - 1], b[|b| - 1];
      assert (a + b)[..|a + b| - 1] == a + b0;
      RetainAppend(a, b0, p);
      var tail := if p(x) then [x] else [];
      AppendAssoc(Retain(a, p), Retain(b0, p), tail);
    }
  }

  /** A filter that every element passes changes nothing. */
  lemma {:induction false} RetainAll<T(!new)>(s: seq<T>, p: T -> bool)
    requires forall i :: 0 <= i < |s| ==> p(s[i])
    ensures Retain(s, p) == s
  {
    if s != [] {
      RetainAll(s[..|s| - 1], p);
      assert s[..|s| - 1] + [s[|s| - 1]] == s;
    }
  }

  function OtherNode(id: Id): Node -> bool {
    (n: Node) => n.id != id
  }

  function DetachedEdge(id: Id): Edge -> bool {
    (e: Edge) => e.source != id && e.target != id
  }

  function OtherEdge(id: Id): Edge -> bool {
    (e: Edge) => e.id != id
  }

  /** `nodes.map(node => node.id === id ? { ...node, ...updates } : node)`. */
  function UpdateNodes(nodes: seq<Node>, id: Id, u: NodePatch): (r: seq<Node>)
    ensures |r| == |nodes|
  {
    if nodes == [] then []
    else
      var n := nodes[|nodes| - 1];
      UpdateNodes(nodes[..|nodes| - 1], id, u) + [if n.id == id then MergeNode(n, u) else n]
  }

  /** Exactly the nodes carrying `id` are merged with the patch; every other
      node stays as it was, in place. */
  lemma {:induction false} UpdateNodesSpec(nodes: seq<Node>, id: Id, u: NodePatch, k: nat)
    requires k < |nodes|
    ensures UpdateNodes(nodes, id, u)[k] == if nodes[k].id == id then MergeNode(nodes[k], u) else nodes[k]
  {
    if k < |nodes| - 1 {
      UpdateNodesSpec(nodes[..|nodes| - 1], id, u, k);
    }
  }

  /** An update that names no existing node changes nothing. */
  lemma {:induction false} UpdateNodesMissing(nodes: seq<Node>, id: Id, u: NodePatch)
    requires id !in NodeIds(nodes)
    ensures UpdateNodes(nodes, id, u) == nodes
  {
    if nodes != [] {
      assert NodeIds(nodes[..|nodes| - 1]) == NodeIds(nodes)[..|nodes| - 1];
      UpdateNodesMissing(nodes[..|nodes| - 1], id, u);
      assert nodes[..|nodes| - 1] + [nodes[|nodes| - 1]] == nodes;
    }
  }

  /** An update that does not rename keeps every node id in place. */
  lemma {:induction false} UpdateNodesKeepsIds(nodes: seq<Node>, id: Id, u: NodePatch)
    requires u.id.None?
    ensures NodeIds(UpdateNodes(nodes, id, u)) == NodeIds(nodes)
  {
    if nodes != [] {
      UpdateNodesKeepsIds(nodes[..|nodes| - 1], id, u);
    }
  }

  /** `edges.map(edge => edge.id === id ? { ...edge, ...updates } : edge)`. */
  function UpdateEdges(edges: seq<Edge>, id: Id, u: EdgePatch): (r: seq<Edge>)
    ensures |r| == |edges|
  {
    if edges == [] then []
    else
      var e := edges[|edges| - 1];
      UpdateEdges(edges[..|edges| - 1], id, u) + [if e.id == id then MergeEdge(e, u) else e]
  }

  /** Exactly the edges carrying `id` are merged with the patch; every other
      edge stays as it was, in place. */
  lemma {:induction false} UpdateEdgesSpec(edges: seq<Edge>, id: Id, u: EdgePatch, k: nat)
    requires k < |edges|
    ensures UpdateEdges(edges, id, u)[k] == if edges[k].id == id then MergeEdge(edges[k], u) else edges[k]
  {
    if k < |edges| - 1 {
      UpdateEdgesSpec(edges[..|edges| - 1], id, u, k);
    }
  }

  /** An update that names no existing edge changes nothing. */
  lemma {:induction false} UpdateEdgesMissing(edges: seq<Edge>, id: Id, u: EdgePatch)
    requires forall k :: 0 <= k < |edges| ==> edges[k].id != id
    ensures UpdateEdges(edges, id, u) == edges
  {
    if edges != [] {
      UpdateEdgesMissing(edges[..|edges| - 1], id, u);
      assert edges[..|edges| - 1] + [edges[|edges| - 1]] == edges;
    }
  }

  /** Every edge endpoint is the id of a node of the document. */
  ghost predicate Connected(doc: FlowDoc) {
    forall e :: e in doc.edges ==> e.source in NodeIds(doc.nodes) && e.target in NodeIds(doc.nodes)
  }

  /** The document `deleteNode(id)` leaves, before the clock stamps it. */
  function WithoutNode(doc: FlowDoc, id: Id): FlowDoc {
    doc.(nodes := Retain(doc.nodes, OtherNode(id)), edges := Retain(doc.edges, DetachedEdge(id)))
  }

  /** Deleting a node removes it and every edge touching it, and leaves no
      edge pointing at a missing node if there was none before. */
  lemma DeleteNodeSpec(doc: FlowDoc, id: Id)
    ensures var d := WithoutNode(doc, id);
      id !in NodeIds(d.nodes) &&
      (forall e :: e in d.edges ==> e.source != id && e.target != id) &&
      (Connected(doc) ==> Connected(d))
  {
    var d := WithoutNode(doc, id);
    RetainIds(doc.nodes, id);
    forall e | e in d.edges && Connected(doc)
      ensures e.source in NodeIds(d.nodes) && e.target in NodeIds(d.nodes)
    {
      RetainIds(doc.nodes, id);
    }
  }

  /** The ids left after removing the nodes named `id` are the other ids. */
  lemma {:induction false} RetainIds(nodes: seq<Node>, id: Id)
    ensures forall x :: x in NodeIds(Retain(nodes, OtherNode(id))) <==> x in NodeIds(nodes) && x != id
  {
    if nodes != [] {
      var init, n := nodes[..|nodes| - 1], nodes[|nodes| - 1];
      RetainIds(init, id);
      assert NodeIds(init) == NodeIds(nodes)[..|nodes| - 1];
      var kept := Retain(init, OtherNode(id));
      if n.id != id {
        assert NodeIds(kept + [n]) == NodeIds(kept) + [n.id];
      }
    }
  }

  /** Deleting a freshly added node restores the node list. */
  lemma AddThenDeleteNode(nodes: seq<Node>, n: Node)
    requires n.id !in NodeIds(nodes)
    ensures Retain(nodes + [n], OtherNode(n.id)) == nodes
  {
    forall i | 0 <= i < |nodes| ensures OtherNode(n.id)(nodes[i]) {
      assert NodeIds(nodes)[i] == nodes[i].id;
    }
    RetainAll(nodes, OtherNode(n.id));
    RetainAppend(nodes, [n], OtherNode(n.id));
    assert [n][..0] == [];
  }

  /** Deleting a freshly added edge restores the edge list. */
  lemma AddThenDeleteEdge(edges: seq<Edge>, e: Edge)
    requires forall k :: 0 <= k < |edges| ==> edges[k].id != e.id
    ensures Retain(edges + [e], OtherEdge(e.id)) == edges
  {
    RetainAll(edges, OtherEdge(e.id));
    RetainAppend(edges, [e], OtherEdge(e.id));
    assert [e][..0] == [];
  }

  // ---------------------------------------------------------------------
  // History

  /** `saveToHistory`: the entries after the cursor are dropped, the
      snapshot is appended, and only the newest `HistoryLimit` entries are
      kept; the cursor moves to the newest entry. */
  function Pushed(h: seq<FlowDoc>, i: int, d: FlowDoc): (seq<FlowDoc>, int)
    requires 0 <= i < |h|
  {
    var kept := h[..i + 1] + [d];
    if |kept| > HistoryLimit then (kept[|kept| - HistoryLimit..], HistoryLimit - 1)
    else (kept, |kept| - 1)
  }

  /** After a push the history holds at most `HistoryLimit` entries, the
      cursor sits on the new snapshot at the end, and the entries before it
      are the newest entries up to the old cursor, in order. */
  lemma PushSpec(h: seq<FlowDoc>, i: int, d: FlowDoc)
    requires 0 <= i < |h|
    ensures var (h', i') := Pushed(h, i, d);
      |h'| <= HistoryLimit && i' == |h'| - 1 && h'[i'] == d &&
      i' == (if i + 1 < HistoryLimit then i + 1 else HistoryLimit - 1) &&
      forall k :: 0 <= k < i' ==> h'[k] == h[i + 1 - i' + k]
  {
    var kept := h[..i + 1] + [d];
    if |kept| > HistoryLimit {
      var h' := kept[|kept| - HistoryLimit..];
      forall k | 0 <= k < HistoryLimit - 1 ensures h'[k] == h[i + 1 - (HistoryLimit - 1) + k] {
        assert h'[k] == kept[|kept| - HistoryLimit + k];
      }
    }
  }

  /** `undo`: one step back when there is an earlier entry; otherwise the
      cursor and the document stay. Returns the new cursor and document. */
  function Undone(h: seq<FlowDoc>, i: int, d: FlowDoc): (r: (int, FlowDoc))
    requires 0 <= i < |h|
    ensures 0 <= r.0 < |h|
  {
    if i > 0 then (i - 1, h[i - 1]) else (i, d)
  }

  /** `redo`: one step forward when there is a later entry. */
  function Redone(h: seq<FlowDoc>, i: int, d: FlowDoc): (r: (int, FlowDoc))
    requires 0 <= i < |h|
    ensures 0 <= r.0 < |h|
  {
    if i < |h| - 1 then (i + 1, h[i + 1]) else (i, d)
  }

  /** `n` undos in a row. */
  function UndoTimes(h: seq<FlowDoc>, i: int, d: FlowDoc, n: nat): (r: (int, FlowDoc))
    requires 0 <= i < |h|
    ensures 0 <= r.0 < |h|
  {
    if n == 0 then (i, d)
    else
      var (j, e) := UndoTimes(h, i, d, n - 1);
      Undone(h, j, e)
  }

  /** `n` redos in a row. */
  function RedoTimes(h: seq<FlowDoc>, i: int, d: FlowDoc, n: nat): (r: (int, FlowDoc))
    requires 0 <= i < |h|
    ensures 0 <= r.0 < |h|
  {
    if n == 0 then (i, d)
    else
      var (j, e) := RedoTimes(h, i, d, n - 1);
      Redone(h, j, e)
  }

  /** `n` undos stop at the oldest entry, and show the entry they stop at
      once they have moved at all. */
  lemma {:induction false} UndoTimesSpec(h: seq<FlowDoc>, i: int, d: FlowDoc, n: nat)
    requires 0 <= i < |h|
    ensures var (j, e) := UndoTimes(h, i, d, n);
      j == (if n <= i then i - n else 0) &&
      e == (if n == 0 || i == 0 then d else h[j])
  {
    if n > 0 {
      UndoTimesSpec(h, i, d, n - 1);
    }
  }

  /** `n` redos stop at the newest entry, and show the entry they stop at
      once they have moved at all. */
  lemma {:induction false} RedoTimesSpec(h: seq<FlowDoc>, i: int, d: FlowDoc, n: nat)
    requires 0 <= i < |h|
    ensures var (j, e) := RedoTimes(h, i, d, n);
      j == (if i + n < |h| then i + n else |h| - 1) &&
      e == (if n == 0 || i == |h| - 1 then d else h[j])
  {
    if n > 0 {
      RedoTimesSpec(h, i, d, n - 1);
    }
  }

  /** Undoing `n` steps that are all available and redoing them returns
      to the same cursor, showing its entry. */
  lemma UndoThenRedo(h: seq<FlowDoc>, i: int, d: FlowDoc, n: nat)
    requires 0 <= i < |h| && 0 < n <= i
    ensures var (j, e) := UndoTimes(h, i, d, n);
      RedoTimes(h, j, e, n) == (i, h[i])
  {
    UndoTimesSpec(h, i, d, n);
    var (j, e) := UndoTimes(h, i, d, n);
    RedoTimesSpec(h, j, e, n);
  }

  /** Undo right after an edit shows the entry that was current before
      it. */
  lemma UndoAfterPush(h: seq<FlowDoc>, i: int, d: FlowDoc, shown: FlowDoc)
    requires 0 <= i < |h|
    ensures var (h', i') := Pushed(h, i, d);
      Undone(h', i', shown) == (i' - 1, h[i])
  {
    PushSpec(h, i, d);
  }

  /** An edit discards the redo branch: redo right after it does nothing. */
  lemma RedoAfterPush(h: seq<FlowDoc>, i: int, d: FlowDoc, shown: FlowDoc)
    requires 0 <= i < |h|
    ensures var (h', i') := Pushed(h, i, d);
      Redone(h', i', shown) == (i', shown)
  {
    PushSpec(h, i, d);
  }

  // ---------------------------------------------------------------------
  // The store

  class FlowStore {
    var doc: FlowDoc
    var selectedNodeId: Option<Id>
    var selectedEdgeId: Option<Id>
    var history: seq<FlowDoc>
    var historyIndex: int

    /** The cursor points into a history of at most `HistoryLimit`
        entries. */
    predicate Valid()
      reads this
    {
      0 <= historyIndex < |history| <= HistoryLimit
    }

    /** The store's initial state (lines 57-62): a fresh document and a
        history holding a second fresh document, each with its own id and
        clock reading. */
    constructor(docId: string, docTime: int, historyId: string, historyTime: int)
      ensures Valid()
      ensures doc == InitialDoc(docId, docTime) && history == [InitialDoc(historyId, historyTime)]
      ensures historyIndex == 0 && selectedNodeId == None && selectedEdgeId == None
    {
      doc := InitialDoc(docId, docTime);
      selectedNodeId := None;
      selectedEdgeId := None;
      history := [InitialDoc(historyId, historyTime)];
      historyIndex := 0;
    }

    /** `saveToHistory` (lines 143-160). */
    method SaveToHistory()
      requires Valid()
      modifies this
      ensures Valid()
      ensures (history, historyIndex) == Pushed(old(history), old(historyIndex), old(doc))
      ensures doc == old(doc) && selectedNodeId == old(selectedNodeId) && selectedEdgeId == old(selectedEdgeId)
    {
      var newHistory := history[..historyIndex + 1];
      newHistory := newHistory + [doc];
      history := newHistory;
      historyIndex := |newHistory| - 1;
      if |newHistory| > HistoryLimit {
        history := newHistory[|newHistory| - HistoryLimit..];
        historyIndex := HistoryLimit - 1;
      }
    }

    /** `setDoc` (lines 64-67). */
    method SetDoc(d: FlowDoc)
      requires Valid()
      modifies this
      ensures Valid() && doc == d
      ensures (history, historyIndex) == Pushed(old(history), old(historyIndex), d)
      ensures selectedNodeId == old(selectedNodeId) && selectedEdgeId == old(selectedEdgeId)
    {
      doc := d;
      SaveToHistory();
    }

    /** `updateDoc` (lines 69-74): patch the document, stamp it, and record
        the result in the history. */
    method UpdateDoc(u: DocPatch, now: int)
      requires Valid()
      modifies this
      ensures Valid() && doc == Patched(old(doc), u, now)
      ensures (history, historyIndex) == Pushed(old(history), old(historyIndex), doc)
      ensures selectedNodeId == old(selectedNodeId) && selectedEdgeId == old(selectedEdgeId)
    {
      doc := Patched(doc, u, now);
      SaveToHistory();
    }

    /** `addNode` (lines 76-87): appends one node with empty data under the
        generated id `id`. */
    method AddNode(kind: string, position: Position, id: Id, now: int)
      requires Valid()
      modifies this
      ensures Valid()
      ensures doc == Patched(old(doc), ListsPatch(Some(old(doc).nodes + [Node(id, kind, position, map[])]), None), now)
      ensures (history, historyIndex) == Pushed(old(history), old(historyIndex), doc)
      ensures selectedNodeId == old(selectedNodeId) && selectedEdgeId == old(selectedEdgeId)
    {
      var newNode := Node(id, kind, position, map[]);
      var newNodes := doc.nodes + [newNode];
      UpdateDoc(ListsPatch(Some(newNodes), None), now);
    }

    /** `updateNode` (lines 89-95). */
    method UpdateNode(id: Id, u: NodePatch, now: int)
      requires Valid()
      modifies this
      ensures Valid()
      ensures doc == Patched(old(doc), ListsPatch(Some(UpdateNodes(old(doc).nodes, id, u)), None), now)
      ensures (history, historyIndex) == Pushed(old(history), old(historyIndex), doc)
      ensures selectedNodeId == old(selectedNodeId) && selectedEdgeId == old(selectedEdgeId)
    {
      var newNodes := UpdateNodes(doc.nodes, id, u);
      UpdateDoc(ListsPatch(Some(newNodes), None), now);
    }

    /** `deleteNode` (lines 97-105): removes the node and every edge
        touching it, records the edit, and clears the selection. */
    method DeleteNode(id: Id, now: int)
      requires Valid()
      modifies this
      ensures Valid()
      ensures doc == WithoutNode(old(doc), id).(updatedAt := now)
      ensures (history, historyIndex) == Pushed(old(history), old(historyIndex), doc)
      ensures selectedNodeId == None && selectedEdgeId == None
    {
      var newNodes := Retain(doc.nodes, OtherNode(id));
      var newEdges := Retain(doc.edges, DetachedEdge(id));
      UpdateDoc(ListsPatch(Some(newNodes), Some(newEdges)), now);
      SelectNode(None);
    }

    /** `selectNode` (lines 107-109): selecting a node clears the edge
        selection. */
    method SelectNode(id: Option<Id>)
      modifies this
      ensures selectedNodeId == id && selectedEdgeId == None
      ensures doc == old(doc) && history == old(history) && historyIndex == old(historyIndex)
    {
      selectedNodeId := id;
      selectedEdgeId := None;
    }

    /** `addEdge` (lines 111-122): appends one edge under the generated id
        `id`. */
    method AddEdge(source: Id, target: Id, condition: Option<string>, id: Id, now: int)
      requires Valid()
      modifies this
      ensures Valid()
      ensures doc == Patched(old(doc), ListsPatch(None, Some(old(doc).edges + [Edge(id, source, target, condition)])), now)
      ensures (history, historyIndex) == Pushed(old(history), old(historyIndex), doc)
      ensures selectedNodeId == old(selectedNodeId) && selectedEdgeId == old(selectedEdgeId)
    {
      var newEdge := Edge(id, source, target, condition);
      var newEdges := doc.edges + [newEdge];
      UpdateDoc(ListsPatch(None, Some(newEdges)), now);
    }

    /** `updateEdge` (lines 124-130). */
    method UpdateEdge(id: Id, u: EdgePatch, now: int)
      requires Valid()
      modifies this
      ensures Valid()
      ensures doc == Patched(old(doc), ListsPatch(None, Some(UpdateEdges(old(doc).edges, id, u))), now)
      ensures (history, historyIndex) == Pushed(old(history), old(historyIndex), doc)
      ensures selectedNodeId == old(selectedNodeId) && selectedEdgeId == old(selectedEdgeId)
    {
      var newEdges := UpdateEdges(doc.edges, id, u);
      UpdateDoc(ListsPatch(None, Some(newEdges)), now);
    }

    /** `deleteEdge` (lines 132-137): removes the edges with that id,
        records the edit, and clears the selection. */
    method DeleteEdge(id: Id, now: int)
      requires Valid()
      modifies this
      ensures Valid()
      ensures doc == Patched(old(doc), ListsPatch(None, Some(Retain(old(doc).edges, OtherEdge(id)))), now)
      ensures (history, historyIndex) == Pushed(old(history), old(historyIndex), doc)
      ensures selectedNodeId == None && selectedEdgeId == None
    {
      var newEdges := Retain(doc.edges, OtherEdge(id));
      UpdateDoc(ListsPatch(None, Some(newEdges)), now);
      SelectEdge(None);
    }

    /** `selectEdge` (lines 139-141): selecting an edge clears the node
        selection. */
    method SelectEdge(id: Option<Id>)
      modifies this
      ensures selectedEdgeId == id && selectedNodeId == None
      ensures doc == old(doc) && history == old(history) && historyIndex == old(historyIndex)
    {
      selectedEdgeId := id;
      selectedNodeId := None;
    }

    /** `undo` (lines 162-170). */
    method Undo()
      requires Valid()
      modifies this
      ensures Valid() && history == old(history)
      ensures (historyIndex, doc) == Undone(old(history), old(historyIndex), old(doc))
      ensures selectedNodeId == old(selectedNodeId) && selectedEdgeId == old(selectedEdgeId)
    {
      if historyIndex > 0 {
        doc := history[historyIndex - 1];
        historyIndex := historyIndex - 1;
      }
    }

    /** `redo` (lines 172-180). */
    method Redo()
      requires Valid()
      modifies this
      ensures Valid() && history == old(history)
      ensures (historyIndex, doc) == Redone(old(history), old(historyIndex), old(doc))
      ensures selectedNodeId == old(selectedNodeId) && selectedEdgeId == old(selectedEdgeId)
    {
      if historyIndex < |history| - 1 {
        doc := history[historyIndex + 1];
        historyIndex := historyIndex + 1;
      }
    }

    /** `clearCanvas` (lines 182-187): empties both lists through
        `updateDoc`. */
    method ClearCanvas(now: int)
      requires Valid()
      modifies this
      ensures Valid() && doc.nodes == [] && doc.edges == []
      ensures doc == Patched(old(doc), ListsPatch(Some([]), Some([])), now)
      ensures (history, historyIndex) == Pushed(old(history), old(historyIndex), doc)
      ensures selectedNodeId == old(selectedNodeId) && selectedEdgeId == old(selectedEdgeId)
    {
      UpdateDoc(ListsPatch(Some([]), Some([])), now);
    }
  }
}
