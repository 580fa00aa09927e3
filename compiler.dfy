/** The `PromptCompiler` class (app/lib/compiler/prompt-compiler.ts): it
    builds the successor lists and in-degrees of a document once, then
    compiles it by Kahn's ordering, node rendering and validation. Each
    method is proved to compute the function of the document that
    `Render`, `Kahn` and `CompilerSpec` define. */
module Compiler {
  import opened Types
  import opened Strings
  import opened NodeDefinitions
  import opened Render
  import opened Graph
  import opened Ordering
  import opened Kahn
  import opened CompilerSpec
  import opened Cycles

  /** The in-degree map has exactly the keys of `keys` and holds the
      in-degree of each. */
  ghost predicate InDegreeOf(deg: map<Id, int>, keys: seq<Id>, E: seq<Edge>) {
    (forall w :: w in deg <==> w in keys) && forall w :: w in deg ==> deg[w] == InDeg(E, w)
  }

  lemma InDegreeOfIsInDegrees(deg: map<Id, int>, nodes: seq<Node>, E: seq<Edge>)
    requires InDegreeOf(deg, InDegreeKeys(nodes, E), E)
    ensures deg == InDegrees(nodes, E)
  {
  }

  class PromptCompiler {
    const doc: FlowDoc
    /** `new Map(doc.nodes.map(node => [node.id, node]))`. */
    const nodes: map<Id, Node>
    const edges: seq<Edge>
    var adjacency: map<Id, seq<Id>>
    var inDegree: map<Id, int>
    /** The order in which keys entered `inDegree`; JavaScript's `Map`
        iterates in this order. */
    var inDegreeKeys: seq<Id>

    /** The graph has been built from the document. */
    ghost predicate Valid()
      reads this
    {
      nodes == NodeMap(doc.nodes) && edges == doc.edges &&
      AdjacencyOf(adjacency, edges) &&
      inDegreeKeys == InDegreeKeys(doc.nodes, edges) &&
      InDegreeOf(inDegree, inDegreeKeys, edges)
    }

    /** Lines 11-18. */
    constructor (d: FlowDoc)
      ensures doc == d && Valid()
    {
      doc := d;
      nodes := NodeMap(d.nodes);
      edges := d.edges;
      adjacency := map[];
      inDegree := map[];
      inDegreeKeys := [];
      new;
      BuildGraph();
    }

    /** `buildGraph` (lines 20-36): an empty successor list and in-degree 0
        for every node, then, edge by edge, the target appended to the
        source's list and the target's in-degree raised by one. */
    method BuildGraph()
      requires nodes == NodeMap(doc.nodes) && edges == doc.edges
      requires adjacency == map[] && inDegree == map[] && inDegreeKeys == []
      modifies this
      ensures Valid()
    {
      var adj, deg, keys := NodeLists(doc.nodes);
      adj, deg, keys := EdgeLists(NodeIds(doc.nodes), edges, adj, deg, keys);
      adjacency, inDegree, inDegreeKeys := adj, deg, keys;
    }

    /** `topologicalSort` (lines 38-75): the in-degree-0 keys in key order,
        sorted by position, then Kahn's rounds. */
    method TopologicalSort() returns (result: seq<Id>)
      requires Valid()
      ensures result == KahnSort(doc.nodes, edges)
    {
      var deg := inDegree;
      var queue := ZeroKeys(inDegreeKeys, deg, edges);
      queue := SortByPosition(queue, nodes);
      InDegreeOfIsInDegrees(deg, doc.nodes, edges);
      result := [];
      ghost var K := KeySet(doc.nodes, edges);
      ghost var fuel: nat := |K|;
      InitInv(doc.nodes, edges);
      DrainSpec(edges, K, Start(doc.nodes, edges), fuel);
      while queue != []
        invariant Finishes(edges, State(deg, result, queue), fuel)
        invariant Drain(edges, State(deg, result, queue), fuel) == KahnSort(doc.nodes, edges)
        decreases fuel
      {
        ghost var s := State(deg, result, queue);
        var current := queue[0];
        queue := queue[1..];
        result := result + [current];
        var neighbors := if current in adjacency then adjacency[current] else [];
        OutWithinTargets(edges, current);
        deg, queue := ReleaseAll(deg, queue, neighbors);
        assert State(deg, result, queue) == Step(edges, s);
        fuel := fuel - 1;
      }
    }

    /** `renderNode` (lines 77-101): each compiled field, in field order,
        replaces the first occurrence of its placeholder with its value,
        and the result is trimmed. */
    method RenderNode(node: Node) returns (r: string)
      ensures r == RenderText(node)
    {
      var definition := Lookup(node.kind);
      if definition.None? {
        return "";
      }
      var fields := definition.value.fields;
      var template := definition.value.template;
      var data := node.data;
      var i := 0;
      while i < |fields|
        invariant 0 <= i <= |fields|
        invariant Substitute(template, fields[i..], data) == Substitute(definition.value.template, fields, data)
      {
        var field := fields[i];
        if field.compile {
          var text := "";
          if field.key in data {
            match data[field.key]
            case Str(v) =>
              text := v;
            case List(items) =>
              text := if field.kind == ListKind then Join(items, "; ") else Join(items, ",");
          }
          template := ReplaceFirst(template, Placeholder(field.key), text);
        }
        assert fields[i..][1..] == fields[i + 1..];
        i := i + 1;
      }
      r := Trim(template);
    }

    /** One branch of `renderIfElse` or `renderLoop` (lines 113-121,
        126-134, 148-155): for each edge from `u` with the wanted
        condition, in edge order, the rendered target, when it exists and
        is non-empty, as an indented line. */
    method RenderBranch(u: Id, cond: Option<string>) returns (lines: string)
      ensures lines == BranchLines(edges, u, cond, nodes, RenderText)
    {
      lines := "";
      var j := 0;
      while j < |edges|
        invariant 0 <= j <= |edges|
        invariant lines == BranchLines(edges[..j], u, cond, nodes, RenderText)
      {
        var piece := BranchPiece(edges[j], u, cond);
        BranchStep(edges, j, u, cond, nodes, RenderText);
        lines := lines + piece;
        j := j + 1;
      }
      assert edges[..j] == edges;
    }

    /** The text one edge adds to a branch: the rendered target as an
        indented line, when the edge leaves `u` with the wanted condition
        and its target exists and renders to something. */
    method BranchPiece(edge: Edge, u: Id, cond: Option<string>) returns (piece: string)
      ensures piece == (if Contributes(edge, u, cond, nodes, RenderText) then Line(RenderText(nodes[edge.target])) else "")
    {
      piece := "";
      if edge.source == u && (cond.None? || edge.condition == cond) && edge.target in nodes {
        var content := RenderNode(nodes[edge.target]);
        if content != "" {
          piece := Line(content);
        }
      }
    }

    /** `renderIfElse` (lines 103-138). */
    method RenderIfElse(node: Node) returns (r: string)
      ensures r == IfElseText(node, edges, nodes)
    {
      r := "IF(" + OrDefault(node.data, "conditionExpr", "condition") + "):\n";
      var ifLines := RenderBranch(node.id, Some("if"));
      var elseLines := RenderBranch(node.id, Some("else"));
      r := r + ifLines + "ELSE:\n" + elseLines;
    }

    /** `renderLoop` (lines 140-158). */
    method RenderLoop(node: Node) returns (r: string)
      ensures r == LoopText(node, edges, nodes)
    {
      r := "LOOP(" + OrDefault(node.data, "times", "until condition") + "):\n";
      var lines := RenderBranch(node.id, None);
      r := r + lines;
    }

    /** `validateNodes` (lines 160-206): the missing required fields, node
        by node, then one `hasCycle` search per node, in node order, over
        the shared `visited` and `recStack` sets. */
    method ValidateNodes() returns (report: Report)
      requires Valid()
      ensures report == Report(MissingRequired(doc.nodes), CycleWarnings(doc.nodes, edges))
    {
      var missingRequired := [];
      var i := 0;
      while i < |doc.nodes|
        invariant 0 <= i <= |doc.nodes|
        invariant missingRequired == MissingRequired(doc.nodes[..i])
      {
        CollectSnoc(doc.nodes, MissingOf, i);
        missingRequired := AddMissing(missingRequired, doc.nodes[i]);
        i := i + 1;
      }
      assert doc.nodes[..i] == doc.nodes;

      var warnings := [];
      var visited := {};
      var recStack := {};
      ghost var universe := Elems(NodeIds(doc.nodes)) + Targets(edges);
      i := 0;
      while i < |doc.nodes|
        invariant 0 <= i <= |doc.nodes|
        invariant Searching(edges, adjacency, universe, visited, recStack, {})
        invariant warnings == CycleWarnings(doc.nodes[..i], edges)
      {
        var id := doc.nodes[i].id;
        InUniverse(doc.nodes, edges, i);
        var found;
        found, visited, recStack := HasCycle(edges, adjacency, universe, visited, recStack, id, [], {});
        CycleWarningsSnoc(doc.nodes, edges, i);
        if found {
          warnings := warnings + [CyclePrefix + id];
        }
        i := i + 1;
      }
      assert doc.nodes[..i] == doc.nodes;
      report := Report(missingRequired, warnings);
    }

    /** `compile` (lines 208-246): validation, then the nodes in Kahn's
        order, each rendered by its type; the non-empty parts are joined
        with the document's joiner, by default a blank line. */
    method Compile() returns (r: CompileResult)
      requires Valid()
      ensures r == CompileSpec(doc)
    {
      var validation := ValidateNodes();
      var sortedNodes := TopologicalSort();
      var compiledParts := CompileParts(sortedNodes);
      var joiner := JoinerOf(doc.settings);
      r := CompileResult(Join(compiledParts, joiner), validation);
    }

    /** Lines 212-237: the non-empty contents of the ids of the order that
        name nodes, in order. */
    method CompileParts(sortedNodes: seq<Id>) returns (compiledParts: seq<string>)
      ensures compiledParts == Parts(sortedNodes, edges, nodes)
    {
      compiledParts := [];
      var i := 0;
      while i < |sortedNodes|
        invariant 0 <= i <= |sortedNodes|
        invariant compiledParts == Parts(sortedNodes[..i], edges, nodes)
      {
        var nodeContent := "";
        if sortedNodes[i] in nodes {
          nodeContent := RenderContent(nodes[sortedNodes[i]]);
        }
        PartsSnoc(sortedNodes, edges, nodes, i, nodeContent);
        if nodeContent != "" {
          compiledParts := compiledParts + [nodeContent];
        }
        i := i + 1;
      }
      assert sortedNodes[..i] == sortedNodes;
    }

    /** The switch of lines 219-232: a block for IF/ELSE and LOOP nodes,
        nothing for a note, the template otherwise. */
    method RenderContent(node: Node) returns (r: string)
      ensures r == Content(node, edges, nodes)
    {
      match ParseTag(node.kind)
      case Some(IfElse) =>
        r := RenderIfElse(node);
      case Some(Loop) =>
        r := RenderLoop(node);
      case Some(Note) =>
        r := "";
      case _ =>
        r := RenderNode(node);
    }
  }

  /** `compilePrompt` (lines 249-252): a fresh compiler for the document,
      then `compile`. */
  method CompilePrompt(doc: FlowDoc) returns (r: CompileResult)
    ensures r == CompileSpec(doc)
  {
    var compiler := new PromptCompiler(doc);
    r := compiler.Compile();
  }

  /** Lines 164-177 for one node: its id once per required field, in field
      order, whose value is absent, "" or an empty list; an unknown type
      adds nothing. */
  method AddMissing(missing0: seq<Id>, node: Node) returns (missing: seq<Id>)
    ensures missing == missing0 + MissingOf(node)
  {
    missing := missing0;
    var definition := Lookup(node.kind);
    if definition.None? {
      return;
    }
    var fields := definition.value.fields;
    var j := 0;
    while j < |fields|
      invariant 0 <= j <= |fields|
      invariant missing == missing0 + MissingFields(fields[..j], node.data, node.id)
    {
      var field := fields[j];
      MissingFieldsSnoc(fields, node.data, node.id, j);
      AppendAssoc(missing0, MissingFields(fields[..j], node.data, node.id), [node.id]);
      if field.required {
        var key := field.key;
        if key !in node.data || node.data[key] == Str("") || node.data[key] == List([]) {
          missing := missing + [node.id];
        }
      }
      j := j + 1;
    }
    assert fields[..j] == fields;
  }

  /** Appending the id `order[i]`, whose contribution is `content`, adds
      `content` when it is non-empty. */
  lemma PartsSnoc(order: seq<Id>, E: seq<Edge>, nodes: map<Id, Node>, i: nat, content: string)
    requires i < |order| && content == PartOf(order[i], E, nodes)
    ensures Parts(order[..i + 1], E, nodes) == Parts(order[..i], E, nodes) + (if content != "" then [content] else [])
  {
    assert order[..i + 1][..i] == order[..i];
  }

  lemma MissingFieldsSnoc(fields: seq<FieldDef>, data: map<string, Value>, id: Id, j: nat)
    requires j < |fields|
    ensures MissingFields(fields[..j + 1], data, id) == MissingFields(fields[..j], data, id) +
      (if fields[j].required && IsMissing(data, fields[j].key) then [id] else [])
  {
    assert fields[..j + 1][..j] == fields[..j];
  }

  lemma CollectSnoc<T, U>(xs: seq<T>, f: T -> seq<U>, i: nat)
    requires i < |xs|
    ensures Collect(xs[..i + 1], f) == Collect(xs[..i], f) + f(xs[i])
  {
    assert xs[..i + 1][..i] == xs[..i];
  }

  lemma CycleWarningsSnoc(nodes: seq<Node>, E: seq<Edge>, i: nat)
    requires i < |nodes|
    ensures CycleWarnings(nodes[..i + 1], E) == CycleWarnings(nodes[..i], E) +
      (if ReachesCycle(E, nodes[i].id) then [CyclePrefix + nodes[i].id] else [])
  {
    assert nodes[..i + 1][..i] == nodes[..i];
  }

  lemma InUniverse(nodes: seq<Node>, E: seq<Edge>, i: nat)
    requires i < |nodes|
    ensures nodes[i].id in Elems(NodeIds(nodes)) + Targets(E)
  {
    assert NodeIds(nodes)[i] == nodes[i].id;
  }

  /** Lines 64-71: each successor, in list order, loses one unit of
      in-degree and joins the queue when its count reaches 0. */
  method ReleaseAll(deg0: map<Id, int>, queue0: seq<Id>, neighbors: seq<Id>) returns (deg: map<Id, int>, queue: seq<Id>)
    requires forall v :: v in neighbors ==> v in deg0
    ensures (deg, queue) == Release(deg0, queue0, neighbors)
  {
    deg, queue := deg0, queue0;
    var j := 0;
    while j < |neighbors|
      invariant 0 <= j <= |neighbors|
      invariant deg.Keys == deg0.Keys
      invariant Release(deg, queue, neighbors[j..]) == Release(deg0, queue0, neighbors)
    {
      var neighbor := neighbors[j];
      var d := deg[neighbor] - 1;
      ReleaseHead(deg, queue, neighbors[j..]);
      deg := deg[neighbor := d];
      if d == 0 {
        queue := queue + [neighbor];
      }
      assert neighbors[j..][1..] == neighbors[j + 1..];
      j := j + 1;
    }
    assert neighbors[j..] == [];
  }

  lemma ReleaseHead(deg: map<Id, int>, queue: seq<Id>, nbrs: seq<Id>)
    requires nbrs != [] && forall v :: v in nbrs ==> v in deg
    ensures Release(deg, queue, nbrs) ==
      Release(deg[nbrs[0] := deg[nbrs[0]] - 1], if deg[nbrs[0]] - 1 == 0 then queue + [nbrs[0]] else queue, nbrs[1..])
  {
  }

  /** `adj`, `deg` and `keys` are the successor lists, the in-degrees and
      the in-degree key order after node ids `ids` and then edges `E` have
      been entered. */
  ghost predicate GraphOf(adj: map<Id, seq<Id>>, deg: map<Id, int>, keys: seq<Id>, ids: seq<Id>, E: seq<Edge>) {
    AdjacencyOf(adj, E) && InDegreeOf(deg, keys, E) &&
    keys == Dedup(ids + TargetSeq(E))
  }

  /** Lines 22-25: every node id entered in order. */
  method NodeLists(ns: seq<Node>) returns (adj: map<Id, seq<Id>>, deg: map<Id, int>, keys: seq<Id>)
    ensures GraphOf(adj, deg, keys, NodeIds(ns), [])
  {
    adj, deg, keys := map[], map[], [];
    assert GraphOf(adj, deg, keys, [], []);
    var i := 0;
    while i < |ns|
      invariant 0 <= i <= |ns|
      invariant GraphOf(adj, deg, keys, NodeIds(ns[..i]), [])
    {
      var id := ns[i].id;
      assert NodeIds(ns[..i + 1]) == NodeIds(ns[..i]) + [id] by {
        assert ns[..i + 1][..i] == ns[..i];
      }
      NodeStep(adj, deg, keys, NodeIds(ns[..i]), id);
      keys := if id in deg then keys else keys + [id];
      adj := adj[id := []];
      deg := deg[id := 0];
      i := i + 1;
    }
    assert ns[..i] == ns;
  }

  /** Lines 28-35: every edge entered in order. */
  method EdgeLists(ids: seq<Id>, E: seq<Edge>, adj0: map<Id, seq<Id>>, deg0: map<Id, int>, keys0: seq<Id>)
    returns (adj: map<Id, seq<Id>>, deg: map<Id, int>, keys: seq<Id>)
    requires GraphOf(adj0, deg0, keys0, ids, [])
    ensures GraphOf(adj, deg, keys, ids, E)
  {
    adj, deg, keys := adj0, deg0, keys0;
    assert E[..0] == [];
    var j := 0;
    while j < |E|
      invariant 0 <= j <= |E|
      invariant AdjacencyOf(adj, E[..j])
      invariant InDegreeOf(deg, keys, E[..j])
      invariant keys == Dedup(ids + TargetSeq(E[..j]))
    {
      var edge := E[j];
      var sourceList := if edge.source in adj then adj[edge.source] else [];
      sourceList := sourceList + [edge.target];
      var targetInDegree := if edge.target in deg then deg[edge.target] else 0;
      EdgeStep(adj, deg, keys, ids, E, j, sourceList, targetInDegree);
      keys := if edge.target in deg then keys else keys + [edge.target];
      adj := adj[edge.source := sourceList];
      deg := deg[edge.target := targetInDegree + 1];
      j := j + 1;
    }
    assert E[..j] == E;
  }

  /** Entering a node id: an empty list and a zero count. */
  lemma NodeStep(adj: map<Id, seq<Id>>, deg: map<Id, int>, keys: seq<Id>, ids: seq<Id>, id: Id)
    requires GraphOf(adj, deg, keys, ids, [])
    ensures GraphOf(adj[id := []], deg[id := 0], if id in deg then keys else keys + [id], ids + [id], [])
  {
    assert ids + TargetSeq([]) == ids && (ids + [id]) + TargetSeq([]) == ids + [id];
    DedupSnoc(ids, id);
  }

  /** Entering edge `j`: its target appended to its source's list, its
      target's count raised by one. */
  lemma EdgeStep(adj: map<Id, seq<Id>>, deg: map<Id, int>, keys: seq<Id>, ids: seq<Id>, E: seq<Edge>, j: nat, list: seq<Id>, n: int)
    requires j < |E| && GraphOf(adj, deg, keys, ids, E[..j])
    requires list == (if E[j].source in adj then adj[E[j].source] else []) + [E[j].target]
    requires n == if E[j].target in deg then deg[E[j].target] else 0
    ensures GraphOf(adj[E[j].source := list], deg[E[j].target := n + 1],
      if E[j].target in deg then keys else keys + [E[j].target], ids, E[..j + 1])
  {
    AdjacencyStep(adj, E, j, list);
    InDegreeStep(deg, keys, ids, E, j, n);
    KeyOrderStep(ids, keys, if E[j].target in deg then keys else keys + [E[j].target], E, j);
  }

  lemma AdjacencyStep(adj: map<Id, seq<Id>>, E: seq<Edge>, j: nat, list: seq<Id>)
    requires j < |E| && AdjacencyOf(adj, E[..j])
    requires list == (if E[j].source in adj then adj[E[j].source] else []) + [E[j].target]
    ensures AdjacencyOf(adj[E[j].source := list], E[..j + 1])
  {
    GraphSnoc(E, j);
  }

  lemma InDegreeStep(deg: map<Id, int>, keys: seq<Id>, ids: seq<Id>, E: seq<Edge>, j: nat, n: int)
    requires j < |E| && InDegreeOf(deg, keys, E[..j]) && keys == Dedup(ids + TargetSeq(E[..j]))
    requires n == if E[j].target in deg then deg[E[j].target] else 0
    ensures InDegreeOf(deg[E[j].target := n + 1], if E[j].target in deg then keys else keys + [E[j].target], E[..j + 1])
  {
    var t := E[j].target;
    if t !in deg {
      assert t !in TargetSeq(E[..j]);
      InDegNotTarget(E[..j], t);
    }
    GraphSnoc(E, j);
  }

  /** An id that is no edge's target has in-degree 0. */
  lemma {:induction false} InDegNotTarget(E: seq<Edge>, w: Id)
    requires w !in TargetSeq(E)
    ensures InDeg(E, w) == 0
  {
    if E != [] {
      var init := E[..|E| - 1];
      assert TargetSeq(E) == TargetSeq(init) + [E[|E| - 1].target];
      InDegNotTarget(init, w);
    }
  }

  lemma KeyOrderStep(ids: seq<Id>, keys: seq<Id>, keys': seq<Id>, E: seq<Edge>, j: nat)
    requires j < |E| && keys == Dedup(ids + TargetSeq(E[..j]))
    requires keys' == if E[j].target in keys then keys else keys + [E[j].target]
    ensures keys' == Dedup(ids + TargetSeq(E[..j + 1]))
  {
    GraphSnoc(E, j);
    DedupSnoc(ids + TargetSeq(E[..j]), E[j].target);
    AppendAssoc(ids, TargetSeq(E[..j]), [E[j].target]);
  }

  /** Lines 44-48: the keys whose count is 0, in key order. */
  method ZeroKeys(keys: seq<Id>, deg: map<Id, int>, E: seq<Edge>) returns (queue: seq<Id>)
    requires forall x :: x in keys ==> x in deg && deg[x] == InDeg(E, x)
    ensures queue == Zeros(keys, E)
  {
    queue := [];
    var i := 0;
    while i < |keys|
      invariant 0 <= i <= |keys|
      invariant queue == Zeros(keys[..i], E)
    {
      var id := keys[i];
      ZerosSnoc(keys, E, i);
      if deg[id] == 0 {
        queue := queue + [id];
      }
      i := i + 1;
    }
    assert keys[..i] == keys;
  }

  lemma ZerosSnoc(keys: seq<Id>, E: seq<Edge>, i: nat)
    requires i < |keys|
    ensures Zeros(keys[..i + 1], E) == Zeros(keys[..i], E) + (if InDeg(E, keys[i]) == 0 then [keys[i]] else [])
  {
    assert keys[..i + 1][..i] == keys[..i];
  }

  /** Inserting a key into a JavaScript `Map` appends it to the key order
      unless it is already there. */
  lemma DedupSnoc(s: seq<Id>, x: Id)
    ensures Dedup(s + [x]) == if x in Dedup(s) then Dedup(s) else Dedup(s) + [x]
  {
    assert (s + [x])[..|s|] == s;
  }

  /** Successor lists and in-degrees over one more edge. */
  lemma GraphSnoc(E: seq<Edge>, j: nat)
    requires j < |E|
    ensures forall u :: Out(E[..j + 1], u) == Out(E[..j], u) + (if E[j].source == u then [E[j].target] else [])
    ensures forall w :: InDeg(E[..j + 1], w) == InDeg(E[..j], w) + (if E[j].target == w then 1 else 0)
    ensures Sources(E[..j + 1]) == Sources(E[..j]) + {E[j].source}
    ensures TargetSeq(E[..j + 1]) == TargetSeq(E[..j]) + [E[j].target]
  {
    assert E[..j + 1][..j] == E[..j];
    assert E[..j + 1] == E[..j] + [E[j]];
  }
}
