/** What `compile` returns, as functions of the document
    (app/lib/compiler/prompt-compiler.ts, lines 160-252): the
    missing-required report, the cycle warnings, the parts contributed by
    the ordered nodes, and the joined text. The `Compiler` module's methods
    are proved equal to these functions. */
module CompilerSpec {
  import opened Types
  import opened Strings
  import opened NodeDefinitions
  import opened Render
  import opened Graph
  import opened Ordering
  import opened Kahn

  // ---------------------------------------------------------------------
  // Missing required fields (lines 164-177)

  /** A field counts as missing when it is absent, the empty string, or an
      empty list. */
  predicate IsMissing(data: map<string, Value>, key: string) {
    key !in data || data[key] == Str("") || data[key] == List([])
  }

  /** One copy of `id` for each required field of `fields` that is missing
      from `data`, in field order. */
  function MissingFields(fields: seq<FieldDef>, data: map<string, Value>, id: Id): (r: seq<Id>)
    ensures forall x :: x in r ==> x == id
  {
    if fields == [] then []
    else
      var f := fields[|fields| - 1];
      MissingFields(fields[..|fields| - 1], data, id) + (if f.required && IsMissing(data, f.key) then [id] else [])
  }

  /** What one node contributes to the report: nothing for an unknown type. */
  function MissingOf(node: Node): seq<Id> {
    match Lookup(node.kind)
    case None => []
    case Some(d) => MissingFields(d.fields, node.data, node.id)
  }

  /** The lists `f` gives for the elements of `xs`, concatenated in order. */
  function Collect<T, U>(xs: seq<T>, f: T -> seq<U>): seq<U> {
    if xs == [] then [] else Collect(xs[..|xs| - 1], f) + f(xs[|xs| - 1])
  }

  /** The `missingRequired` list, node by node. */
  function MissingRequired(nodes: seq<Node>): seq<Id> {
    Collect(nodes, MissingOf)
  }

  /** Some required field of `fields` is missing from `data`. */
  ghost predicate SomeMissing(fields: seq<FieldDef>, data: map<string, Value>) {
    exists j :: 0 <= j < |fields| && fields[j].required && IsMissing(data, fields[j].key)
  }

  /** The node's type is known and some required field of it is missing. */
  ghost predicate HasMissing(node: Node) {
    match Lookup(node.kind)
    case None => false
    case Some(d) => SomeMissing(d.fields, node.data)
  }

  /** `id` is listed once per required field that is missing. */
  lemma {:induction false} MissingFieldsCount(fields: seq<FieldDef>, data: map<string, Value>, id: Id)
    ensures |MissingFields(fields, data, id)| == |set j | 0 <= j < |fields| && fields[j].required && IsMissing(data, fields[j].key)|
  {
    var J := set j | 0 <= j < |fields| && fields[j].required && IsMissing(data, fields[j].key);
    if fields != [] {
      var n := |fields| - 1;
      var init := fields[..n];
      var J0 := set j | 0 <= j < n && init[j].required && IsMissing(data, init[j].key);
      MissingFieldsCount(init, data, id);
      if fields[n].required && IsMissing(data, fields[n].key) {
        assert J == J0 + {n};
      } else {
        assert J == J0;
      }
    }
  }

  /** `id` is listed at all exactly when some required field is missing. */
  lemma {:induction false} MissingFieldsSpec(fields: seq<FieldDef>, data: map<string, Value>, id: Id)
    ensures id in MissingFields(fields, data, id) <==> SomeMissing(fields, data)
  {
    if fields != [] {
      var n := |fields| - 1;
      var init := fields[..n];
      MissingFieldsSpec(init, data, id);
      if j :| 0 <= j < |fields| && fields[j].required && IsMissing(data, fields[j].key) {
        if j < n {
          assert init[j] == fields[j];
        }
      }
      if j :| 0 <= j < n && init[j].required && IsMissing(data, init[j].key) {
        assert fields[j] == init[j];
      }
    }
  }

  /** One node reports its own id, and only when it has a known type and a
      missing required field. */
  lemma MissingOfSpec(node: Node)
    ensures node.id in MissingOf(node) <==> HasMissing(node)
    ensures forall x :: x in MissingOf(node) ==> x == node.id
  {
    if Lookup(node.kind).Some? {
      MissingFieldsSpec(Lookup(node.kind).value.fields, node.data, node.id);
    }
  }

  lemma {:induction false} CollectMembers<T, U>(xs: seq<T>, f: T -> seq<U>, y: U)
    ensures y in Collect(xs, f) <==> exists i :: 0 <= i < |xs| && y in f(xs[i])
  {
    if xs != [] {
      var n := |xs| - 1;
      CollectMembers(xs[..n], f, y);
      if i :| 0 <= i < |xs| && y in f(xs[i]) {
        if i < n {
          assert xs[..n][i] == xs[i];
        }
      }
      if i :| 0 <= i < n && y in f(xs[..n][i]) {
        assert xs[i] == xs[..n][i];
      }
    }
  }

  /** A node id is reported exactly when some node with that id has a
      known type and a missing required field. */
  lemma MissingRequiredSpec(nodes: seq<Node>, id: Id)
    ensures id in MissingRequired(nodes) <==> exists i :: 0 <= i < |nodes| && nodes[i].id == id && HasMissing(nodes[i])
  {
    CollectMembers(nodes, MissingOf, id);
    forall i | 0 <= i < |nodes| ensures id in MissingOf(nodes[i]) <==> nodes[i].id == id && HasMissing(nodes[i]) {
      MissingOfSpec(nodes[i]);
    }
  }

  /** A persona node with no data is reported three times: for its name,
      its goals and its tone. */
  lemma EmptyPersonaReported(node: Node)
    requires node.kind == "persona" && node.data == map[]
    ensures MissingOf(node) == [node.id, node.id, node.id]
  {
    KnownTag(node.kind, Persona);
    var fs := Fields(Persona);
    var id := node.id;
    assert MissingFields(fs[..1], map[], id) == [id] by {
      assert fs[..1][..0] == [];
    }
    assert MissingFields(fs[..2], map[], id) == [id, id] by {
      assert fs[..2][..1] == fs[..1];
    }
    assert MissingFields(fs[..3], map[], id) == [id, id, id] by {
      assert fs[..3][..2] == fs[..2];
    }
    assert fs[..4][..3] == fs[..3] && fs[..4] == fs;
  }

  /** A note is reported when it has no text, although it never renders. */
  lemma EmptyNoteReported(node: Node)
    requires node.kind == "note" && "text" !in node.data
    ensures MissingOf(node) == [node.id]
  {
    var fs := Fields(Note);
    KnownTag(node.kind, Note);
    assert Lookup(node.kind) == Some(Definition(Note));
    assert |fs| == 1 && fs[0].required && fs[0].key == "text";
    assert fs[..0] == [];
    assert MissingFields(fs, node.data, node.id) == MissingFields(fs[..0], node.data, node.id) + [node.id];
  }

  // ---------------------------------------------------------------------
  // Cycle warnings (lines 179-203)

  const CyclePrefix: string := "检测到循环依赖: "

  /** Some cycle can be reached from `x` along edges. */
  ghost predicate ReachesCycle(E: seq<Edge>, x: Id) {
    HasReachableCycle(E, {x})
  }

  /** One warning per node, in node order, for each node from which a
      cycle can be reached. */
  ghost function CycleWarnings(nodes: seq<Node>, E: seq<Edge>): (w: seq<string>)
    ensures |w| <= |nodes|
  {
    if nodes == [] then []
    else
      var x := nodes[|nodes| - 1].id;
      CycleWarnings(nodes[..|nodes| - 1], E) + (if ReachesCycle(E, x) then [CyclePrefix + x] else [])
  }

  /** No warning is issued exactly when no cycle can be reached from any
      node. */
  lemma {:induction false} CycleWarningsEmpty(nodes: seq<Node>, E: seq<Edge>)
    ensures CycleWarnings(nodes, E) == [] <==> !HasReachableCycle(E, set i | 0 <= i < |nodes| :: nodes[i].id)
  {
    var ids := set i | 0 <= i < |nodes| :: nodes[i].id;
    ReachableFromSome(E, ids);
    if nodes != [] {
      var n := |nodes| - 1;
      var init := nodes[..n];
      var ids0 := set i | 0 <= i < n :: init[i].id;
      CycleWarningsEmpty(init, E);
      ReachableFromSome(E, ids0);
      assert ids == ids0 + {nodes[n].id} by {
        forall x | x in ids ensures x in ids0 + {nodes[n].id} {
          var i :| 0 <= i < |nodes| && nodes[i].id == x;
          if i < n {
            assert init[i] == nodes[i];
          }
        }
        forall x | x in ids0 ensures x in ids {
          var i :| 0 <= i < n && init[i].id == x;
          assert nodes[i] == init[i];
        }
      }
    }
  }

  /** When every edge runs between nodes of the document, no warning is
      issued exactly when the edges have no cycle at all. */
  lemma CycleWarningsAcyclic(nodes: seq<Node>, E: seq<Edge>)
    requires NoDangling(E, set i | 0 <= i < |nodes| :: nodes[i].id)
    ensures CycleWarnings(nodes, E) == [] <==> Acyclic(E)
  {
    CycleWarningsEmpty(nodes, E);
    AcyclicIffNoReachableCycle(E, set i | 0 <= i < |nodes| :: nodes[i].id);
  }

  // ---------------------------------------------------------------------
  // The compiled text (lines 208-252)

  /** What a node of the order contributes: the IF/ELSE block, the LOOP
      block, nothing for a note, and the rendered template otherwise. */
  function Content(node: Node, E: seq<Edge>, nodes: map<Id, Node>): string {
    match ParseTag(node.kind)
    case Some(IfElse) => IfElseText(node, E, nodes)
    case Some(Loop) => LoopText(node, E, nodes)
    case Some(Note) => ""
    case _ => RenderText(node)
  }

  /** What the id `x` of the order contributes: nothing when it names no
      node. */
  function PartOf(x: Id, E: seq<Edge>, nodes: map<Id, Node>): string {
    if x in nodes then Content(nodes[x], E, nodes) else ""
  }

  /** The non-empty texts `f` gives for the elements of `xs`, in order. */
  function Keep<T>(xs: seq<T>, f: T -> string): (ps: seq<string>)
    ensures forall k :: 0 <= k < |ps| ==> ps[k] != ""
  {
    if xs == [] then []
    else Keep(xs[..|xs| - 1], f) + (if f(xs[|xs| - 1]) != "" then [f(xs[|xs| - 1])] else [])
  }

  /** The `compiledParts` of an order. */
  function Parts(order: seq<Id>, E: seq<Edge>, nodes: map<Id, Node>): seq<string> {
    Keep(order, x => PartOf(x, E, nodes))
  }

  /** `settings.joiner || '\n\n'`. */
  function JoinerOf(settings: Settings): string {
    match settings.joiner
    case None => "\n\n"
    case Some(j) => if j == "" then "\n\n" else j
  }

  /** `compilePrompt(doc)`. */
  ghost function CompileSpec(doc: FlowDoc): CompileResult {
    CompileResult(
      Join(Parts(KahnSort(doc.nodes, doc.edges), doc.edges, NodeMap(doc.nodes)), JoinerOf(doc.settings)),
      Report(MissingRequired(doc.nodes), CycleWarnings(doc.nodes, doc.edges)))
  }

  lemma {:induction false} KeepMembers<T>(xs: seq<T>, f: T -> string, p: string)
    ensures p in Keep(xs, f) <==> p != "" && exists k :: 0 <= k < |xs| && f(xs[k]) == p
  {
    if xs != [] {
      var n := |xs| - 1;
      KeepMembers(xs[..n], f, p);
      if k :| 0 <= k < |xs| && f(xs[k]) == p {
        if k < n {
          assert xs[..n][k] == xs[k];
        }
      }
      if k :| 0 <= k < n && f(xs[..n][k]) == p {
        assert xs[k] == xs[..n][k];
      }
    }
  }

  /** A part is the non-empty content of a node whose id is in the order,
      and every such content is a part. */
  lemma PartsSpec(order: seq<Id>, E: seq<Edge>, nodes: map<Id, Node>, p: string)
    ensures p in Parts(order, E, nodes) <==>
      p != "" && exists k :: 0 <= k < |order| && PartOf(order[k], E, nodes) == p
  {
    KeepMembers(order, x => PartOf(x, E, nodes), p);
  }

  /** An empty document compiles to no text and an empty report. */
  lemma CompileEmpty(doc: FlowDoc)
    requires doc.nodes == [] && doc.edges == []
    ensures CompileSpec(doc) == CompileResult("", Report([], []))
  {
    var o := KahnSort(doc.nodes, doc.edges);
    KahnSortSpec(doc.nodes, doc.edges);
    assert InDegreeKeys(doc.nodes, doc.edges) == [];
    NoDupSubsetCard(o, {});
  }

  /** When node ids are unique, every edge runs between nodes and there is
      no cycle, every node's non-empty content is part of the compiled
      text. */
  lemma CompileIncludesEveryNode(doc: FlowDoc, i: nat)
    requires UniqueNodeIds(doc.nodes) && i < |doc.nodes|
    requires NoDangling(doc.edges, Elems(NodeIds(doc.nodes))) && Acyclic(doc.edges)
    requires Content(doc.nodes[i], doc.edges, NodeMap(doc.nodes)) != ""
    ensures Content(doc.nodes[i], doc.edges, NodeMap(doc.nodes)) in
      Parts(KahnSort(doc.nodes, doc.edges), doc.edges, NodeMap(doc.nodes))
  {
    var m := NodeMap(doc.nodes);
    var o := KahnSort(doc.nodes, doc.edges);
    var x := doc.nodes[i].id;
    NodeMapFinds(doc.nodes, i);
    assert x == NodeIds(doc.nodes)[i];
    KahnSortComplete(doc.nodes, doc.edges);
    var k :| 0 <= k < |o| && o[k] == x;
    PartsSpec(o, doc.edges, m, Content(doc.nodes[i], doc.edges, m));
  }
}
