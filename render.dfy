/** What the compiler prints for one node: template substitution for the
    ordinary types (app/lib/compiler/prompt-compiler.ts, lines 77-101) and
    the IF/ELSE and LOOP blocks (lines 103-158), as functions of the node,
    the edge list and the node map. The compiler's methods are proved equal
    to these functions. */
module Render {
  import opened Types
  import opened Strings
  import opened NodeDefinitions

  /** What a field contributes: an absent value gives "", a string gives
      itself, a list in a list-kind field is joined with "; ", and a list in
      any other field takes JavaScript's `String(array)`, a join with ",". */
  function FieldText(f: FieldDef, data: map<string, Value>): string {
    if f.key !in data then ""
    else match data[f.key]
      case Str(s) => s
      case List(items) => if f.kind == ListKind then Join(items, "; ") else Join(items, ",")
  }

  /** Runs the substitution loop over `fields`, first field first: each
      field with `compile` set replaces the first remaining occurrence of
      its placeholder. */
  function Substitute(template: string, fields: seq<FieldDef>, data: map<string, Value>): string
    decreases |fields|
  {
    if fields == [] then template
    else
      var f := fields[0];
      var next := if f.compile then ReplaceFirst(template, Placeholder(f.key), FieldText(f, data)) else template;
      Substitute(next, fields[1..], data)
  }

  /** `renderNode`: an unknown type renders as ""; otherwise the substituted
      template, trimmed, so the text never starts or ends with whitespace. */
  function RenderText(node: Node): (r: string)
    ensures ParseTag(node.kind).None? ==> r == ""
    ensures r == [] || (!IsWhitespace(r[0]) && !IsWhitespace(r[|r| - 1]))
  {
    match Lookup(node.kind)
    case None => ""
    case Some(d) => Trim(Substitute(d.template, d.fields, node.data))
  }

  // ---------------------------------------------------------------------
  // Closed form of the substitution

  function Texts(fields: seq<FieldDef>, data: map<string, Value>): (ts: seq<string>)
    ensures |ts| == |fields| && forall k :: 0 <= k < |fields| ==> ts[k] == FieldText(fields[k], data)
  {
    if fields == [] then [] else [FieldText(fields[0], data)] + Texts(fields[1..], data)
  }

  lemma {:induction false} JoinBraceFree(parts: seq<string>, sep: string)
    requires BraceFreeAll(parts) && BraceFree(sep)
    ensures BraceFree(Join(parts, sep))
  {
    if |parts| > 1 {
      JoinBraceFree(parts[1..], sep);
      BraceFreeAppend(parts[0], sep);
      BraceFreeAppend(parts[0] + sep, Join(parts[1..], sep));
    }
  }

  /** No string in the node's data contains a `{`. */
  ghost predicate BraceFreeData(data: map<string, Value>) {
    forall key :: key in data ==> match data[key]
      case Str(s) => BraceFree(s)
      case List(items) => BraceFreeAll(items)
  }

  lemma FieldTextBraceFree(fields: seq<FieldDef>, data: map<string, Value>)
    requires BraceFreeData(data)
    ensures BraceFreeAll(Texts(fields, data))
  {
    forall k | 0 <= k < |fields| ensures BraceFree(FieldText(fields[k], data)) {
      var f := fields[k];
      if f.key in data && data[f.key].List? {
        JoinBraceFree(data[f.key].items, "; ");
        JoinBraceFree(data[f.key].items, ",");
      }
    }
  }

  /** One substitution step: after brace-free text, the first field's
      placeholder is the first one, so it is the occurrence replaced. */
  lemma SubstituteFirst(a: string, rest: string, fields: seq<FieldDef>, data: map<string, Value>)
    requires fields != [] && fields[0].compile && BraceFree(a)
    ensures Substitute(a + Placeholder(fields[0].key) + rest, fields, data) ==
      Substitute(a + FieldText(fields[0], data) + rest, fields[1..], data)
  {
    ReplaceFirstAfterBraceFree(a, Placeholder(fields[0].key), rest, FieldText(fields[0], data));
  }

  /** Substituting brace-free values into brace-free text around the
      placeholders fills each placeholder with its own field's text. */
  lemma {:induction false} SubstituteInterleaved(pre: string, lits: seq<string>, fields: seq<FieldDef>, data: map<string, Value>)
    requires |lits| == |fields| + 1
    requires forall f :: f in fields ==> f.compile
    requires BraceFree(pre) && BraceFreeAll(lits) && BraceFreeAll(Texts(fields, data))
    ensures Substitute(pre + Interleave(lits, Marks(Keys(fields))), fields, data) ==
      pre + Interleave(lits, Texts(fields, data))
    decreases |fields|
  {
    if fields != [] {
      var v := FieldText(fields[0], data);
      var P, T := Marks(Keys(fields)), Texts(fields, data);
      var a := pre + lits[0];
      var restP, restT := Interleave(lits[1..], P[1..]), Interleave(lits[1..], T[1..]);
      assert P[1..] == Marks(Keys(fields[1..]));
      assert T[1..] == Texts(fields[1..], data);
      InterleaveFront(lits, P);
      InterleaveFront(lits, T);
      assert BraceFree(a) by { BraceFreeAppend(pre, lits[0]); }
      assert BraceFree(a + v) by { assert v == T[0]; BraceFreeAppend(a, v); }
      assert BraceFreeAll(lits[1..]) by {
        forall k | 0 <= k < |lits| - 1 ensures BraceFree(lits[1..][k]) { assert lits[1..][k] == lits[k + 1]; }
      }
      assert BraceFreeAll(T[1..]) by {
        forall k | 0 <= k < |T| - 1 ensures BraceFree(T[1..][k]) { assert T[1..][k] == T[k + 1]; }
      }
      assert forall f :: f in fields[1..] ==> f in fields;
      SubstituteFirst(a, restP, fields, data);
      SubstituteInterleaved(a + v, lits[1..], fields[1..], data);
      calc {
        Substitute(pre + Interleave(lits, P), fields, data);
        { AppendAssoc(pre, lits[0], P[0]);
          AppendAssoc(pre, lits[0] + P[0], restP); }
        Substitute(a + Placeholder(fields[0].key) + restP, fields, data);
        Substitute(a + v + restP, fields[1..], data);
        a + v + restT;
        { AppendAssoc(pre, lits[0], v);
          AppendAssoc(pre, lits[0] + v, restT); }
        pre + Interleave(lits, T);
      }
    }
  }

  /** `renderNode` looks the type up and substitutes into its template. */
  lemma RenderTextOf(node: Node, t: NodeType)
    requires ParseTag(node.kind) == Some(t)
    ensures RenderText(node) == Trim(Substitute(Template(t), Fields(t), node.data))
  {
  }

  /** When no value contains a brace, substitution fills each placeholder
      of a template with its field's text. */
  lemma SubstituteTemplate(t: NodeType, data: map<string, Value>)
    requires t != Note && BraceFreeData(data)
    ensures |Segments(t)| == |Fields(t)| + 1
    ensures Substitute(Template(t), Fields(t), data) == Interleave(Segments(t), Texts(Fields(t), data))
  {
    TemplateHoles(t);
    SegmentsBraceFree(t);
    FieldTextBraceFree(Fields(t), data);
    SubstituteInterleaved("", Segments(t), Fields(t), data);
    assert "" + Template(t) == Template(t);
    assert "" + Interleave(Segments(t), Texts(Fields(t), data)) == Interleave(Segments(t), Texts(Fields(t), data));
  }

  /** Closed form of `renderNode` for a known type other than note, when no
      value contains a brace: the template's literal text with each
      placeholder replaced by its field's text, trimmed. */
  lemma RenderClosedForm(node: Node, t: NodeType)
    requires ParseTag(node.kind) == Some(t) && t != Note
    requires BraceFreeData(node.data)
    ensures |Segments(t)| == |Fields(t)| + 1
    ensures RenderText(node) == Trim(Interleave(Segments(t), Texts(Fields(t), node.data)))
  {
    RenderTextOf(node, t);
    SubstituteTemplate(t, node.data);
  }

  /** A note never produces text, whatever its data. */
  lemma NoteRendersEmpty(node: Node)
    requires ParseTag(node.kind) == Some(Note)
    ensures RenderText(node) == ""
  {
    assert Lookup(node.kind) == Some(Definition(Note));
    assert Fields(Note)[1..] == [];
  }

  lemma Interleave1(l0: string, v0: string, l1: string)
    ensures Interleave([l0, l1], [v0]) == l0 + v0 + l1
  {
    assert [l0, l1][..1] == [l0];
  }

  lemma Interleave2(l0: string, v0: string, l1: string, v1: string, l2: string)
    ensures Interleave([l0, l1, l2], [v0, v1]) == l0 + v0 + l1 + v1 + l2
  {
    assert [l0, l1, l2][..2] == [l0, l1] && [v0, v1][..1] == [v0];
    Interleave1(l0, v0, l1);
  }

  lemma UserInputTexts(data: map<string, Value>)
    requires data == map["prompt" := Str("Hello")]
    ensures BraceFreeData(data)
    ensures Texts(Fields(UserInput), data) == ["Hello"]
  {
    assert BraceFree("Hello");
  }

  lemma UserInputString()
    ensures Trim(Interleave(Segments(UserInput), ["Hello"])) == "User Input: Hello"
  {
    var s := "User Input: Hello";
    Interleave1("User Input: ", "Hello", "");
    assert Interleave(Segments(UserInput), ["Hello"]) == s;
    assert s[0] == 'U' && s[|s| - 1] == 'o';
    TrimIdentity(s);
  }

  /** A user-input node with prompt "Hello" renders as "User Input: Hello". */
  lemma UserInputExample(node: Node)
    requires node.kind == "userInput" && node.data == map["prompt" := Str("Hello")]
    ensures RenderText(node) == "User Input: Hello"
  {
    UserInputTexts(node.data);
    KnownTag(node.kind, UserInput);
    UserInputString();
    RenderClosedForm(node, UserInput);
  }

  lemma JoinABC()
    ensures Join(["a", "b", "c"], "; ") == "a; b; c"
  {
    var abc := ["a", "b", "c"];
    assert abc[1..] == ["b", "c"] && abc[1..][1..] == ["c"];
    assert Join(abc, "; ") == "a" + "; " + ("b" + "; " + "c");
  }

  lemma TaskTexts(data: map<string, Value>)
    requires data == map["steps" := List(["a", "b", "c"])]
    ensures BraceFreeData(data)
    ensures Texts(Fields(Task), data) == ["", "a; b; c"]
  {
    assert BraceFreeAll(["a", "b", "c"]);
    JoinABC();
  }

  lemma TaskString()
    ensures Trim(Interleave(Segments(Task), ["", "a; b; c"])) == "Task:  Steps: a; b; c"
  {
    var s := "Task:  Steps: a; b; c";
    Interleave2("Task: ", "", " Steps: ", "a; b; c", "");
    assert Interleave(Segments(Task), ["", "a; b; c"]) == s;
    assert s[0] == 'T' && s[|s| - 1] == 'c';
    TrimIdentity(s);
  }

  /** Task steps are joined with "; ", and a missing objective leaves its
      place empty (two spaces remain around it). */
  lemma TaskExample(node: Node)
    requires node.kind == "task" && node.data == map["steps" := List(["a", "b", "c"])]
    ensures RenderText(node) == "Task:  Steps: a; b; c"
  {
    TaskTexts(node.data);
    KnownTag(node.kind, Task);
    TaskString();
    RenderClosedForm(node, Task);
  }

  lemma IfElseTexts(data: map<string, Value>, cond: string)
    requires data == map["conditionExpr" := Str(cond)] && BraceFree(cond)
    ensures BraceFreeData(data)
    ensures Texts(Fields(IfElse), data) == [cond]
  {
  }

  lemma IfElseString(cond: string)
    ensures Trim(Interleave(Segments(IfElse), [cond])) == "IF(" + cond + "):\n  <branch-if>\nELSE:\n  <branch-else>"
  {
    var tail := "):\n  <branch-if>\nELSE:\n  <branch-else>";
    Interleave1("IF(", cond, tail);
    var s := "IF(" + cond + tail;
    assert s[0] == "IF("[0] == 'I';
    assert s[|s| - 1] == tail[|tail| - 1] == '>';
    TrimIdentity(s);
  }

  /** Rendered by the ordinary path, an ifElse node keeps the
      `<branch-if>` and `<branch-else>` markers verbatim. */
  lemma IfElseMarkersKept(node: Node, cond: string)
    requires node.kind == "ifElse" && node.data == map["conditionExpr" := Str(cond)]
    requires BraceFree(cond)
    ensures RenderText(node) == "IF(" + cond + "):\n  <branch-if>\nELSE:\n  <branch-else>"
  {
    IfElseTexts(node.data, cond);
    KnownTag(node.kind, IfElse);
    IfElseString(cond);
    RenderClosedForm(node, IfElse);
  }

  // ---------------------------------------------------------------------
  // IF/ELSE and LOOP blocks

  /** `data[key] || dflt`: an absent or empty string falls back to `dflt`;
      an array, even an empty one, is truthy and prints joined with ",". */
  function OrDefault(data: map<string, Value>, key: string, dflt: string): (r: string)
    ensures key !in data ==> r == dflt
  {
    if key !in data then dflt
    else match data[key]
      case Str(s) => if s == "" then dflt else s
      case List(items) => Join(items, ",")
  }

  function Line(r: string): string {
    "  " + r + "\n"
  }

  /** True when edge `e` leaves `u`, carries the wanted condition (any
      condition when `cond` is None), and leads to an existing node whose
      rendering under `render` is non-empty. */
  predicate Contributes(e: Edge, u: Id, cond: Option<string>, nodes: map<Id, Node>, render: Node -> string) {
    e.source == u && (cond.None? || e.condition == cond) &&
    e.target in nodes && render(nodes[e.target]) != ""
  }

  /** One indented line per contributing edge, in edge order. */
  function BranchLines(E: seq<Edge>, u: Id, cond: Option<string>, nodes: map<Id, Node>, render: Node -> string): string
  {
    if E == [] then ""
    else
      var e := E[|E| - 1];
      BranchLines(E[..|E| - 1], u, cond, nodes, render) +
        (if Contributes(e, u, cond, nodes, render) then Line(render(nodes[e.target])) else "")
  }

  /** `renderIfElse`, given the renderer of the branch targets. */
  function IfElseBlock(node: Node, E: seq<Edge>, nodes: map<Id, Node>, render: Node -> string): string {
    "IF(" + OrDefault(node.data, "conditionExpr", "condition") + "):\n" +
    BranchLines(E, node.id, Some("if"), nodes, render) +
    "ELSE:\n" +
    BranchLines(E, node.id, Some("else"), nodes, render)
  }

  /** `renderLoop`, given the renderer of the body targets. */
  function LoopBlock(node: Node, E: seq<Edge>, nodes: map<Id, Node>, render: Node -> string): string {
    "LOOP(" + OrDefault(node.data, "times", "until condition") + "):\n" +
    BranchLines(E, node.id, None, nodes, render)
  }

  /** `renderIfElse` as the compiler runs it, with `renderNode` for the
      targets. */
  function IfElseText(node: Node, E: seq<Edge>, nodes: map<Id, Node>): string {
    IfElseBlock(node, E, nodes, RenderText)
  }

  /** `renderLoop` as the compiler runs it. */
  function LoopText(node: Node, E: seq<Edge>, nodes: map<Id, Node>): string {
    LoopBlock(node, E, nodes, RenderText)
  }

  /** Appending an edge appends its line, if it contributes one. */
  lemma BranchLinesSnoc(A: seq<Edge>, e: Edge, u: Id, cond: Option<string>, nodes: map<Id, Node>, render: Node -> string)
    ensures Contributes(e, u, cond, nodes, render) ==>
      BranchLines(A + [e], u, cond, nodes, render) == BranchLines(A, u, cond, nodes, render) + Line(render(nodes[e.target]))
    ensures !Contributes(e, u, cond, nodes, render) ==>
      BranchLines(A + [e], u, cond, nodes, render) == BranchLines(A, u, cond, nodes, render)
  {
    assert (A + [e])[..|A|] == A;
    var b := BranchLines(A, u, cond, nodes, render);
    assert b + "" == b;
  }

  /** Extending the edge prefix by `E[j]` appends that edge's line, if it
      contributes one. */
  lemma BranchStep(E: seq<Edge>, j: nat, u: Id, cond: Option<string>, nodes: map<Id, Node>, render: Node -> string)
    requires j < |E|
    ensures BranchLines(E[..j + 1], u, cond, nodes, render) == BranchLines(E[..j], u, cond, nodes, render) +
      (if Contributes(E[j], u, cond, nodes, render) then Line(render(nodes[E[j].target])) else "")
  {
    var b := BranchLines(E[..j], u, cond, nodes, render);
    BranchLinesSnoc(E[..j], E[j], u, cond, nodes, render);
    assert E[..j + 1] == E[..j] + [E[j]];
    assert b + "" == b;
  }

  /** The lines of a concatenation of edge lists are the lines of each, in
      order. */
  lemma {:induction false} BranchLinesAppend(A: seq<Edge>, B: seq<Edge>, u: Id, cond: Option<string>, nodes: map<Id, Node>, render: Node -> string)
    ensures BranchLines(A + B, u, cond, nodes, render) == BranchLines(A, u, cond, nodes, render) + BranchLines(B, u, cond, nodes, render)
  {
    if B == [] {
      assert A + B == A;
    } else {
      var B0, e := B[..|B| - 1], B[|B| - 1];
      var x := if Contributes(e, u, cond, nodes, render) then Line(render(nodes[e.target])) else "";
      BranchLinesAppend(A, B0, u, cond, nodes, render);
      assert (A + B)[..|A + B| - 1] == A + B0 && (A + B)[|A + B| - 1] == e;
      calc {
        BranchLines(A + B, u, cond, nodes, render);
        BranchLines(A + B0, u, cond, nodes, render) + x;
        BranchLines(A, u, cond, nodes, render) + BranchLines(B0, u, cond, nodes, render) + x;
        { AppendAssoc(BranchLines(A, u, cond, nodes, render), BranchLines(B0, u, cond, nodes, render), x); }
        BranchLines(A, u, cond, nodes, render) + (BranchLines(B0, u, cond, nodes, render) + x);
        BranchLines(A, u, cond, nodes, render) + BranchLines(B, u, cond, nodes, render);
      }
    }
  }

  /** An edge that does not contribute can sit anywhere in the list without
      changing the lines. */
  lemma BranchLinesSkip(A: seq<Edge>, e: Edge, B: seq<Edge>, u: Id, cond: Option<string>, nodes: map<Id, Node>, render: Node -> string)
    requires !Contributes(e, u, cond, nodes, render)
    ensures BranchLines(A + [e] + B, u, cond, nodes, render) == BranchLines(A + B, u, cond, nodes, render)
  {
    BranchLinesAppend(A + [e], B, u, cond, nodes, render);
    BranchLinesAppend(A, B, u, cond, nodes, render);
    BranchLinesSnoc(A, e, u, cond, nodes, render);
  }

  /** Edges from other nodes, edges with another or no condition, and edges
      to missing or empty-rendering targets leave the IF/ELSE block as it
      was. */
  lemma IfElseIgnores(node: Node, A: seq<Edge>, e: Edge, B: seq<Edge>, nodes: map<Id, Node>, render: Node -> string)
    requires e.source != node.id || e.condition !in {Some("if"), Some("else")} ||
             e.target !in nodes || render(nodes[e.target]) == ""
    ensures IfElseBlock(node, A + [e] + B, nodes, render) == IfElseBlock(node, A + B, nodes, render)
  {
    BranchLinesSkip(A, e, B, node.id, Some("if"), nodes, render);
    BranchLinesSkip(A, e, B, node.id, Some("else"), nodes, render);
  }

  /** An "if" edge to a target rendering `r` adds the line `  r` to the IF
      part, after the lines of the earlier edges; the ELSE part is
      unchanged. */
  lemma IfEdgeAddsLine(node: Node, A: seq<Edge>, e: Edge, nodes: map<Id, Node>, render: Node -> string)
    requires e.source == node.id && e.condition == Some("if")
    requires e.target in nodes && render(nodes[e.target]) != ""
    ensures IfElseBlock(node, A + [e], nodes, render) ==
      "IF(" + OrDefault(node.data, "conditionExpr", "condition") + "):\n" +
      (BranchLines(A, node.id, Some("if"), nodes, render) + Line(render(nodes[e.target]))) +
      "ELSE:\n" + BranchLines(A, node.id, Some("else"), nodes, render)
  {
    BranchLinesSnoc(A, e, node.id, Some("if"), nodes, render);
    BranchLinesSnoc(A, e, node.id, Some("else"), nodes, render);
  }

  /** An "else" edge adds its line to the ELSE part only. */
  lemma ElseEdgeAddsLine(node: Node, A: seq<Edge>, e: Edge, nodes: map<Id, Node>, render: Node -> string)
    requires e.source == node.id && e.condition == Some("else")
    requires e.target in nodes && render(nodes[e.target]) != ""
    ensures IfElseBlock(node, A + [e], nodes, render) ==
      "IF(" + OrDefault(node.data, "conditionExpr", "condition") + "):\n" +
      BranchLines(A, node.id, Some("if"), nodes, render) +
      "ELSE:\n" + (BranchLines(A, node.id, Some("else"), nodes, render) + Line(render(nodes[e.target])))
  {
    BranchLinesSnoc(A, e, node.id, Some("if"), nodes, render);
    BranchLinesSnoc(A, e, node.id, Some("else"), nodes, render);
  }

  /** A loop takes every outgoing edge whatever its condition. */
  lemma LoopIgnoresCondition(node: Node, A: seq<Edge>, e: Edge, B: seq<Edge>, c: Option<string>, nodes: map<Id, Node>, render: Node -> string)
    ensures LoopBlock(node, A + [e] + B, nodes, render) == LoopBlock(node, A + [e.(condition := c)] + B, nodes, render)
  {
    var e' := e.(condition := c);
    BranchLinesAppend(A + [e], B, node.id, None, nodes, render);
    BranchLinesAppend(A + [e'], B, node.id, None, nodes, render);
    BranchLinesSnoc(A, e, node.id, None, nodes, render);
    BranchLinesSnoc(A, e', node.id, None, nodes, render);
  }
}
