/** The static node-type registry (app/lib/node-definitions.ts): for each of
    the ten type tags, its ordered field schema and its text template.
    Presentation attributes (label, description, icon, colour, placeholder)
    are not part of the model. */
module NodeDefinitions {
  import opened Types
  import opened Strings

  /** The closed set of node-type tags. */
  datatype NodeType =
    | Persona | Context | UserInput | System | Task
    | IfElse | Loop | Format | Structured | Note

  /** The editor widget kind of a field; only `ListKind` matters when rendering. */
  datatype FieldKind = Text | TextArea | ListKind | Select

  datatype FieldDef = FieldDef(key: string, kind: FieldKind, required: bool, options: seq<string>, compile: bool)

  datatype NodeDefinition = NodeDefinition(kind: NodeType, fields: seq<FieldDef>, template: string)

  /** The tag under which each type appears in documents and in the registry. */
  function TagName(t: NodeType): string {
    match t
    case Persona => "persona"
    case Context => "context"
    case UserInput => "userInput"
    case System => "system"
    case Task => "task"
    case IfElse => "ifElse"
    case Loop => "loop"
    case Format => "format"
    case Structured => "structured"
    case Note => "note"
  }

  /** The registry's types in declaration order. */
  const Registry: seq<NodeType> := [Persona, Context, UserInput, System, Task, IfElse, Loop, Format, Structured, Note]

  /** The first type of `ts` registered under `tag`. */
  function FindTag(tag: string, ts: seq<NodeType>): Option<NodeType> {
    if ts == [] then None
    else if TagName(ts[0]) == tag then Some(ts[0])
    else FindTag(tag, ts[1..])
  }

  /** Reads a document's type tag against the registry; any other string
      is unknown. */
  function ParseTag(tag: string): Option<NodeType> {
    FindTag(tag, Registry)
  }

  lemma {:induction false} FindTagSpec(tag: string, ts: seq<NodeType>)
    ensures FindTag(tag, ts).Some? <==> exists i :: 0 <= i < |ts| && TagName(ts[i]) == tag
    ensures FindTag(tag, ts).Some? ==> TagName(FindTag(tag, ts).value) == tag
  {
    if ts != [] && TagName(ts[0]) != tag {
      FindTagSpec(tag, ts[1..]);
      if i :| 0 <= i < |ts| && TagName(ts[i]) == tag {
        assert ts[1..][i - 1] == ts[i];
      }
    }
  }

  /** A tag is known exactly when it is the tag of one of the registered
      types, and it reads back as the type it names. */
  lemma ParseTagSpec(tag: string)
    ensures ParseTag(tag).Some? <==> exists t :: TagName(t) == tag
    ensures ParseTag(tag).Some? ==> TagName(ParseTag(tag).value) == tag
  {
    FindTagSpec(tag, Registry);
    if t :| TagName(t) == tag {
      TagRoundTrip(t);
    }
  }

  function Field(key: string, kind: FieldKind, required: bool): FieldDef {
    FieldDef(key, kind, required, [], true)
  }

  function Choice(key: string, options: seq<string>): FieldDef {
    FieldDef(key, Select, true, options, true)
  }

  /** The registry entry of a type. */
  function Definition(t: NodeType): (d: NodeDefinition)
    ensures d.kind == t && d.fields == Fields(t) && d.template == Template(t)
  {
    NodeDefinition(t, Fields(t), Template(t))
  }

  /** The ordered field schema of a type. Every type has a required first
      field, and every select field offers some options. */
  function Fields(t: NodeType): (fs: seq<FieldDef>)
    ensures |fs| > 0 && fs[0].required
    ensures forall i :: 0 <= i < |fs| && fs[i].kind == Select ==> |fs[i].options| > 0
  {
    match t
    case Persona => [
      Field("name", Text, true),
      Field("goals", ListKind, true),
      Choice("tone", ["professional", "friendly", "casual", "formal", "creative"]),
      Field("constraints", TextArea, false)]
    case Context => [
      Field("background", TextArea, true),
      Field("audience", Text, false),
      Field("references", ListKind, false)]
    case UserInput => [Field("prompt", TextArea, true)]
    case System => [Field("content", TextArea, true)]
    case Task => [Field("objective", Text, true), Field("steps", ListKind, true)]
    case IfElse => [Field("conditionExpr", Text, true)]
    case Loop => [Field("times", Text, true)]
    case Format => [
      Choice("style", ["plain", "markdown", "bullets", "essay", "code"]),
      Choice("length", ["tight", "medium", "detailed"])]
    case Structured => [Field("schema", TextArea, true)]
    case Note => [FieldDef("text", TextArea, true, [], false)]
  }

  /** The marker `{{key}}` a template carries for field `key`. */
  function Placeholder(key: string): string {
    "{{" + key + "}}"
  }

  /** The markers of a list of keys, in order. */
  function Marks(keys: seq<string>): (ms: seq<string>)
    ensures |ms| == |keys| && forall k :: 0 <= k < |keys| ==> ms[k] == Placeholder(keys[k])
  {
    if keys == [] then [] else [Placeholder(keys[0])] + Marks(keys[1..])
  }

  /** The literal text of each template, cut at its placeholders. */
  function Segments(t: NodeType): seq<string> {
    match t
    case Persona => ["You are ", ". Goals: ", ". Tone: ", ". ", ""]
    case Context => ["Context: ", " Audience: ", " ", ""]
    case UserInput => ["User Input: ", ""]
    case System => ["[System] ", ""]
    case Task => ["Task: ", " Steps: ", ""]
    case IfElse => ["IF(", "):\n  <branch-if>\nELSE:\n  <branch-else>"]
    case Loop => ["LOOP(", "):\n  <body>"]
    case Format => ["Output as ", ", length ", ""]
    case Structured => ["Return ONLY valid JSON matching schema: ", ""]
    case Note => [""]
  }

  /** The keys of each template's placeholders, in the order they appear. */
  function Holes(t: NodeType): (keys: seq<string>)
    ensures |Segments(t)| == |keys| + 1
  {
    match t
    case Persona => ["name", "goals", "tone", "constraints"]
    case Context => ["background", "audience", "references"]
    case UserInput => ["prompt"]
    case System => ["content"]
    case Task => ["objective", "steps"]
    case IfElse => ["conditionExpr"]
    case Loop => ["times"]
    case Format => ["style", "length"]
    case Structured => ["schema"]
    case Note => []
  }

  /** The text template of a type: its segments with `{{key}}` between
      them, e.g. "User Input: {{prompt}}". */
  function Template(t: NodeType): string {
    Interleave(Segments(t), Marks(Holes(t)))
  }

  /** The fields that take part in substitution, in order. */
  function Compiled(fields: seq<FieldDef>): (cs: seq<FieldDef>)
    ensures forall k :: 0 <= k < |cs| ==> cs[k].compile && cs[k] in fields
  {
    if fields == [] then []
    else (if fields[0].compile then [fields[0]] else []) + Compiled(fields[1..])
  }

  function Keys(fields: seq<FieldDef>): (ks: seq<string>)
    ensures |ks| == |fields| && forall k :: 0 <= k < |fields| ==> ks[k] == fields[k].key
  {
    if fields == [] then [] else [fields[0].key] + Keys(fields[1..])
  }

  /** `NODE_DEFINITIONS[tag]`: present exactly for the ten tags, and the
      entry found under a tag is the entry of that tag. */
  function Lookup(tag: string): (r: Option<NodeDefinition>)
  {
    match ParseTag(tag)
    case None => None
    case Some(t) => Some(Definition(t))
  }

  /** Within an entry, no two fields share a key. */
  lemma DistinctKeys(t: NodeType, i: nat, j: nat)
    requires i < j < |Fields(t)|
    ensures Fields(t)[i].key != Fields(t)[j].key
  {
    match t
    case Persona =>
    case Context =>
    case Task =>
    case Format =>
    case _ =>
  }

  /** The search stops at the first type registered under `tag`. */
  lemma {:induction false} FindTagFirst(tag: string, ts: seq<NodeType>, i: nat)
    requires i < |ts| && TagName(ts[i]) == tag
    requires forall j :: 0 <= j < i ==> TagName(ts[j]) != tag
    ensures FindTag(tag, ts) == Some(ts[i])
  {
    if i > 0 {
      FindTagFirst(tag, ts[1..], i - 1);
    }
  }

  /** Every type's tag parses back to that type. */
  lemma TagRoundTrip(t: NodeType)
    ensures ParseTag(TagName(t)) == Some(t)
  {
    var i := match t
      case Persona => 0 case Context => 1 case UserInput => 2 case System => 3
      case Task => 4 case IfElse => 5 case Loop => 6 case Format => 7
      case Structured => 8 case Note => 9;
    assert Registry[i] == t;
    FindTagFirst(TagName(t), Registry, i);
  }

  /** A document carrying the tag of `t` has type `t`. */
  lemma KnownTag(tag: string, t: NodeType)
    requires tag == TagName(t)
    ensures ParseTag(tag) == Some(t)
  {
    TagRoundTrip(t);
  }

  /** Reading the registry under a type's tag gives that type's entry. */
  lemma LookupDefinition(t: NodeType)
    ensures Lookup(TagName(t)) == Some(Definition(t))
    ensures Lookup(TagName(t)).value.kind == t
  {
    TagRoundTrip(t);
  }

  /** The registry has an entry exactly under the ten tags, and the entry
      found under a tag is the entry of the type carrying that tag. */
  lemma LookupSpec(tag: string)
    ensures Lookup(tag).Some? <==> exists t :: TagName(t) == tag
    ensures Lookup(tag).Some? ==>
      && TagName(Lookup(tag).value.kind) == tag
      && Lookup(tag).value.fields == Fields(Lookup(tag).value.kind)
      && Lookup(tag).value.template == Template(Lookup(tag).value.kind)
  {
    ParseTagSpec(tag);
  }

  /** No two types share a tag: the registry has ten distinct keys. */
  lemma TagNameInjective(a: NodeType, b: NodeType)
    requires TagName(a) == TagName(b)
    ensures a == b
  {
    TagRoundTrip(a);
    TagRoundTrip(b);
  }

  /** The list-kind fields are exactly persona.goals, context.references
      and task.steps. */
  lemma ListFields(t: NodeType, i: nat)
    requires i < |Fields(t)|
    ensures Fields(t)[i].kind == ListKind <==>
      || (t == Persona && Fields(t)[i].key == "goals")
      || (t == Context && Fields(t)[i].key == "references")
      || (t == Task && Fields(t)[i].key == "steps")
  {
    match t
    case Persona =>
    case Context =>
    case Task =>
    case _ =>
  }

  /** The optional fields are exactly persona.constraints, context.audience
      and context.references. */
  lemma OptionalFields(t: NodeType, i: nat)
    requires i < |Fields(t)|
    ensures !Fields(t)[i].required <==>
      || (t == Persona && Fields(t)[i].key == "constraints")
      || (t == Context && Fields(t)[i].key in {"audience", "references"})
  {
    match t
    case Persona =>
    case Context =>
    case _ =>
  }

  /** Only the note's single field stays out of compilation, and the note
      template is empty. */
  lemma NoteIsInert(t: NodeType, i: nat)
    requires i < |Fields(t)|
    ensures !Fields(t)[i].compile <==> t == Note
    ensures t == Note ==> |Fields(t)| == 1 && Template(t) == ""
  {
    match t
    case Note =>
    case _ =>
  }

  /** The placeholders of every template are exactly the keys of the
      entry's compiled fields, each once and in field order; every field
      but the note's is compiled. */
  lemma TemplateHoles(t: NodeType)
    ensures Holes(t) == Keys(Compiled(Fields(t)))
    ensures t != Note ==> Compiled(Fields(t)) == Fields(t)
  {
    var fs := Fields(t);
    if t == Note {
      assert fs[1..] == [];
    } else {
      assert forall f :: f in fs ==> f.compile by {
        forall f | f in fs ensures f.compile {
          var i :| 0 <= i < |fs| && fs[i] == f;
          NoteIsInert(t, i);
        }
      }
      CompiledAll(fs);
      HolesAreKeys(t);
    }
  }

  lemma HolesAreKeys(t: NodeType)
    requires t != Note
    ensures Holes(t) == Keys(Fields(t))
  {
    var ks := Keys(Fields(t));
    match t
    case Persona => assert ks == ["name", "goals", "tone", "constraints"];
    case Context => assert ks == ["background", "audience", "references"];
    case UserInput => assert ks == ["prompt"];
    case System => assert ks == ["content"];
    case Task => assert ks == ["objective", "steps"];
    case IfElse => assert ks == ["conditionExpr"];
    case Loop => assert ks == ["times"];
    case Format => assert ks == ["style", "length"];
    case Structured => assert ks == ["schema"];
  }

  lemma {:induction false} CompiledAll(fs: seq<FieldDef>)
    requires forall f :: f in fs ==> f.compile
    ensures Compiled(fs) == fs
  {
    if fs != [] {
      assert forall f :: f in fs[1..] ==> f in fs;
      CompiledAll(fs[1..]);
    }
  }

  /** No literal text of a template contains a brace, so the only braces in
      a template are those of its placeholders. */
  lemma SegmentsBraceFree(t: NodeType)
    ensures BraceFreeAll(Segments(t))
  {
    match t
    case Persona => PersonaSegments();
    case Context => ContextSegments();
    case UserInput => UserInputSegments();
    case System => SystemSegments();
    case Task => TaskSegments();
    case IfElse => IfElseSegments();
    case Loop => LoopSegments();
    case Format => FormatSegments();
    case Structured => StructuredSegments();
    case Note =>
  }

  lemma PersonaSegments() ensures BraceFreeAll(Segments(Persona)) {}
  lemma ContextSegments() ensures BraceFreeAll(Segments(Context)) {}
  lemma UserInputSegments() ensures BraceFreeAll(Segments(UserInput)) {}
  lemma SystemSegments() ensures BraceFreeAll(Segments(System)) {}
  lemma TaskSegments() ensures BraceFreeAll(Segments(Task)) {}
  lemma IfElseSegments() ensures BraceFreeAll(Segments(IfElse)) {}
  lemma LoopSegments() ensures BraceFreeAll(Segments(Loop)) {}
  lemma FormatSegments() ensures BraceFreeAll(Segments(Format)) {}
  lemma StructuredSegments() ensures BraceFreeAll(Segments(Structured)) {}
}
