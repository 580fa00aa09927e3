/** The document shapes shared by the compiler and the editor store
    (app/types/index.ts). Layout coordinates are integers: the compiler
    only compares them. */
module Types {

  datatype Option<+T> = None | Some(value: T)

  type Id = string

  datatype Position = Position(x: int, y: int)

  /** A node's field value: a plain string or an ordered list of strings. */
  datatype Value = Str(s: string) | List(items: seq<string>)

  /** A node; `kind` is the raw type tag as stored in the document. */
  datatype Node = Node(id: Id, kind: string, position: Position, data: map<string, Value>)

  /** An edge; routing waypoints are cosmetic and not modelled. */
  datatype Edge = Edge(id: Id, source: Id, target: Id, condition: Option<string>)

  datatype Settings = Settings(
    language: Option<string>,
    joiner: Option<string>,
    previewTemplate: Option<string>,
    model: Option<string>)

  datatype FlowDoc = FlowDoc(
    id: string,
    name: string,
    nodes: seq<Node>,
    edges: seq<Edge>,
    settings: Settings,
    updatedAt: int,
    version: int)

  datatype Report = Report(missingRequired: seq<Id>, warnings: seq<string>)

  datatype CompileResult = CompileResult(compiledText: string, report: Report)

  /** The ids of a node list, in list order. */
  function NodeIds(nodes: seq<Node>): (ids: seq<Id>)
    ensures |ids| == |nodes|
    ensures forall i :: 0 <= i < |nodes| ==> ids[i] == nodes[i].id
  {
    if nodes == [] then [] else NodeIds(nodes[..|nodes| - 1]) + [nodes[|nodes| - 1].id]
  }

  /** No id occurs twice. */
  ghost predicate NoDup<T>(s: seq<T>) {
    forall i, j :: 0 <= i < j < |s| ==> s[i] != s[j]
  }

  /** Node ids are unique within the document. */
  ghost predicate UniqueNodeIds(nodes: seq<Node>) {
    NoDup(NodeIds(nodes))
  }

  /** Concatenation regroups freely. */
  lemma AppendAssoc<T>(x: seq<T>, y: seq<T>, z: seq<T>)
    ensures x + y + z == x + (y + z)
  {
  }
}
