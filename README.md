# prompttool core in Dafny

This project models the core of *prompttool*, a visual editor in which a user
wires typed prompt fragments (persona, context, user input, system, task,
if/else, loop, output format, structured output, note) into a directed graph.
The model covers three parts.

- **Prompt compiler** (`app/lib/compiler/prompt-compiler.ts`), in
  `compiler.dfy`. It turns the graph into one linear prompt plus a validation
  report.
  - `PromptCompiler` is a Dafny class with the same private state: the node
    map, the edge list, the adjacency lists, the in-degree map and the
    in-degree map's key order.
  - Its methods are `BuildGraph`, `TopologicalSort`, `RenderNode`,
    `RenderIfElse`, `RenderLoop`, `ValidateNodes` and `Compile`. Each of them,
    or the helper it calls, is a loop with invariants.
  - Each method is proved equal to a reference function:
    - `KahnSort` in `kahn.dfy`;
    - `RenderText`, `IfElseText` and `LoopText` in `render.dfy`;
    - `MissingRequired`, `CycleWarnings` and `CompileSpec` in
      `compiler_spec.dfy`.
  - The recursive `hasCycle` closure is in `cycles.dfy`.
  - Graph facts (paths, cycles, in-degrees) are in `graph.dfy`.
  - The layout-ordered frontier and the node map are in `ordering.dfy`.
- **Node-type registry** (`app/lib/node-definitions.ts`), in
  `node_definitions.dfy`. It holds the ten node types, their ordered field
  schemas and their templates. A template is kept as literal segments
  interleaved with `{{key}}` placeholders.
- **Editor store** (`app/lib/store/flow-store.ts`), in `store.dfy`.
  - `FlowStore` is a class whose actions overwrite the fields `doc`,
    `selectedNodeId`, `selectedEdgeId`, `history` and `historyIndex`.
  - The list edits (`filter`/`map`) and the history operations are functions.
    Lemmas cover them: the history bound, undo/redo round trips, and cascade
    deletion.

Shared shapes live in `types.dfy` (`app/types/index.ts`). String utilities live
in `strings.dfy`: JavaScript `trim`, first-occurrence `replace`, and `join`.

The code behaves as follows in three places a reader may not expect, and the
model does the same:

- The cycle search shares `visited` and `recStack` across all top-level calls.
  When it returns true it leaves its stack marks in place. The warning list
  therefore names every document node from which a cycle can be reached, not
  only the nodes on a cycle (`CycleWarningsEmpty`, `Cycles.HasCycle`).
- The topological order drops the nodes on a cycle and also every node
  downstream of one (`Kahn.KahnSortExcludesCycles`).
- A dangling edge target still becomes a key of the in-degree map. It can then
  appear in the order once its in-degree reaches 0. Compilation skips it
  because it has no node.

## Model

| member | source | states |
|---|---|---|
| Compiler.PromptCompiler.constructor | app/lib/compiler/prompt-compiler.ts:11-18 | builds the node map and graph of the document and establishes the class invariant (adjacency lists, in-degrees and key order are those of the document) |
| Compiler.PromptCompiler.BuildGraph | app/lib/compiler/prompt-compiler.ts:20-36 | afterwards every node and edge source has its successor list in edge order, every key's in-degree is its count of incoming edges, and the keys are the node ids then the new edge targets in first-insertion order |
| Compiler.NodeLists | app/lib/compiler/prompt-compiler.ts:22-25 | the node pass gives every node id an empty successor list and in-degree 0 |
| Compiler.EdgeLists | app/lib/compiler/prompt-compiler.ts:28-35 | the edge pass appends each target to its source's list and raises the target's in-degree, including for ids without a node |
| Compiler.InDegreeOfIsInDegrees | app/lib/compiler/prompt-compiler.ts:20-36 | the in-degree map built in place equals the in-degree function of nodes and edges |
| Compiler.PromptCompiler.TopologicalSort | app/lib/compiler/prompt-compiler.ts:38-75 | returns exactly the Kahn order `KahnSort` of the document |
| Compiler.ZeroKeys | app/lib/compiler/prompt-compiler.ts:44-48 | the initial queue is the in-degree-0 keys in map-key order |
| Compiler.ReleaseAll | app/lib/compiler/prompt-compiler.ts:64-71 | the neighbor loop decrements each successor once per edge and enqueues it when its count reaches 0 |
| Kahn.InDegrees | app/lib/compiler/prompt-compiler.ts:20-36 | the in-degree map's keys are the node ids and edge targets, each mapped to its number of incoming edges |
| Kahn.Release | app/lib/compiler/prompt-compiler.ts:64-71 | the neighbor loop as a function: each successor, in list order, loses one unit and joins the queue when it reaches 0; the key set is kept. ReleaseCounts, ReleaseAdded and ReleaseAddedOnce state its effect |
| Kahn.Step | app/lib/compiler/prompt-compiler.ts:60-72 | one round: dequeue the head, emit it, release its successors; the key set is kept. StepInv states what a round preserves |
| Kahn.Drain | app/lib/compiler/prompt-compiler.ts:60-72 | the while loop, run until the queue is empty, under a round bound that DrainSpec shows always suffices |
| Kahn.Start | app/lib/compiler/prompt-compiler.ts:39-58 | the starting state of the loop: a copy of the in-degree map, an empty result, and the sorted frontier as queue |
| Kahn.KahnSort | app/lib/compiler/prompt-compiler.ts:38-75 | `topologicalSort` as a function of the document. KahnSortSpec, KahnSortOrdersEdges, KahnSortComplete and KahnSortExcludesCycles state its properties |
| Kahn.ReleaseCounts | app/lib/compiler/prompt-compiler.ts:64-71 | releasing a successor list lowers each count by that id's multiplicity in the list |
| Kahn.ReleaseAdded | app/lib/compiler/prompt-compiler.ts:64-71 | an id is enqueued by a release exactly when its count falls to 0 |
| Kahn.ReleaseAddedOnce | app/lib/compiler/prompt-compiler.ts:64-71 | a release enqueues no id twice |
| Kahn.StepInv | app/lib/compiler/prompt-compiler.ts:60-72 | one dequeue step keeps the result and queue duplicate-free and within the keys, keeps every emitted id after its predecessors, and grows the result by one |
| Kahn.DrainSpec | app/lib/compiler/prompt-compiler.ts:60-72 | the loop terminates within `|keys|` steps with a duplicate-free order of keys in which every edge's source precedes its target, and nothing left out is ready |
| Kahn.KahnSortSpec | app/lib/compiler/prompt-compiler.ts:38-75 | the order has no duplicates, lists only in-degree keys, starts with the sorted frontier, respects every edge, and is closed |
| Kahn.KahnSortOrdersEdges | app/lib/compiler/prompt-compiler.ts:60-72 | when both ends of an edge are output, the source comes first |
| Kahn.KahnSortComplete | app/lib/compiler/prompt-compiler.ts:38-75 | without cycles or dangling edges, every node id is output |
| Kahn.KahnSortExcludesCycles | app/lib/compiler/prompt-compiler.ts:38-75 | no id on a cycle, or reachable from one, is ever output |
| Kahn.ZeroKeysAreNodes | app/lib/compiler/prompt-compiler.ts:44-48 | an in-degree-0 key is always a node id, so the comparator never reads a missing node |
| Kahn.TargetsAreKeys | app/lib/compiler/prompt-compiler.ts:28-35 | every edge target and node id is a key of the in-degree map |
| Ordering.NodeMap | app/lib/compiler/prompt-compiler.ts:13 | the map's keys are exactly the node ids, and each maps to a node of the list carrying that id |
| Ordering.NodeMapFinds | app/lib/compiler/prompt-compiler.ts:13 | with unique ids, each node is found under its own id |
| Ordering.Dedup | app/lib/compiler/prompt-compiler.ts:22-35 | map-key order holds exactly the inserted ids |
| Ordering.DedupNoDup | app/lib/compiler/prompt-compiler.ts:22-35 | map-key order holds each key once |
| Ordering.Zeros | app/lib/compiler/prompt-compiler.ts:44-48 | the filtered keys are exactly those with in-degree 0 |
| Ordering.InDegreeKeys | app/lib/compiler/prompt-compiler.ts:20-36 | the key order of the in-degree map: node ids, then edge targets that are new, by first insertion. Dedup and DedupNoDup state its contents |
| Ordering.Frontier | app/lib/compiler/prompt-compiler.ts:43-58 | the in-degree-0 keys in key order, sorted by position. FrontierSpec states its properties |
| Ordering.SortBy | app/lib/compiler/prompt-compiler.ts:51-58 | the comparator sort as a stable insertion sort. SortByPosition, InsertSorted and SortStable state that it permutes, sorts and keeps ties in order |
| Ordering.SortByPosition | app/lib/compiler/prompt-compiler.ts:51-58 | the sorted queue is a permutation of the queue, ordered by y and then x |
| Ordering.InsertSorted | app/lib/compiler/prompt-compiler.ts:51-58 | inserting into a sorted queue keeps it sorted |
| Ordering.InsertStable | app/lib/compiler/prompt-compiler.ts:51-58 | insertion puts a new element after every element at the same position |
| Ordering.SortStable | app/lib/compiler/prompt-compiler.ts:51-58 | the sort is stable: elements at equal positions keep their input order |
| Ordering.FrontierSpec | app/lib/compiler/prompt-compiler.ts:43-58 | the initial queue is exactly the in-degree-0 node ids, without duplicates, sorted, and in key order within each position |
| Ordering.ZerosSkipTargets | app/lib/compiler/prompt-compiler.ts:44-48 | edge targets never join the initial queue |
| Graph.InDegPositive | app/lib/compiler/prompt-compiler.ts:33-34 | every edge target has positive in-degree |
| Graph.EdgeInOut | app/lib/compiler/prompt-compiler.ts:29-31 | every edge's target is in its source's successor list |
| Graph.OutCount | app/lib/compiler/prompt-compiler.ts:29-31 | a successor list holds a target once per edge from that source |
| Graph.AcyclicIffNoReachableCycle | app/lib/compiler/prompt-compiler.ts:183-203 | with no dangling edges, the graph is acyclic exactly when no cycle can be reached from a node |
| Graph.PathPrecedes | app/lib/compiler/prompt-compiler.ts:60-72 | in an edge-respecting order, a path's start precedes its end |
| Graph.DownstreamOfCycleExcluded | app/lib/compiler/prompt-compiler.ts:60-72 | an edge-respecting duplicate-free order contains no node reachable from a cycle |
| Graph.KahnComplete | app/lib/compiler/prompt-compiler.ts:60-72 | on an acyclic graph, a closed order contains every key |
| Graph.NoCycleFromSuccessors | app/lib/compiler/prompt-compiler.ts:190-196 | if no successor reaches a cycle, neither does the node |
| Graph.ReachPrepend | app/lib/compiler/prompt-compiler.ts:191-192 | a node whose successor reaches a cycle reaches one too |
| Graph.NextReachesCycle | app/lib/compiler/prompt-compiler.ts:190-193 | a walk from a node into a cycle passes through a successor that reaches the cycle |
| Graph.RevisitReachesCycle | app/lib/compiler/prompt-compiler.ts:184 | a path that revisits a node closes a cycle |
| Cycles.HasCycle | app/lib/compiler/prompt-compiler.ts:183-197 | returns true exactly when a cycle is reachable from the id, marks the id visited, and on false leaves the stack as it found it; the shared-set invariant is kept |
| Cycles.Explore | app/lib/compiler/prompt-compiler.ts:187-194 | the neighbor loop returns true only when a cycle is reachable, and otherwise leaves every successor visited and unmarked |
| Cycles.Unmark | app/lib/compiler/prompt-compiler.ts:195-196 | clearing the mark of a node whose successors are all finished keeps the invariant, and the node reaches no cycle |
| Cycles.LeaveMarked | app/lib/compiler/prompt-compiler.ts:192 | an early true return may leave the mark because the node reaches a cycle |
| Cycles.Revisit | app/lib/compiler/prompt-compiler.ts:184 | meeting a node still on the recursion path means a cycle is reachable from it |
| Compiler.PromptCompiler.RenderNode | app/lib/compiler/prompt-compiler.ts:77-101 | the field loop produces exactly `RenderText(node)` |
| Render.RenderText | app/lib/compiler/prompt-compiler.ts:77-101 | an unknown type renders as ""; the result never starts or ends with whitespace |
| Render.SubstituteTemplate | app/lib/compiler/prompt-compiler.ts:85-98 | when no value holds a brace, substitution fills each placeholder with its field's text |
| Render.SubstituteInterleaved | app/lib/compiler/prompt-compiler.ts:85-98 | replacing placeholders one at a time, first occurrence first, gives the segments interleaved with the texts |
| Render.RenderClosedForm | app/lib/compiler/prompt-compiler.ts:77-101 | closed form of a rendering: trimmed segments interleaved with field texts |
| Render.NoteRendersEmpty | app/lib/compiler/prompt-compiler.ts:77-101 | a note renders as "" whatever its data |
| Render.Texts | app/lib/compiler/prompt-compiler.ts:87-96 | one text per field: absent or "" gives "", a list in a list field is joined with "; ", another list is joined with ",", a string is itself |
| Render.FieldText | app/lib/compiler/prompt-compiler.ts:86-96 | what one compiled field puts into the template: "" when absent or "", a list in a list field joined with "; ", another list joined with ",", a string as itself. FieldTextBraceFree and Texts rely on it |
| Render.Substitute | app/lib/compiler/prompt-compiler.ts:85-98 | the field loop as a function: the compiled fields, in order, each replace the first remaining occurrence of their placeholder. SubstituteInterleaved and SubstituteTemplate give its closed form |
| Render.FieldTextBraceFree | app/lib/compiler/prompt-compiler.ts:87-96 | brace-free values give brace-free texts |
| Render.UserInputExample | app/lib/compiler/prompt-compiler.ts:77-101 | a userInput node with prompt "Hello" renders as "User Input: Hello" |
| Render.TaskExample | app/lib/compiler/prompt-compiler.ts:77-101 | a task node with steps a, b, c and no objective renders as "Task:  Steps: a; b; c" |
| Render.IfElseMarkersKept | app/lib/compiler/prompt-compiler.ts:77-101 | an ifElse node rendered as a branch target keeps its literal `<branch-if>`/`<branch-else>` markers |
| Render.OrDefault | app/lib/compiler/prompt-compiler.ts:111 | an absent field gives the default text |
| Compiler.PromptCompiler.RenderBranch | app/lib/compiler/prompt-compiler.ts:113-122 | the branch loop yields one indented line per matching edge with an existing, non-empty target, in edge order |
| Compiler.PromptCompiler.BranchPiece | app/lib/compiler/prompt-compiler.ts:115-121 | one edge adds its target's line exactly when it contributes |
| Compiler.PromptCompiler.RenderIfElse | app/lib/compiler/prompt-compiler.ts:103-138 | the result is the IF header, the if-branch lines, "ELSE:", then the else-branch lines |
| Compiler.PromptCompiler.RenderLoop | app/lib/compiler/prompt-compiler.ts:140-158 | the result is the LOOP header and one line per outgoing edge, whatever its condition |
| Render.BranchLinesAppend | app/lib/compiler/prompt-compiler.ts:114-122 | the lines of concatenated edge lists are each list's lines, in order |
| Render.BranchLinesSkip | app/lib/compiler/prompt-compiler.ts:114-122 | a non-contributing edge adds nothing |
| Render.IfElseIgnores | app/lib/compiler/prompt-compiler.ts:103-138 | an edge from elsewhere, with another condition, to a missing node, or to an empty rendering leaves the if/else block unchanged |
| Render.IfEdgeAddsLine | app/lib/compiler/prompt-compiler.ts:114-122 | an "if" edge to a non-empty target appends its line to the if branch only |
| Render.ElseEdgeAddsLine | app/lib/compiler/prompt-compiler.ts:127-135 | an "else" edge to a non-empty target appends its line to the else branch only |
| Render.LoopIgnoresCondition | app/lib/compiler/prompt-compiler.ts:141-143 | a loop body does not depend on edge conditions |
| Render.BranchStep | app/lib/compiler/prompt-compiler.ts:114-122 | one more edge appends that edge's line, if it contributes one |
| Render.Contributes | app/lib/compiler/prompt-compiler.ts:104-121 | an edge adds a line when it leaves the node, carries the wanted condition (any, for a loop), and leads to an existing node whose rendering is not empty. IfElseIgnores, IfEdgeAddsLine and ElseEdgeAddsLine use it |
| Render.Line | app/lib/compiler/prompt-compiler.ts:119 | a branch line: two spaces, the content, a newline |
| Render.BranchLines | app/lib/compiler/prompt-compiler.ts:114-122 | the lines of the contributing edges, in edge order. BranchLinesAppend, BranchLinesSkip and BranchStep state how it grows |
| Render.IfElseBlock | app/lib/compiler/prompt-compiler.ts:103-138 | the if/else block for any renderer of branch targets: header, if lines, "ELSE:", else lines. IfEdgeAddsLine, ElseEdgeAddsLine and IfElseIgnores state what an edge changes |
| Render.LoopBlock | app/lib/compiler/prompt-compiler.ts:140-158 | the loop block for any renderer: header, then a line per contributing outgoing edge. LoopIgnoresCondition states that conditions do not matter |
| Render.IfElseText | app/lib/compiler/prompt-compiler.ts:103-138 | the if/else block with `renderNode` for the targets, which RenderIfElse returns |
| Render.LoopText | app/lib/compiler/prompt-compiler.ts:140-158 | the loop block with `renderNode` for the targets, which RenderLoop returns |
| Compiler.PromptCompiler.ValidateNodes | app/lib/compiler/prompt-compiler.ts:160-206 | the report is the missing-field ids, node by node, and one warning per node from which a cycle is reachable, in node order |
| Compiler.AddMissing | app/lib/compiler/prompt-compiler.ts:164-177 | appends the node's id once per missing required field |
| CompilerSpec.MissingFields | app/lib/compiler/prompt-compiler.ts:168-176 | only the node's own id is ever reported |
| CompilerSpec.IsMissing | app/lib/compiler/prompt-compiler.ts:170-172 | a value counts as missing when it is absent, "", or an empty list |
| CompilerSpec.MissingOf | app/lib/compiler/prompt-compiler.ts:164-177 | what one node adds to the list: nothing for an unknown type, otherwise its id once per missing required field. MissingOfSpec states it |
| CompilerSpec.MissingRequired | app/lib/compiler/prompt-compiler.ts:160-177 | the `missingRequired` list, node by node. MissingRequiredSpec states which ids it holds |
| CompilerSpec.MissingFieldsCount | app/lib/compiler/prompt-compiler.ts:168-176 | the id is reported once for each required field that is absent, "" or an empty list |
| CompilerSpec.MissingFieldsSpec | app/lib/compiler/prompt-compiler.ts:168-176 | the id is reported exactly when some required field is missing |
| CompilerSpec.MissingOfSpec | app/lib/compiler/prompt-compiler.ts:164-177 | a node is reported exactly when it has a known type and a missing required field |
| CompilerSpec.MissingRequiredSpec | app/lib/compiler/prompt-compiler.ts:164-177 | an id is in the list exactly when some node with that id has a missing required field |
| CompilerSpec.EmptyPersonaReported | app/lib/compiler/prompt-compiler.ts:164-177 | an empty persona is reported three times (name, goals, tone) |
| CompilerSpec.EmptyNoteReported | app/lib/compiler/prompt-compiler.ts:164-177 | a note without text is reported although notes never compile |
| CompilerSpec.CycleWarnings | app/lib/compiler/prompt-compiler.ts:199-203 | never more warnings than nodes |
| CompilerSpec.ReachesCycle | app/lib/compiler/prompt-compiler.ts:183-199 | the meaning of `hasCycle(id)` returning true: some cycle can be reached from the id. Cycles.HasCycle is proved to return exactly this |
| CompilerSpec.CycleWarningsEmpty | app/lib/compiler/prompt-compiler.ts:180-203 | there are no warnings exactly when no cycle is reachable from a node |
| CompilerSpec.CycleWarningsAcyclic | app/lib/compiler/prompt-compiler.ts:180-203 | with no dangling edges, there are no warnings exactly when the graph is acyclic |
| Compiler.PromptCompiler.Compile | app/lib/compiler/prompt-compiler.ts:208-246 | the result is `CompileSpec(doc)`: the non-empty contents in topological order, joined, plus the report |
| Compiler.PromptCompiler.CompileParts | app/lib/compiler/prompt-compiler.ts:213-237 | collects the non-empty content of each ordered id that names a node |
| Compiler.PromptCompiler.RenderContent | app/lib/compiler/prompt-compiler.ts:219-232 | dispatch: ifElse and loop use their block renderers, note gives "", everything else renders its template |
| Compiler.CompilePrompt | app/lib/compiler/prompt-compiler.ts:249-252 | a fresh compiler's result is `CompileSpec(doc)` |
| CompilerSpec.Keep | app/lib/compiler/prompt-compiler.ts:234-236 | no kept part is empty |
| CompilerSpec.Content | app/lib/compiler/prompt-compiler.ts:219-232 | what a node of the order contributes: the if/else block, the loop block, nothing for a note, otherwise its rendered template |
| CompilerSpec.PartOf | app/lib/compiler/prompt-compiler.ts:214-232 | what an id of the order contributes: nothing when it names no node |
| CompilerSpec.Parts | app/lib/compiler/prompt-compiler.ts:213-237 | the `compiledParts`: the non-empty contributions of the order, in order. PartsSpec states which strings it holds |
| CompilerSpec.JoinerOf | app/lib/compiler/prompt-compiler.ts:239 | the joiner setting, or "\n\n" when it is unset or empty |
| CompilerSpec.CompileSpec | app/lib/compiler/prompt-compiler.ts:208-246 | `compilePrompt(doc)` as a function: the parts in Kahn order joined by the joiner, and the report. CompileEmpty and CompileIncludesEveryNode state its properties |
| CompilerSpec.KeepMembers | app/lib/compiler/prompt-compiler.ts:234-236 | a string is kept exactly when it is non-empty and produced by some element |
| CompilerSpec.PartsSpec | app/lib/compiler/prompt-compiler.ts:213-237 | a part is exactly the non-empty content of an ordered id |
| CompilerSpec.CompileEmpty | app/lib/compiler/prompt-compiler.ts:208-246 | an empty document compiles to "" with an empty report |
| CompilerSpec.CompileIncludesEveryNode | app/lib/compiler/prompt-compiler.ts:208-246 | with unique ids, no dangling edges and no cycle, every node's non-empty content is part of the output |
| Strings.Trim | app/lib/compiler/prompt-compiler.ts:100 | the result is a slice of the input with only whitespace before and after it, and it neither starts nor ends with whitespace; it is empty for all-whitespace input |
| Strings.TrimStart | app/lib/compiler/prompt-compiler.ts:100 | a suffix of the input, after only whitespace, starting with non-whitespace |
| Strings.TrimEnd | app/lib/compiler/prompt-compiler.ts:100 | a prefix of the input, before only whitespace, ending with non-whitespace |
| Strings.TrimIdentity | app/lib/compiler/prompt-compiler.ts:100 | trimming an already trimmed string changes nothing |
| Strings.FindFromFirst | app/lib/compiler/prompt-compiler.ts:90-95 | the search finds the first occurrence from the start index, or reports that there is none |
| Strings.FindFrom | app/lib/compiler/prompt-compiler.ts:90-95 | `indexOf` from a start index: a found index lies in range. FindFromFirst states that it is the first occurrence |
| Strings.ReplaceFirst | app/lib/compiler/prompt-compiler.ts:90-95 | `replace` with a string pattern: only the first occurrence is rewritten. ReplaceFirstAbsent and ReplaceFirstAfterBraceFree state its behaviour |
| Strings.Join | app/lib/compiler/prompt-compiler.ts:89-90 | `join` with a separator: the parts with the separator between consecutive ones |
| Strings.ReplaceFirstAbsent | app/lib/compiler/prompt-compiler.ts:90-95 | replacing an absent pattern changes nothing |
| Strings.ReplaceFirstAfterBraceFree | app/lib/compiler/prompt-compiler.ts:90-95 | a placeholder after brace-free text is the one replaced |
| NodeDefinitions.FindTagSpec | app/lib/node-definitions.ts:3-250 | the registry search succeeds exactly when some type carries the tag, and returns a type carrying it |
| NodeDefinitions.ParseTagSpec | app/lib/node-definitions.ts:3-250 | a tag is known exactly when it is one of the ten type tags, and it parses to the type it names |
| NodeDefinitions.TagRoundTrip | app/lib/node-definitions.ts:3-250 | every type's tag parses back to that type |
| NodeDefinitions.TagNameInjective | app/lib/node-definitions.ts:3-250 | no two types share a tag |
| NodeDefinitions.TagName | app/lib/node-definitions.ts:3-250 | the registry key of each type. TagRoundTrip and TagNameInjective state that it is one-to-one and read back |
| NodeDefinitions.ParseTag | app/lib/compiler/prompt-compiler.ts:78-79 | the registry lookup of a document's type tag. ParseTagSpec states when it succeeds |
| NodeDefinitions.Lookup | app/lib/compiler/prompt-compiler.ts:78-79 | `NODE_DEFINITIONS[node.type]`. LookupSpec and LookupDefinition state what it returns |
| NodeDefinitions.Template | app/lib/node-definitions.ts:3-250 | a type's template as literal segments with `{{key}}` between them. TemplateHoles and SegmentsBraceFree state its shape |
| NodeDefinitions.LookupDefinition | app/lib/compiler/prompt-compiler.ts:78 | reading the registry under a type's tag gives that type's entry: its fields and its template |
| NodeDefinitions.LookupSpec | app/lib/compiler/prompt-compiler.ts:78-79 | the registry has an entry exactly under the ten type tags; the entry found under a tag belongs to the type carrying that tag |
| NodeDefinitions.Fields | app/lib/node-definitions.ts:3-250 | every type has fields, the first one required, and every select field has options |
| NodeDefinitions.DistinctKeys | app/lib/node-definitions.ts:3-250 | field keys are distinct within a type |
| NodeDefinitions.ListFields | app/lib/node-definitions.ts:3-250 | the list fields are exactly persona.goals, context.references and task.steps |
| NodeDefinitions.OptionalFields | app/lib/node-definitions.ts:3-250 | the optional fields are exactly persona.constraints, context.audience and context.references |
| NodeDefinitions.NoteIsInert | app/lib/node-definitions.ts:231-249 | only note's field is not compiled, and note has one field and an empty template |
| NodeDefinitions.TemplateHoles | app/lib/node-definitions.ts:3-250 | a template's placeholders are the compiled fields' keys, in field order |
| NodeDefinitions.HolesAreKeys | app/lib/node-definitions.ts:3-250 | apart from note, the template's placeholders are exactly the field keys, in field order |
| NodeDefinitions.SegmentsBraceFree | app/lib/node-definitions.ts:3-250 | no literal template text contains a brace |
| Store.FlowStore.constructor | app/lib/store/flow-store.ts:43-62 | starts with a fresh document, a one-entry history holding a second fresh document, cursor 0, nothing selected |
| Store.InitialDoc | app/lib/store/flow-store.ts:43-55 | a fresh document has no nodes or edges, version 1, and the clock's stamp |
| Store.FlowStore.SaveToHistory | app/lib/store/flow-store.ts:143-160 | the history and cursor become `Pushed` of the old history, cursor and document; nothing else changes; cursor within at most 50 entries |
| Store.PushSpec | app/lib/store/flow-store.ts:143-160 | after a push there are at most 50 entries, the cursor is on the new snapshot at the end, the cursor is min(old + 1, 49), and earlier entries are the newest ones up to the old cursor, in order |
| Store.Pushed | app/lib/store/flow-store.ts:143-160 | `saveToHistory` on the history and cursor. PushSpec, UndoAfterPush and RedoAfterPush state its effect |
| Store.UndoAfterPush | app/lib/store/flow-store.ts:143-170 | undo right after an edit shows the entry that was current before it |
| Store.RedoAfterPush | app/lib/store/flow-store.ts:143-180 | an edit discards the redo branch: redo right after it does nothing |
| Store.FlowStore.SetDoc | app/lib/store/flow-store.ts:64-67 | replaces the document and records it |
| Store.FlowStore.UpdateDoc | app/lib/store/flow-store.ts:69-74 | the document becomes the patched and stamped document, which is then recorded |
| Store.Patched | app/lib/store/flow-store.ts:69-74 | a node or edge list the patch leaves out is kept, the other fields are kept when the patch names none of them, and the stamp is the clock's |
| Store.FlowStore.AddNode | app/lib/store/flow-store.ts:76-87 | appends exactly one node with empty data; the existing nodes stay unchanged and in order |
| Store.FlowStore.UpdateNode | app/lib/store/flow-store.ts:89-95 | replaces the node list by its update and records it |
| Store.UpdateNodes | app/lib/store/flow-store.ts:91-93 | the update keeps the length |
| Store.MergeNode | app/lib/store/flow-store.ts:92 | `{ ...node, ...updates }`: each field the patch gives replaces the node's |
| Store.UpdateNodesSpec | app/lib/store/flow-store.ts:91-93 | exactly the nodes with the id are merged; every other node stays in place |
| Store.UpdateNodesMissing | app/lib/store/flow-store.ts:91-93 | an update naming no node changes nothing |
| Store.UpdateNodesKeepsIds | app/lib/store/flow-store.ts:91-93 | an update that does not rename keeps every id in place |
| Store.FlowStore.DeleteNode | app/lib/store/flow-store.ts:97-105 | removes the node and its edges, records the edit, and clears both selections |
| Store.DeleteNodeSpec | app/lib/store/flow-store.ts:97-105 | afterwards no node has the id and no edge touches it, and no dangling edge appears |
| Store.WithoutNode | app/lib/store/flow-store.ts:97-103 | the document `deleteNode` writes before the clock stamps it: the node filtered out and every edge touching it filtered out. DeleteNodeSpec states its properties |
| Store.RetainIds | app/lib/store/flow-store.ts:99 | the ids left are the other ids |
| Store.Retain | app/lib/store/flow-store.ts:99-102 | the filter keeps exactly the elements that pass, and never grows |
| Store.RetainAppend | app/lib/store/flow-store.ts:99-102 | filtering distributes over concatenation, so kept elements keep their relative order |
| Store.RetainAll | app/lib/store/flow-store.ts:99-102 | a filter every element passes changes nothing |
| Store.AddThenDeleteNode | app/lib/store/flow-store.ts:76-105 | deleting a freshly added node restores the node list |
| Store.FlowStore.SelectNode | app/lib/store/flow-store.ts:107-109 | selects the node and clears the edge selection; nothing else changes |
| Store.FlowStore.AddEdge | app/lib/store/flow-store.ts:111-122 | appends exactly one edge; the existing edges stay unchanged and in order |
| Store.FlowStore.UpdateEdge | app/lib/store/flow-store.ts:124-130 | replaces the edge list by its update and records it |
| Store.UpdateEdges | app/lib/store/flow-store.ts:126-128 | the update keeps the length |
| Store.MergeEdge | app/lib/store/flow-store.ts:127 | `{ ...edge, ...updates }`: each field the patch gives replaces the edge's, the condition included |
| Store.UpdateEdgesSpec | app/lib/store/flow-store.ts:126-128 | exactly the edges with the id are merged; every other edge stays in place |
| Store.UpdateEdgesMissing | app/lib/store/flow-store.ts:126-128 | an update naming no edge changes nothing |
| Store.FlowStore.DeleteEdge | app/lib/store/flow-store.ts:132-137 | removes the edges with the id, records the edit, and clears both selections |
| Store.AddThenDeleteEdge | app/lib/store/flow-store.ts:111-137 | deleting a freshly added edge restores the edge list |
| Store.FlowStore.SelectEdge | app/lib/store/flow-store.ts:139-141 | selects the edge and clears the node selection; nothing else changes |
| Store.FlowStore.Undo | app/lib/store/flow-store.ts:162-170 | moves back one entry and shows it when the cursor is past 0; otherwise nothing changes; the history is untouched |
| Store.FlowStore.Redo | app/lib/store/flow-store.ts:172-180 | moves forward one entry and shows it when one exists; otherwise nothing changes; the history is untouched |
| Store.Undone | app/lib/store/flow-store.ts:162-170 | the cursor stays within the history |
| Store.Redone | app/lib/store/flow-store.ts:172-180 | the cursor stays within the history |
| Store.UndoTimesSpec | app/lib/store/flow-store.ts:162-170 | n undos stop at entry 0 at the latest and show the entry they stop at |
| Store.RedoTimesSpec | app/lib/store/flow-store.ts:172-180 | n redos stop at the last entry at the latest and show the entry they stop at |
| Store.UndoThenRedo | app/lib/store/flow-store.ts:162-180 | n available undos followed by n redos return to the same cursor and show its entry |
| Store.FlowStore.ClearCanvas | app/lib/store/flow-store.ts:182-187 | leaves no nodes and no edges, through `updateDoc` |

## Left out

- Runtime environment:
  - I/O, persistence (`autoSave`, `loadFromStorage`), React components and timers are not part of this model.
  - Clock readings and random ids are parameters (`now`, `id`).
- Floating point: positions are integers, because the comparator only orders them.
- `String.replace` special patterns: `$&`, `$1` and the like in a field value are not modelled. The replacement is literal, as for values without `$`. Values containing a brace are covered by the general definition, but the closed-form lemmas require brace-free values.
- Registry lookup: JavaScript property lookup would also find inherited keys such as `constructor`. Here a tag is known only when it is one of the ten type tags (an ordered table search).
- JavaScript `Map` iteration order is modelled as an explicit key sequence (`inDegreeKeys`, `Dedup`).
- `queue.sort` is modelled as a stable insertion sort (`SortBy`). Any stable sort with this comparator gives the same order.
- Loops moved into methods of their own: the field and edge loops that the source writes inline (`forEach` and `filter` then `forEach`) are module or class methods (`AddMissing`, `ReleaseAll`, `ZeroKeys`, `NodeLists`, `EdgeLists`, `CompileParts`, `RenderBranch`). Each is one pass in source order.
- Compiler.PromptCompiler.RenderIfElse: renders both branches before concatenating them. The source appends as it goes; the result is the same because rendering has no side effects.
- Cycles.HasCycle: the closure's captured `visited` and `recStack` sets are passed in and returned as values instead of being mutated in place.
- Store.Patched: explicit `undefined` values in a document or node patch (which would erase a field) are not modelled. Only an edge's `condition` may be set to undefined.
- Edge `points` and registry presentation fields (label, icon, colour, placeholder, description) are not part of the model.
