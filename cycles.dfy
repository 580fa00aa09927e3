/** The depth-first cycle search of `validateNodes`
    (app/lib/compiler/prompt-compiler.ts, lines 179-203). The closure
    `hasCycle` shares two mutable sets, `visited` and `recStack`, across
    all its calls, including the calls for later nodes: `HasCycle` is the
    closure, and it takes both sets in and returns them updated, so each
    call continues from the sets the previous call left behind. */
module Cycles {
  import opened Types
  import opened Graph
  import opened Kahn
  import opened CompilerSpec

  /** The search state while the ids of `onPath` are being explored:
      every id on the path is marked; an id marked but off the path was
      left there by a search that returned `true`, and reaches a cycle; a
      visited id that is no longer marked has finished, and reaches no
      cycle. */
  ghost predicate Searching(E: seq<Edge>, adjacency: map<Id, seq<Id>>, universe: set<Id>,
    visited: set<Id>, recStack: set<Id>, onPath: set<Id>)
  {
    AdjacencyOf(adjacency, E) && Targets(E) <= universe &&
    recStack <= visited && onPath <= recStack &&
    (forall x :: x in recStack && x !in onPath ==> ReachesCycle(E, x)) &&
    (forall x :: x in visited && x !in recStack ==> !ReachesCycle(E, x))
  }

  /** When no successor of `id` reaches a cycle, neither does `id`, and
      unmarking it restores the state of the enclosing search. */
  lemma Unmark(E: seq<Edge>, adjacency: map<Id, seq<Id>>, universe: set<Id>,
    visited: set<Id>, recStack: set<Id>, onPath: set<Id>, id: Id)
    requires Searching(E, adjacency, universe, visited, recStack, onPath + {id})
    requires id !in onPath && forall v :: v in Out(E, id) ==> v in visited && v !in recStack
    ensures Searching(E, adjacency, universe, visited, recStack - {id}, onPath)
    ensures !ReachesCycle(E, id)
  {
    NoCycleFromSuccessors(E, id);
  }

  /** A search that returns `true` leaves `id` marked, as a stale mark
      that reaches a cycle. */
  lemma LeaveMarked(E: seq<Edge>, adjacency: map<Id, seq<Id>>, universe: set<Id>,
    visited: set<Id>, recStack: set<Id>, onPath: set<Id>, id: Id)
    requires Searching(E, adjacency, universe, visited, recStack, onPath + {id})
    requires ReachesCycle(E, id)
    ensures Searching(E, adjacency, universe, visited, recStack, onPath)
  {
  }

  /** `hasCycle` (lines 183-197), called on `id` while the ids of `path`
      are being explored and `id` is a successor of the last of them. The
      closure updates the two sets it shares with `validateNodes` and with
      its other calls; here they are passed in and handed back. It answers
      whether a cycle can be reached from `id`; when it answers `false`,
      `recStack` is as it was. */
  method HasCycle(ghost E: seq<Edge>, adjacency: map<Id, seq<Id>>, ghost universe: set<Id>,
    visited0: set<Id>, recStack0: set<Id>, id: Id, ghost path: seq<Id>, ghost onPath: set<Id>)
    returns (b: bool, visited: set<Id>, recStack: set<Id>)
    requires Searching(E, adjacency, universe, visited0, recStack0, onPath)
    requires forall x :: x in onPath ==> x in path
    requires id in universe && (path == [] || (IsPath(E, path) && id in Out(E, path[|path| - 1])))
    ensures Searching(E, adjacency, universe, visited, recStack, onPath)
    ensures visited0 <= visited && id in visited
    ensures b <==> ReachesCycle(E, id)
    ensures !b ==> recStack == recStack0 && id !in recStack
    decreases universe - visited0, 1
  {
    visited, recStack := visited0, recStack0;
    if id in recStack {
      if id in onPath {
        Revisit(E, path, id);
      }
      return true, visited, recStack;
    }
    if id in visited {
      return false, visited, recStack;
    }
    visited := visited + {id};
    recStack := recStack + {id};
    b, visited, recStack := Explore(E, adjacency, universe, visited, recStack, id, path, onPath);
    if b {
      LeaveMarked(E, adjacency, universe, visited, recStack, onPath, id);
    } else {
      Unmark(E, adjacency, universe, visited, recStack, onPath, id);
      recStack := recStack - {id};
    }
  }

  /** Lines 190-193: the successors of the freshly marked `id`, in list
      order, until one reaches a cycle. When none does, every successor has
      been visited and left unmarked. */
  method Explore(ghost E: seq<Edge>, adjacency: map<Id, seq<Id>>, ghost universe: set<Id>,
    visited0: set<Id>, recStack0: set<Id>, id: Id, ghost path: seq<Id>, ghost onPath: set<Id>)
    returns (b: bool, visited: set<Id>, recStack: set<Id>)
    requires Searching(E, adjacency, universe, visited0, recStack0, onPath + {id})
    requires forall x :: x in onPath ==> x in path
    requires id in universe && IsPath(E, path + [id])
    requires id in visited0
    ensures Searching(E, adjacency, universe, visited, recStack, onPath + {id})
    ensures visited0 <= visited
    ensures b ==> ReachesCycle(E, id)
    ensures !b ==> recStack == recStack0 && forall v :: v in Out(E, id) ==> v in visited && v !in recStack
    decreases universe - (visited0 - {id}), 0
  {
    visited, recStack := visited0, recStack0;
    var neighbors := if id in adjacency then adjacency[id] else [];
    ghost var here := path + [id];
    ghost var marked := onPath + {id};
    OnPathSnoc(onPath, path, id);
    var k := 0;
    while k < |neighbors|
      invariant 0 <= k <= |neighbors|
      invariant Searching(E, adjacency, universe, visited, recStack, marked)
      invariant recStack == recStack0
      invariant visited0 <= visited
      invariant Finished(neighbors[..k], visited, recStack)
    {
      var neighbor := neighbors[k];
      OutInTargets(E, id, neighbor);
      var found;
      ghost var before := visited;
      found, visited, recStack := HasCycle(E, adjacency, universe, visited, recStack, neighbor, here, marked);
      if found {
        ReachPrepend(E, id, neighbor);
        return true, visited, recStack;
      }
      FinishedSnoc(neighbors, k, before, visited, recStack);
      k := k + 1;
    }
    assert neighbors[..k] == neighbors;
    b := false;
  }

  /** Every id of `ids` has been visited and is unmarked. */
  ghost predicate Finished(ids: seq<Id>, visited: set<Id>, recStack: set<Id>) {
    forall i :: 0 <= i < |ids| ==> ids[i] in visited && ids[i] !in recStack
  }

  lemma FinishedSnoc(ids: seq<Id>, k: nat, before: set<Id>, visited: set<Id>, recStack: set<Id>)
    requires k < |ids| && Finished(ids[..k], before, recStack) && before <= visited
    requires ids[k] in visited && ids[k] !in recStack
    ensures Finished(ids[..k + 1], visited, recStack)
  {
  }

  /** Reaching again an id of the current path closes a cycle through it. */
  lemma Revisit(E: seq<Edge>, path: seq<Id>, id: Id)
    requires path != [] && IsPath(E, path) && id in Out(E, path[|path| - 1]) && id in path
    ensures ReachesCycle(E, id)
  {
    var m :| 0 <= m < |path| && path[m] == id;
    PathSnoc(E, path, id);
    RevisitReachesCycle(E, path + [id], m);
  }

  /** The ids on the path grow with the path. */
  lemma OnPathSnoc(onPath: set<Id>, path: seq<Id>, id: Id)
    requires forall x :: x in onPath ==> x in path
    ensures forall x :: x in onPath + {id} ==> x in path + [id]
  {
  }
}
