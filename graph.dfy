/** The edge relation of a document as the compiler sees it: successor
    lists and in-degrees derived from the edge list (edges may name ids
    that are not nodes), paths, cycles, and the counting facts that the
    ordering and the cycle search rely on. */
module Graph {
  import opened Types

  /** The targets of `u`'s outgoing edges, in edge order, duplicates kept. */
  function Out(E: seq<Edge>, u: Id): seq<Id>
  {
    if E == [] then []
    else Out(E[..|E| - 1], u) + (if E[|E| - 1].source == u then [E[|E| - 1].target] else [])
  }

  /** The number of edges whose target is `v`. */
  function InDeg(E: seq<Edge>, v: Id): nat
  {
    if E == [] then 0
    else InDeg(E[..|E| - 1], v) + (if E[|E| - 1].target == v then 1 else 0)
  }

  /** The successor-list map holds `Out(E, u)` under every key `u`, and
      every id outside it has no successors. */
  ghost predicate AdjacencyOf(adjacency: map<Id, seq<Id>>, E: seq<Edge>) {
    (forall u :: u in adjacency ==> adjacency[u] == Out(E, u)) &&
    (forall u :: u !in adjacency ==> Out(E, u) == [])
  }

  /** Every edge counts towards its target's in-degree. */
  lemma {:induction false} InDegPositive(E: seq<Edge>, i: nat)
    requires i < |E|
    ensures InDeg(E, E[i].target) > 0
  {
    if i < |E| - 1 {
      InDegPositive(E[..|E| - 1], i);
    }
  }

  /** The number of edges whose target is `v` and whose source lies in `S`. */
  function Into(E: seq<Edge>, v: Id, S: set<Id>): nat
  {
    if E == [] then 0
    else Into(E[..|E| - 1], v, S) + (if E[|E| - 1].target == v && E[|E| - 1].source in S then 1 else 0)
  }

  function Sources(E: seq<Edge>): set<Id> { set e | e in E :: e.source }

  function Targets(E: seq<Edge>): set<Id> { set e | e in E :: e.target }

  /** Every edge whose target is `v` has its source in `done`. */
  ghost predicate AllSourcesIn(E: seq<Edge>, v: Id, done: seq<Id>) {
    forall i :: 0 <= i < |E| && E[i].target == v ==> E[i].source in done
  }

  /** Every edge source and target names a node. */
  ghost predicate NoDangling(E: seq<Edge>, ids: set<Id>) {
    forall i :: 0 <= i < |E| ==> E[i].source in ids && E[i].target in ids
  }

  // ---------------------------------------------------------------------
  // Successor lists

  /** Edge `i` puts its target on its source's successor list. */
  lemma {:induction false} EdgeInOut(E: seq<Edge>, i: nat)
    requires i < |E|
    ensures E[i].target in Out(E, E[i].source)
  {
    if i < |E| - 1 {
      EdgeInOut(E[..|E| - 1], i);
    }
  }

  /** Every successor comes from an edge. */
  lemma {:induction false} OutHasEdge(E: seq<Edge>, u: Id, v: Id) returns (i: nat)
    requires v in Out(E, u)
    ensures i < |E| && E[i].source == u && E[i].target == v
  {
    var last := E[|E| - 1];
    if v in Out(E[..|E| - 1], u) {
      i := OutHasEdge(E[..|E| - 1], u, v);
    } else {
      i := |E| - 1;
    }
  }

  /** An id that is no edge's source has no successors. */
  lemma {:induction false} OutOfNonSource(E: seq<Edge>, u: Id)
    requires u !in Sources(E)
    ensures Out(E, u) == []
  {
    if E != [] {
      assert E[|E| - 1] in E;
      var P := E[..|E| - 1];
      assert forall e :: e in P ==> e in E;
      OutOfNonSource(P, u);
    }
  }

  /** Successors are edge targets. */
  lemma OutInTargets(E: seq<Edge>, u: Id, v: Id)
    requires v in Out(E, u)
    ensures v in Targets(E) && u in Sources(E)
  {
    var i := OutHasEdge(E, u, v);
    assert E[i] in E;
  }

  // ---------------------------------------------------------------------
  // Counting edges into a node

  /** How often `v` occurs on `u`'s successor list is the number of edges
      from `u` to `v`. */
  lemma {:induction false} OutCount(E: seq<Edge>, u: Id, v: Id)
    ensures multiset(Out(E, u))[v] == Into(E, v, {u})
  {
    if E != [] {
      OutCount(E[..|E| - 1], u, v);
    }
  }

  /** Counting edges from a set with one more source adds that source's edges. */
  lemma {:induction false} IntoAdd(E: seq<Edge>, v: Id, S: set<Id>, u: Id)
    requires u !in S
    ensures Into(E, v, S + {u}) == Into(E, v, S) + Into(E, v, {u})
  {
    if E != [] {
      IntoAdd(E[..|E| - 1], v, S, u);
    }
  }

  lemma {:induction false} IntoEmpty(E: seq<Edge>, v: Id)
    ensures Into(E, v, {}) == 0
  {
    if E != [] {
      IntoEmpty(E[..|E| - 1], v);
    }
  }

  /** Counting edges into `v` from `S` gives at most its in-degree, and
      exactly its in-degree when and only when every edge into `v` comes
      from `S`. */
  lemma {:induction false} IntoFull(E: seq<Edge>, v: Id, S: set<Id>)
    ensures Into(E, v, S) <= InDeg(E, v)
    ensures Into(E, v, S) == InDeg(E, v) <==>
      forall i :: 0 <= i < |E| && E[i].target == v ==> E[i].source in S
  {
    if E != [] {
      var P := E[..|E| - 1];
      IntoFull(P, v, S);
      assert forall i :: 0 <= i < |P| ==> P[i] == E[i];
    }
  }

  /** `AllSourcesIn` over a sequence is the full count over its set. */
  lemma AllSourcesInCount(E: seq<Edge>, v: Id, done: seq<Id>)
    ensures AllSourcesIn(E, v, done) <==> Into(E, v, set x | x in done) == InDeg(E, v)
  {
    IntoFull(E, v, set x | x in done);
  }

  // ---------------------------------------------------------------------
  // Paths and cycles

  /** A non-empty walk along edges. */
  ghost predicate IsPath(E: seq<Edge>, p: seq<Id>) {
    |p| >= 1 && forall i {:trigger Out(E, p[i])} :: 0 <= i < |p| - 1 ==> p[i + 1] in Out(E, p[i])
  }

  /** A walk of at least one edge that returns to its start. */
  ghost predicate IsCycle(E: seq<Edge>, c: seq<Id>) {
    IsPath(E, c) && |c| >= 2 && c[0] == c[|c| - 1]
  }

  ghost predicate Acyclic(E: seq<Edge>) {
    forall c :: !IsCycle(E, c)
  }

  /** `lead` walks from one of `roots` to the start of the cycle `c`. */
  ghost predicate ReachableCycle(E: seq<Edge>, roots: set<Id>, lead: seq<Id>, c: seq<Id>) {
    IsPath(E, lead) && lead[0] in roots && IsCycle(E, c) && lead[|lead| - 1] == c[0]
  }

  ghost predicate HasReachableCycle(E: seq<Edge>, roots: set<Id>) {
    exists lead, c :: ReachableCycle(E, roots, lead, c)
  }

  /** When every edge stays among `ids`, a cycle anywhere is a cycle
      reachable from `ids`, so the two notions of "has a cycle" agree. */
  lemma AcyclicIffNoReachableCycle(E: seq<Edge>, ids: set<Id>)
    requires NoDangling(E, ids)
    ensures Acyclic(E) <==> !HasReachableCycle(E, ids)
  {
    if !Acyclic(E) {
      var c :| IsCycle(E, c);
      var i := OutHasEdge(E, c[0], c[1]);
      assert ReachableCycle(E, ids, [c[0]], c);
    }
  }

  /** The part of a path from index `i` to index `j` is a path. */
  lemma SubPath(E: seq<Edge>, p: seq<Id>, i: nat, j: nat)
    requires IsPath(E, p) && i < j <= |p|
    ensures IsPath(E, p[i..j])
  {
    var q := p[i..j];
    forall k | 0 <= k < |q| - 1 ensures q[k + 1] in Out(E, q[k]) {
      assert q[k] == p[i + k] && q[k + 1] == p[i + k + 1];
    }
  }

  // ---------------------------------------------------------------------
  // Orders in which every edge's source precedes its target

  /** Every edge into an element of `order` comes from an earlier element. */
  ghost predicate Precedes(E: seq<Edge>, order: seq<Id>) {
    forall p :: 0 <= p < |order| ==> AllSourcesIn(E, order[p], order[..p])
  }

  /** In such an order, the start of any walk to an element comes earlier. */
  lemma {:induction false} PathPrecedes(E: seq<Edge>, order: seq<Id>, path: seq<Id>, p: nat)
    requires Precedes(E, order)
    requires IsPath(E, path) && |path| >= 2
    requires p < |order| && path[|path| - 1] == order[p]
    ensures path[0] in order[..p]
    decreases |path|
  {
    var n := |path|;
    var i := OutHasEdge(E, path[n - 2], path[n - 1]);
    assert AllSourcesIn(E, order[p], order[..p]);
    assert path[n - 2] in order[..p];
    var q :| 0 <= q < p && order[q] == path[n - 2];
    if n > 2 {
      SubPath(E, path, 0, n - 1);
      PathPrecedes(E, order, path[..n - 1], q);
      assert order[..q] == order[..p][..q];
    }
  }

  /** Nothing on a cycle, and nothing reachable from one, is ever placed in
      an order where sources precede targets. */
  lemma DownstreamOfCycleExcluded(E: seq<Edge>, order: seq<Id>, c: seq<Id>, lead: seq<Id>)
    requires Precedes(E, order) && NoDup(order)
    requires IsCycle(E, c)
    requires IsPath(E, lead) && lead[0] == c[0]
    ensures lead[|lead| - 1] !in order
  {
    if lead[|lead| - 1] in order {
      var p :| 0 <= p < |order| && order[p] == lead[|lead| - 1];
      var q := p;
      if |lead| >= 2 {
        PathPrecedes(E, order, lead, p);
        q :| 0 <= q < p && order[q] == c[0];
      }
      assert order[q] == c[0] == c[|c| - 1];
      PathPrecedes(E, order, c, q);
      assert false;
    }
  }

  // ---------------------------------------------------------------------
  // Completeness of an order closed under "all sources placed"

  /** An id of `K` is in `order` exactly when every edge into it comes from
      an id in `order`. */
  ghost predicate Closed(E: seq<Edge>, K: set<Id>, order: seq<Id>) {
    forall w {:trigger AllSourcesIn(E, w, order)} :: w in K ==> (w in order <==> AllSourcesIn(E, w, order))
  }

  /** A sequence longer than the set it draws from repeats an element. */
  lemma {:induction false} Pigeonhole(s: seq<Id>, S: set<Id>) returns (i: nat, j: nat)
    requires forall k :: 0 <= k < |s| ==> s[k] in S
    requires |s| > |S|
    ensures i < j < |s| && s[i] == s[j]
    decreases |s|
  {
    var x := s[|s| - 1];
    var init := s[..|s| - 1];
    if k :| 0 <= k < |init| && init[k] == x {
      i, j := k, |s| - 1;
    } else {
      forall k | 0 <= k < |init| ensures init[k] in S - {x} {
        assert init[k] == s[k];
      }
      i, j := Pigeonhole(init, S - {x});
    }
  }

  /** Walking edges backwards from an unplaced id reaches further unplaced
      ids, as far as one likes, when every edge source is placeable. */
  lemma {:induction false} BackChain(E: seq<Edge>, K: set<Id>, order: seq<Id>, v: Id, n: nat) returns (p: seq<Id>)
    requires forall i :: 0 <= i < |E| ==> E[i].source in K
    requires Closed(E, K, order)
    requires v in K && v !in order
    ensures |p| == n + 1 && IsPath(E, p) && p[|p| - 1] == v
    ensures forall k :: 0 <= k < |p| ==> p[k] in K && p[k] !in order
  {
    if n == 0 {
      p := [v];
    } else {
      var q := BackChain(E, K, order, v, n - 1);
      var h := q[0];
      assert !AllSourcesIn(E, h, order);
      var i :| 0 <= i < |E| && E[i].target == h && E[i].source !in order;
      EdgeInOut(E, i);
      var u := E[i].source;
      p := [u] + q;
      assert p[0] == u && p[1] == h;
      assert h in Out(E, u);
      forall k | 0 <= k < |p| - 1 ensures p[k + 1] in Out(E, p[k]) {
        if k > 0 {
          assert p[k] == q[k - 1] && p[k + 1] == q[k];
        }
      }
      assert u in K && u !in order;
      forall k | 0 <= k < |p| ensures p[k] in K && p[k] !in order {
        if k > 0 {
          assert p[k] == q[k - 1];
        }
      }
    }
  }

  /** With no cycle, and every edge source among `K`, an order that holds
      exactly the ids of `K` whose sources it all holds covers `K`. */
  lemma KahnComplete(E: seq<Edge>, K: set<Id>, order: seq<Id>)
    requires Acyclic(E)
    requires forall i :: 0 <= i < |E| ==> E[i].source in K
    requires Closed(E, K, order)
    ensures forall w :: w in K ==> w in order
  {
    forall w | w in K ensures w in order {
      KahnCompleteAt(E, K, order, w);
    }
  }

  lemma KahnCompleteAt(E: seq<Edge>, K: set<Id>, order: seq<Id>, w: Id)
    requires Acyclic(E)
    requires forall i :: 0 <= i < |E| ==> E[i].source in K
    requires Closed(E, K, order)
    requires w in K
    ensures w in order
  {
    if w !in order {
      var p := BackChain(E, K, order, w, |K|);
      var i, j := Pigeonhole(p, K);
      SubPath(E, p, i, j + 1);
      assert IsCycle(E, p[i..j + 1]);
    }
  }

  // ---------------------------------------------------------------------
  // Reaching a cycle

  /** A path extends by any successor of its last id. */
  lemma PathSnoc(E: seq<Edge>, p: seq<Id>, x: Id)
    requires IsPath(E, p) && x in Out(E, p[|p| - 1])
    ensures IsPath(E, p + [x])
  {
    var q := p + [x];
    forall i | 0 <= i < |q| - 1 ensures q[i + 1] in Out(E, q[i]) {
      if i < |p| - 1 {
        assert q[i] == p[i] && q[i + 1] == p[i + 1];
      }
    }
  }

  /** A path that comes back to an id it passed through closes a cycle
      reachable from that id. */
  lemma RevisitReachesCycle(E: seq<Edge>, p: seq<Id>, m: nat)
    requires IsPath(E, p) && m < |p| - 1 && p[m] == p[|p| - 1]
    ensures HasReachableCycle(E, {p[m]})
  {
    SubPath(E, p, m, |p|);
    assert ReachableCycle(E, {p[m]}, [p[m]], p[m..]);
  }

  /** An id with a successor that reaches a cycle reaches that cycle too. */
  lemma ReachPrepend(E: seq<Edge>, u: Id, v: Id)
    requires v in Out(E, u) && HasReachableCycle(E, {v})
    ensures HasReachableCycle(E, {u})
  {
    var lead, c :| ReachableCycle(E, {v}, lead, c);
    var lead' := [u] + lead;
    forall i | 0 <= i < |lead'| - 1 ensures lead'[i + 1] in Out(E, lead'[i]) {
      if i > 0 {
        assert lead'[i] == lead[i - 1] && lead'[i + 1] == lead[i];
      }
    }
    assert ReachableCycle(E, {u}, lead', c);
  }

  /** A cycle is reachable from a set of roots exactly when it is
      reachable from one of them. */
  lemma ReachableFromSome(E: seq<Edge>, roots: set<Id>)
    ensures HasReachableCycle(E, roots) <==> exists x :: x in roots && HasReachableCycle(E, {x})
  {
    if HasReachableCycle(E, roots) {
      var lead, c :| ReachableCycle(E, roots, lead, c);
      assert ReachableCycle(E, {lead[0]}, lead, c);
    }
    if x :| x in roots && HasReachableCycle(E, {x}) {
      var lead, c :| ReachableCycle(E, {x}, lead, c);
      assert ReachableCycle(E, roots, lead, c);
    }
  }

  /** An id reaches a cycle only through one of its successors: a cycle
      through the id itself passes through its next id. */
  lemma NoCycleFromSuccessors(E: seq<Edge>, u: Id)
    requires forall v :: v in Out(E, u) ==> !HasReachableCycle(E, {v})
    ensures !HasReachableCycle(E, {u})
  {
    if HasReachableCycle(E, {u}) {
      var lead, c :| ReachableCycle(E, {u}, lead, c);
      var v := NextReachesCycle(E, u, lead, c);
      assert false;
    }
  }

  /** The id after `u` on a walk from `u` into a cycle: a successor of `u`
      from which the cycle is still reachable. */
  lemma NextReachesCycle(E: seq<Edge>, u: Id, lead: seq<Id>, c: seq<Id>) returns (v: Id)
    requires ReachableCycle(E, {u}, lead, c)
    ensures v in Out(E, u) && HasReachableCycle(E, {v})
  {
    if |lead| >= 2 {
      SubPath(E, lead, 1, |lead|);
      v := lead[1];
      assert v in Out(E, lead[0]);
      assert ReachableCycle(E, {v}, lead[1..], c);
    } else {
      SubPath(E, c, 1, |c|);
      v := c[1];
      assert v in Out(E, c[0]);
      assert ReachableCycle(E, {v}, c[1..], c);
    }
  }
}
