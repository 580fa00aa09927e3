/** Kahn's algorithm as the compiler runs it (app/lib/compiler/prompt-compiler.ts,
    lines 38-75), as a function of the document: the in-degree map, the
    release of successors when an id is dequeued, and the drain of the
    queue. The properties the ordering promises are proved about
    `KahnSort`; the compiler's `TopologicalSort` method is proved to
    compute it. */
module Kahn {
  import opened Types
  import opened Graph
  import opened Ordering

  /** The keys of the in-degree map, as a set. */
  function KeySet(nodes: seq<Node>, E: seq<Edge>): set<Id> {
    set x | x in InDegreeKeys(nodes, E)
  }

  /** The in-degree map after `buildGraph`: every key counts the edges into
      it. */
  function InDegrees(nodes: seq<Node>, E: seq<Edge>): (deg: map<Id, int>)
    ensures deg.Keys == KeySet(nodes, E)
    ensures forall w :: w in deg ==> deg[w] == InDeg(E, w)
  {
    map w | w in KeySet(nodes, E) :: InDeg(E, w)
  }

  function Elems(s: seq<Id>): set<Id> {
    set x | x in s
  }

  /** The inner loop of lines 64-71: each successor, in list order, loses
      one unit of in-degree and joins the queue when its count reaches 0. */
  function Release<T(==)>(deg: map<T, int>, queue: seq<T>, nbrs: seq<T>): (r: (map<T, int>, seq<T>))
    requires forall v :: v in nbrs ==> v in deg
    ensures r.0.Keys == deg.Keys
    decreases |nbrs|
  {
    if nbrs == [] then (deg, queue)
    else
      var v := nbrs[0];
      var d := deg[v] - 1;
      Release(deg[v := d], if d == 0 then queue + [v] else queue, nbrs[1..])
  }

  /** The state of the queue loop: the working copy of the in-degree map,
      the ids emitted so far and the queue. */
  datatype State = State(deg: map<Id, int>, result: seq<Id>, queue: seq<Id>)

  /** One round of lines 60-72: dequeue the head, emit it, release its
      successors. */
  function Step(E: seq<Edge>, s: State): (r: State)
    requires Targets(E) <= s.deg.Keys && s.queue != []
    ensures r.deg.Keys == s.deg.Keys
  {
    var cur := s.queue[0];
    OutWithinTargets(E, cur);
    var next := Release(s.deg, s.queue[1..], Out(E, cur));
    State(next.0, s.result + [cur], next.1)
  }

  /** The outer loop of lines 60-72; `fuel` bounds the number of rounds
      (the number of keys always suffices). */
  function Drain(E: seq<Edge>, s: State, fuel: nat): seq<Id>
    requires Targets(E) <= s.deg.Keys
    decreases fuel
  {
    if s.queue == [] || fuel == 0 then s.result
    else Drain(E, Step(E, s), fuel - 1)
  }

  /** Before the first round: the in-degree map and the sorted frontier. */
  function Start(nodes: seq<Node>, E: seq<Edge>): State {
    State(InDegrees(nodes, E), [], Frontier(nodes, E))
  }

  /** `topologicalSort`: the sorted frontier drained against a copy of the
      in-degree map. */
  function KahnSort(nodes: seq<Node>, E: seq<Edge>): seq<Id>
  {
    TargetsAreKeys(nodes, E);
    Drain(E, Start(nodes, E), |KeySet(nodes, E)|)
  }

  lemma OutWithinTargets(E: seq<Edge>, u: Id)
    ensures forall v :: v in Out(E, u) ==> v in Targets(E)
  {
    forall v | v in Out(E, u) ensures v in Targets(E) {
      OutInTargets(E, u, v);
    }
  }

  lemma TargetsAreKeys(nodes: seq<Node>, E: seq<Edge>)
    ensures Targets(E) <= KeySet(nodes, E)
    ensures forall x :: x in NodeIds(nodes) ==> x in KeySet(nodes, E)
  {
    var s := NodeIds(nodes) + TargetSeq(E);
    forall x | x in Targets(E) ensures x in KeySet(nodes, E) {
      var i :| 0 <= i < |E| && E[i].target == x;
      assert s[|NodeIds(nodes)| + i] == x;
    }
    forall x | x in NodeIds(nodes) ensures x in KeySet(nodes, E) {
      var i :| 0 <= i < |nodes| && NodeIds(nodes)[i] == x;
      assert s[i] == x;
    }
  }

  /** A key with in-degree 0 is a node id: edge targets have positive
      in-degree. */
  lemma ZeroKeysAreNodes(nodes: seq<Node>, E: seq<Edge>, x: Id)
    requires x in KeySet(nodes, E) && InDeg(E, x) == 0
    ensures x in NodeIds(nodes)
  {
    var s := NodeIds(nodes) + TargetSeq(E);
    assert x in s;
    var i :| 0 <= i < |s| && s[i] == x;
    if i >= |nodes| {
      InDegPositive(E, i - |nodes|);
    }
  }

  // ---------------------------------------------------------------------
  // The invariant of the queue loop

  /** The invariant of the queue loop: every key's count is its in-degree
      less the edges from emitted ids; the ids emitted or queued are
      distinct keys, and they are exactly the keys whose count is 0; every
      edge into an emitted id comes from an earlier one. */
  ghost predicate Inv(E: seq<Edge>, K: set<Id>, s: State) {
    && s.deg.Keys == K
    && Targets(E) <= K
    && (forall x :: x in s.result || x in s.queue ==> x in K)
    && NoDup(s.result + s.queue)
    && (forall w :: w in s.deg ==> s.deg[w] == InDeg(E, w) - Into(E, w, Elems(s.result)))
    && (forall w :: w in s.deg ==> (w in s.result || w in s.queue <==> s.deg[w] == 0))
    && Precedes(E, s.result)
  }

  /** `Release` only appends to the queue, and what it appends and the
      counts it leaves do not depend on the queue. */
  lemma {:induction false} ReleaseAppends<T>(deg: map<T, int>, queue: seq<T>, nbrs: seq<T>)
    requires forall v :: v in nbrs ==> v in deg
    ensures Release(deg, queue, nbrs).0 == Release(deg, [], nbrs).0
    ensures Release(deg, queue, nbrs).1 == queue + Release(deg, [], nbrs).1
    decreases |nbrs|
  {
    if nbrs == [] {
      assert queue + [] == queue;
    } else {
      var v := nbrs[0];
      var d := deg[v] - 1;
      var deg', rest := deg[v := d], nbrs[1..];
      ReleaseAppends(deg', [], rest);
      if d == 0 {
        assert [] + [v] == [v];
        ReleaseAppends(deg', queue + [v], rest);
        ReleaseAppends(deg', [v], rest);
        AppendAssoc(queue, [v], Release(deg', [], rest).1);
      } else {
        ReleaseAppends(deg', queue, rest);
      }
    }
  }

  /** Each count loses the number of times its id is a successor. */
  lemma {:induction false} ReleaseCounts<T>(deg: map<T, int>, nbrs: seq<T>)
    requires forall v :: v in nbrs ==> v in deg
    ensures forall w :: w in deg ==> Release(deg, [], nbrs).0[w] == deg[w] - multiset(nbrs)[w]
    decreases |nbrs|
  {
    if nbrs != [] {
      var v := nbrs[0];
      var d := deg[v] - 1;
      var deg', rest := deg[v := d], nbrs[1..];
      assert nbrs == [v] + rest;
      assert multiset(nbrs) == multiset{v} + multiset(rest);
      assert [] + [v] == [v];
      ReleaseAppends(deg', if d == 0 then [v] else [], rest);
      ReleaseCounts(deg', rest);
    }
  }

  /** When no count can drop below 0, the ids appended are the successors
      whose count reaches exactly 0 ... */
  lemma {:induction false} ReleaseAdded<T>(deg: map<T, int>, nbrs: seq<T>)
    requires forall v :: v in nbrs ==> v in deg
    requires forall w :: w in deg ==> deg[w] >= multiset(nbrs)[w]
    ensures forall w :: w in Release(deg, [], nbrs).1 <==>
      w in deg && multiset(nbrs)[w] > 0 && deg[w] == multiset(nbrs)[w]
    decreases |nbrs|
  {
    if nbrs != [] {
      var v := nbrs[0];
      var d := deg[v] - 1;
      var deg', rest := deg[v := d], nbrs[1..];
      assert nbrs == [v] + rest;
      assert multiset(nbrs) == multiset{v} + multiset(rest);
      assert [] + [v] == [v];
      ReleaseAdded(deg', rest);
      var pushed := if d == 0 then [v] else [];
      var later := Release(deg', [], rest).1;
      ReleaseAppends(deg', pushed, rest);
      assert Release(deg, [], nbrs).1 == pushed + later;
      forall w ensures w in pushed + later <==> w in deg && multiset(nbrs)[w] > 0 && deg[w] == multiset(nbrs)[w] {
        if w != v {
          assert multiset(nbrs)[w] == multiset(rest)[w];
        }
      }
    }
  }

  /** ... and each of them is appended once. */
  lemma {:induction false} ReleaseAddedOnce<T>(deg: map<T, int>, nbrs: seq<T>)
    requires forall v :: v in nbrs ==> v in deg
    requires forall w :: w in deg ==> deg[w] >= multiset(nbrs)[w]
    ensures NoDup(Release(deg, [], nbrs).1)
    decreases |nbrs|
  {
    if nbrs != [] {
      var v := nbrs[0];
      var d := deg[v] - 1;
      var deg', rest := deg[v := d], nbrs[1..];
      assert nbrs == [v] + rest;
      assert multiset(nbrs) == multiset{v} + multiset(rest);
      assert [] + [v] == [v];
      ReleaseAddedOnce(deg', rest);
      if d == 0 {
        var later := Release(deg', [], rest).1;
        ReleaseAppends(deg', [v], rest);
        ReleaseAdded(deg', rest);
        assert multiset(rest)[v] == 0;
        NoDupCons(v, later);
      }
    }
  }

  lemma NoDupCons<T>(v: T, s: seq<T>)
    requires v !in s && NoDup(s)
    ensures NoDup([v] + s)
  {
    forall i, j | 0 <= i < j < |[v] + s| ensures ([v] + s)[i] != ([v] + s)[j] {
      assert ([v] + s)[j] == s[j - 1];
      if i > 0 {
        assert ([v] + s)[i] == s[i - 1];
      }
    }
  }

  lemma NoDupSubsetCard(s: seq<Id>, K: set<Id>)
    requires NoDup(s) && forall x :: x in s ==> x in K
    ensures |s| <= |K|
    decreases |s|
  {
    if s != [] {
      var x := s[|s| - 1];
      var init := s[..|s| - 1];
      assert forall y :: y in init ==> y in K - {x};
      NoDupSubsetCard(init, K - {x});
    }
  }

  lemma ElemsSnoc(s: seq<Id>, x: Id)
    ensures Elems(s + [x]) == Elems(s) + {x}
  {
  }

  /** The emitted ids grow by the dequeued id; the queue keeps its order. */
  lemma StepShape(result: seq<Id>, queue: seq<Id>, added: seq<Id>, q: seq<Id>)
    requires queue != [] && q == queue[1..] + added
    ensures result + [queue[0]] + q == result + queue + added
  {
    assert queue == [queue[0]] + queue[1..];
    AppendAssoc(result, [queue[0]], queue[1..]);
  }

  /** Emitting `cur` takes the edges from `cur` off every count; no count
      goes below 0. */
  lemma StepCounts(E: seq<Edge>, deg: map<Id, int>, R: set<Id>, cur: Id)
    requires cur !in R
    requires forall w :: w in deg ==> deg[w] == InDeg(E, w) - Into(E, w, R)
    ensures forall w :: w in deg ==>
      && deg[w] >= multiset(Out(E, cur))[w]
      && deg[w] - multiset(Out(E, cur))[w] == InDeg(E, w) - Into(E, w, R + {cur})
  {
    forall w | w in deg
      ensures deg[w] >= multiset(Out(E, cur))[w]
      ensures deg[w] - multiset(Out(E, cur))[w] == InDeg(E, w) - Into(E, w, R + {cur})
    {
      OutCount(E, cur, w);
      IntoAdd(E, w, R, cur);
      IntoFull(E, w, R + {cur});
    }
  }

  lemma NoDupAppend<T>(a: seq<T>, b: seq<T>)
    requires NoDup(a) && NoDup(b) && forall x :: x in b ==> x !in a
    ensures NoDup(a + b)
  {
    forall i, j | 0 <= i < j < |a + b| ensures (a + b)[i] != (a + b)[j] {
      if j >= |a| {
        assert (a + b)[j] == b[j - |a|];
        if i >= |a| {
          assert (a + b)[i] == b[i - |a|];
        } else {
          assert (a + b)[i] == a[i] && b[j - |a|] in b;
        }
      } else {
        assert (a + b)[i] == a[i] && (a + b)[j] == a[j];
      }
    }
  }

  /** The head of the queue has not been emitted yet, and every edge into
      it comes from an emitted id. */
  lemma HeadReady(E: seq<Edge>, K: set<Id>, s: State)
    requires Inv(E, K, s) && s.queue != []
    ensures s.queue[0] !in Elems(s.result)
    ensures AllSourcesIn(E, s.queue[0], s.result)
  {
    var result, queue, cur := s.result, s.queue, s.queue[0];
    assert (result + queue)[|result|] == cur;
    forall i | 0 <= i < |result| ensures result[i] != cur {
      assert (result + queue)[i] == result[i];
    }
    AllSourcesInCount(E, cur, result);
  }

  /** After a round, the in-degree map still counts the edges from ids not
      yet emitted, and an id is at zero exactly when it was seen. */
  lemma StepDegrees(E: seq<Edge>, K: set<Id>, s: State)
    requires Inv(E, K, s) && s.queue != []
    ensures var t := Step(E, s);
      forall w :: w in t.deg ==> t.deg[w] == InDeg(E, w) - Into(E, w, Elems(t.result))
    ensures var t := Step(E, s);
      forall w :: w in t.deg ==> (w in t.result || w in t.queue <==> t.deg[w] == 0)
  {
    var deg, result, queue := s.deg, s.result, s.queue;
    var cur := queue[0];
    var nbrs := Out(E, cur);
    OutWithinTargets(E, cur);
    HeadReady(E, K, s);
    StepCounts(E, deg, Elems(result), cur);
    ReleaseAppends(deg, queue[1..], nbrs);
    ReleaseCounts(deg, nbrs);
    ReleaseAdded(deg, nbrs);
    var r := Release(deg, queue[1..], nbrs);
    var added := Release(deg, [], nbrs).1;
    ElemsSnoc(result, cur);
    StepShape(result, queue, added, r.1);
    assert Step(E, s) == State(r.0, result + [cur], r.1);
  }

  /** The ids a round releases are distinct keys, none of them emitted or
      queued before. */
  lemma StepReleasesFresh(E: seq<Edge>, K: set<Id>, s: State, nbrs: seq<Id>)
    requires Inv(E, K, s) && s.queue != []
    requires nbrs == Out(E, s.queue[0]) && forall v :: v in nbrs ==> v in s.deg
    ensures var added := Release(s.deg, [], nbrs).1;
      NoDup(added) && forall x :: x in added ==> x in K && x !in s.result && x !in s.queue
  {
    var cur := s.queue[0];
    HeadReady(E, K, s);
    StepCounts(E, s.deg, Elems(s.result), cur);
    ReleaseAdded(s.deg, nbrs);
    ReleaseAddedOnce(s.deg, nbrs);
  }

  /** After a round, the emitted-or-queued ids are still distinct keys and
      the emitted ones still respect every edge. */
  lemma StepSeen(E: seq<Edge>, K: set<Id>, s: State)
    requires Inv(E, K, s) && s.queue != []
    ensures var t := Step(E, s);
      NoDup(t.result + t.queue) && (forall x :: x in t.result || x in t.queue ==> x in K)
    ensures Precedes(E, Step(E, s).result)
  {
    var result, queue := s.result, s.queue;
    var cur := queue[0];
    var nbrs := Out(E, cur);
    OutWithinTargets(E, cur);
    HeadReady(E, K, s);
    StepReleasesFresh(E, K, s, nbrs);
    ReleaseAppends(s.deg, queue[1..], nbrs);
    var r := Release(s.deg, queue[1..], nbrs);
    var added := Release(s.deg, [], nbrs).1;
    StepShape(result, queue, added, r.1);
    var seen := result + queue;
    assert Step(E, s) == State(r.0, result + [cur], r.1);
    NoDupAppend(seen, added);
    PrecedesSnoc(E, result, cur);
  }

  /** Dequeuing an id and releasing its successors keeps the invariant and
      emits one more id, of which there is room for. */
  lemma StepInv(E: seq<Edge>, K: set<Id>, s: State)
    requires Inv(E, K, s) && s.queue != []
    ensures Inv(E, K, Step(E, s))
    ensures |s.result| < |K| && |Step(E, s).result| == |s.result| + 1
  {
    NoDupSubsetCard(s.result + s.queue, K);
    StepDegrees(E, K, s);
    StepSeen(E, K, s);
  }

  lemma PrecedesSnoc(E: seq<Edge>, order: seq<Id>, x: Id)
    requires Precedes(E, order) && AllSourcesIn(E, x, order)
    ensures Precedes(E, order + [x])
  {
    var o := order + [x];
    forall p | 0 <= p < |o| ensures AllSourcesIn(E, o[p], o[..p]) {
      if p < |order| {
        assert o[..p] == order[..p] && o[p] == order[p];
      } else {
        assert o[..p] == order;
      }
    }
  }

  /** The queue empties within `fuel` rounds. */
  ghost predicate Finishes(E: seq<Edge>, s: State, fuel: nat)
    decreases fuel
  {
    Targets(E) <= s.deg.Keys &&
    (s.queue == [] || (fuel > 0 && Finishes(E, Step(E, s), fuel - 1)))
  }

  /** What the drained order satisfies, from any state of the invariant
      with enough rounds left. */
  lemma {:induction false} DrainSpec(E: seq<Edge>, K: set<Id>, s: State, fuel: nat)
    requires Inv(E, K, s)
    requires fuel >= |K| - |s.result|
    ensures Finishes(E, s, fuel)
    ensures var o := Drain(E, s, fuel);
      NoDup(o) && (forall x :: x in o ==> x in K) && Precedes(E, o) && Closed(E, K, o)
    decreases fuel
  {
    if s.queue == [] {
      DrainDone(E, K, s);
    } else {
      StepInv(E, K, s);
      DrainSpec(E, K, Step(E, s), fuel - 1);
      assert Drain(E, s, fuel) == Drain(E, Step(E, s), fuel - 1);
    }
  }

  /** A round only appends to the emitted-or-queued ids. */
  lemma StepAppends(E: seq<Edge>, s: State)
    requires Targets(E) <= s.deg.Keys && s.queue != []
    ensures s.result + s.queue <= Step(E, s).result + Step(E, s).queue
  {
    var cur := s.queue[0];
    OutWithinTargets(E, cur);
    ReleaseAppends(s.deg, s.queue[1..], Out(E, cur));
    StepShape(s.result, s.queue, Release(s.deg, [], Out(E, cur)).1, Step(E, s).queue);
  }

  /** A drain that finishes starts with the ids emitted or queued so far. */
  lemma {:induction false} DrainPrefix(E: seq<Edge>, s: State, fuel: nat)
    requires Finishes(E, s, fuel)
    ensures s.result + s.queue <= Drain(E, s, fuel)
    decreases fuel
  {
    if s.queue == [] {
      assert s.result + s.queue == s.result;
    } else {
      var t := Step(E, s);
      StepAppends(E, s);
      DrainPrefix(E, t, fuel - 1);
      PrefixTrans(s.result + s.queue, t.result + t.queue, Drain(E, t, fuel - 1));
    }
  }

  /** With the queue empty, the emitted ids are closed. */
  lemma DrainDone(E: seq<Edge>, K: set<Id>, s: State)
    requires Inv(E, K, s) && s.queue == []
    ensures NoDup(s.result) && (forall x :: x in s.result ==> x in K)
    ensures Closed(E, K, s.result)
  {
    var o := s.result;
    assert o + [] == o;
    forall w | w in K ensures w in o <==> AllSourcesIn(E, w, o) {
      AllSourcesInCount(E, w, o);
    }
  }

  lemma PrefixTrans<T>(a: seq<T>, b: seq<T>, c: seq<T>)
    requires a <= b && b <= c
    ensures a <= c
  {
    assert c[..|a|] == b[..|a|];
  }

  /** A state with nothing emitted and the zero-count keys queued once
      each satisfies the invariant. */
  lemma StartInv(E: seq<Edge>, K: set<Id>, deg: map<Id, int>, f: seq<Id>)
    requires deg.Keys == K && Targets(E) <= K
    requires forall w :: w in deg ==> deg[w] == InDeg(E, w)
    requires NoDup(f) && forall x :: x in f <==> x in K && InDeg(E, x) == 0
    ensures Inv(E, K, State(deg, [], f))
  {
    assert [] + f == f;
    assert Elems([]) == {};
    forall w | w in deg ensures deg[w] == InDeg(E, w) - Into(E, w, Elems([])) {
      IntoEmpty(E, w);
    }
  }

  /** The initial state satisfies the invariant. */
  lemma InitInv(nodes: seq<Node>, E: seq<Edge>)
    ensures Inv(E, KeySet(nodes, E), Start(nodes, E))
  {
    var K := KeySet(nodes, E);
    var f := Frontier(nodes, E);
    TargetsAreKeys(nodes, E);
    FrontierSpec(nodes, E);
    forall x ensures x in f <==> x in K && InDeg(E, x) == 0 {
      if x in K && InDeg(E, x) == 0 {
        ZeroKeysAreNodes(nodes, E, x);
      }
    }
    StartInv(E, K, InDegrees(nodes, E), f);
  }

  /** The order `topologicalSort` emits:
      - each id at most once, and only keys of the in-degree map;
      - the initial frontier (in-degree-0 node ids sorted by position) first;
      - every edge into an emitted id comes from an id emitted before it;
      - a key is emitted exactly when every edge into it comes from an
        emitted id. */
  lemma KahnSortSpec(nodes: seq<Node>, E: seq<Edge>)
    ensures var o := KahnSort(nodes, E);
      && NoDup(o) && (forall x :: x in o ==> x in InDegreeKeys(nodes, E))
      && Frontier(nodes, E) <= o
      && Precedes(E, o) && Closed(E, KeySet(nodes, E), o)
  {
    TargetsAreKeys(nodes, E);
    InitInv(nodes, E);
    DrainSpec(E, KeySet(nodes, E), Start(nodes, E), |KeySet(nodes, E)|);
    DrainPrefix(E, Start(nodes, E), |KeySet(nodes, E)|);
    assert [] + Frontier(nodes, E) == Frontier(nodes, E);
  }

  /** For every edge u->v with both ends emitted, u comes first. */
  lemma KahnSortOrdersEdges(nodes: seq<Node>, E: seq<Edge>, i: nat, p: nat, q: nat)
    requires i < |E|
    requires var o := KahnSort(nodes, E); p < |o| && q < |o| && o[p] == E[i].source && o[q] == E[i].target
    ensures p < q
  {
    var o := KahnSort(nodes, E);
    KahnSortSpec(nodes, E);
    assert AllSourcesIn(E, o[q], o[..q]);
    assert E[i].source in o[..q];
    var p' :| 0 <= p' < q && o[..q][p'] == E[i].source;
    assert o[p'] == o[p];
  }

  /** When every edge runs between document nodes and there is no cycle,
      every node id is emitted (and, by `KahnSortSpec`, only once). */
  lemma KahnSortComplete(nodes: seq<Node>, E: seq<Edge>)
    requires NoDangling(E, Elems(NodeIds(nodes))) && Acyclic(E)
    ensures forall x :: x in NodeIds(nodes) ==> x in KahnSort(nodes, E)
  {
    var K := KeySet(nodes, E);
    KahnSortSpec(nodes, E);
    TargetsAreKeys(nodes, E);
    forall x | x in NodeIds(nodes) ensures x in KahnSort(nodes, E) {
      KahnCompleteAt(E, K, KahnSort(nodes, E), x);
    }
  }

  /** No id on a cycle, nor any id reachable from one, is ever emitted. */
  lemma KahnSortExcludesCycles(nodes: seq<Node>, E: seq<Edge>, c: seq<Id>, lead: seq<Id>)
    requires IsCycle(E, c) && IsPath(E, lead) && lead[0] == c[0]
    ensures lead[|lead| - 1] !in KahnSort(nodes, E)
  {
    KahnSortSpec(nodes, E);
    DownstreamOfCycleExcluded(E, KahnSort(nodes, E), c, lead);
  }
}
