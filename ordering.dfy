/** The pieces of the compiler's ordering that are plain values: the node
    map, the insertion order of the in-degree map, the in-degree-0 filter,
    and the stable sort by layout position that orders the initial
    frontier (app/lib/compiler/prompt-compiler.ts, lines 11-58). */
module Ordering {
  import opened Types
  import opened Graph

  /** `new Map(nodes.map(n => [n.id, n]))`: a later node with a repeated id
      replaces the earlier one, but every id of the list is a key. */
  function NodeMap(nodes: seq<Node>): (m: map<Id, Node>)
    ensures forall id :: id in m <==> id in NodeIds(nodes)
    ensures forall id :: id in m ==> m[id].id == id && m[id] in nodes
  {
    if nodes == [] then map[]
    else NodeMap(nodes[..|nodes| - 1])[nodes[|nodes| - 1].id := nodes[|nodes| - 1]]
  }

  /** With unique ids, the map finds each node under its own id. */
  lemma {:induction false} NodeMapFinds(nodes: seq<Node>, i: nat)
    requires UniqueNodeIds(nodes) && i < |nodes|
    ensures NodeMap(nodes)[nodes[i].id] == nodes[i]
  {
    var init := nodes[..|nodes| - 1];
    if i < |nodes| - 1 {
      assert NodeIds(init) == NodeIds(nodes)[..|nodes| - 1];
      NodeMapFinds(init, i);
      assert nodes[i].id != nodes[|nodes| - 1].id by {
        assert NodeIds(nodes)[i] != NodeIds(nodes)[|nodes| - 1];
      }
    }
  }

  function TargetSeq(E: seq<Edge>): (t: seq<Id>)
    ensures |t| == |E| && forall i :: 0 <= i < |E| ==> t[i] == E[i].target
  {
    if E == [] then [] else TargetSeq(E[..|E| - 1]) + [E[|E| - 1].target]
  }

  /** The keys of a JavaScript `Map` filled by `set` calls in this order:
      first occurrences, in order of first occurrence. */
  function Dedup(s: seq<Id>): (d: seq<Id>)
    ensures forall x :: x in d <==> x in s
  {
    if s == [] then []
    else
      var d := Dedup(s[..|s| - 1]);
      if s[|s| - 1] in d then d else d + [s[|s| - 1]]
  }

  /** The key order holds each key once. */
  lemma {:induction false} DedupNoDup(s: seq<Id>)
    ensures NoDup(Dedup(s))
  {
    if s != [] {
      var init := s[..|s| - 1];
      DedupNoDup(init);
      var d := Dedup(init);
      var x := s[|s| - 1];
      if x !in d {
        forall i, j | 0 <= i < j < |d + [x]| ensures (d + [x])[i] != (d + [x])[j] {
          if j == |d| {
            assert (d + [x])[i] == d[i];
          } else {
            assert (d + [x])[i] == d[i] && (d + [x])[j] == d[j];
          }
        }
      }
    }
  }

  /** The ids of `keys` with in-degree 0, in order. */
  function Zeros(keys: seq<Id>, E: seq<Edge>): (z: seq<Id>)
    ensures forall x :: x in z <==> x in keys && InDeg(E, x) == 0
  {
    if keys == [] then []
    else Zeros(keys[..|keys| - 1], E) + (if InDeg(E, keys[|keys| - 1]) == 0 then [keys[|keys| - 1]] else [])
  }

  // ---------------------------------------------------------------------
  // Stable sort by position: y first, then x

  function PosOf(nodes: map<Id, Node>, id: Id): Position {
    if id in nodes then nodes[id].position else Position(0, 0)
  }

  /** The position the comparator reads for an id: the node's own, or the
      origin for an id without a node. */
  function PosKey(nodes: map<Id, Node>): Id -> Position {
    id => PosOf(nodes, id)
  }

  /** The comparator's strict order: smaller y first, then smaller x. */
  predicate PosLess(p: Position, q: Position) {
    p.y < q.y || (p.y == q.y && p.x < q.x)
  }

  ghost predicate SortedBy<T>(s: seq<T>, key: T -> Position) {
    forall i, j :: 0 <= i < j < |s| ==> !PosLess(key(s[j]), key(s[i]))
  }

  /** Places `x` after every element whose position is not after its own. */
  function Insert<T>(x: T, s: seq<T>, key: T -> Position): (r: seq<T>)
    ensures multiset(r) == multiset(s) + multiset{x}
  {
    if s == [] then [x]
    else if PosLess(key(x), key(s[0])) then [x] + s
    else
      assert s == [s[0]] + s[1..];
      [s[0]] + Insert(x, s[1..], key)
  }

  lemma {:induction false} InsertSorted<T>(x: T, s: seq<T>, key: T -> Position)
    requires SortedBy(s, key)
    ensures SortedBy(Insert(x, s, key), key)
  {
    if s == [] {
    } else if PosLess(key(x), key(s[0])) {
      var r := [x] + s;
      forall i, j | 0 <= i < j < |r| ensures !PosLess(key(r[j]), key(r[i])) {
        if i == 0 {
          assert r[j] == s[j - 1];
          if j > 1 {
            assert !PosLess(key(s[j - 1]), key(s[0]));
          }
        } else {
          assert r[i] == s[i - 1] && r[j] == s[j - 1];
        }
      }
    } else {
      var t := Insert(x, s[1..], key);
      InsertSorted(x, s[1..], key);
      var r := [s[0]] + t;
      forall k | 0 <= k < |t| ensures !PosLess(key(t[k]), key(s[0])) {
        assert t[k] in multiset(t);
        if t[k] != x {
          assert t[k] in multiset(s[1..]);
          var m :| 0 <= m < |s[1..]| && s[1..][m] == t[k];
          assert s[m + 1] == t[k];
        }
      }
      forall i, j | 0 <= i < j < |r| ensures !PosLess(key(r[j]), key(r[i])) {
        if i == 0 {
          assert r[j] == t[j - 1];
        } else {
          assert r[i] == t[i - 1] && r[j] == t[j - 1];
        }
      }
    }
  }

  /** A stable insertion sort by `key`. */
  function SortBy<T>(s: seq<T>, key: T -> Position): (r: seq<T>)
    ensures multiset(r) == multiset(s)
    ensures SortedBy(r, key)
  {
    if s == [] then []
    else
      var init, x := s[..|s| - 1], s[|s| - 1];
      var sorted := SortBy(init, key);
      InsertSorted(x, sorted, key);
      assert multiset(s) == multiset(init) + multiset{x} by {
        assert s == init + [x];
      }
      Insert(x, sorted, key)
  }

  /** `ids.sort(byPosition)`: ascending y, then x; JavaScript's sort is
      stable, so ids at equal positions keep their relative order. */
  function SortByPosition(s: seq<Id>, nodes: map<Id, Node>): (r: seq<Id>)
    ensures multiset(r) == multiset(s)
    ensures SortedBy(r, PosKey(nodes))
  {
    SortBy(s, PosKey(nodes))
  }

  /** The elements of `s` whose key is `p`, in order. */
  function AtPosition<T>(s: seq<T>, key: T -> Position, p: Position): seq<T>
  {
    if s == [] then []
    else (if key(s[0]) == p then [s[0]] else []) + AtPosition(s[1..], key, p)
  }

  lemma {:induction false} AtPositionAppend<T>(a: seq<T>, b: seq<T>, key: T -> Position, p: Position)
    ensures AtPosition(a + b, key, p) == AtPosition(a, key, p) + AtPosition(b, key, p)
  {
    if a == [] {
      assert a + b == b;
    } else {
      assert (a + b)[1..] == a[1..] + b;
      AtPositionAppend(a[1..], b, key, p);
    }
  }

  lemma {:induction false} AtPositionNone<T>(s: seq<T>, key: T -> Position, p: Position)
    requires forall k :: 0 <= k < |s| ==> key(s[k]) != p
    ensures AtPosition(s, key, p) == []
  {
    if s != [] {
      AtPositionNone(s[1..], key, p);
    }
  }

  /** Nothing in a sorted sequence sits below its head. */
  lemma SortedAbove<T>(s: seq<T>, key: T -> Position, p: Position)
    requires SortedBy(s, key)
    requires s != [] && PosLess(p, key(s[0]))
    ensures AtPosition(s, key, p) == []
  {
    forall k | 0 <= k < |s| ensures key(s[k]) != p {
      if k > 0 {
        assert !PosLess(key(s[k]), key(s[0]));
      }
    }
    AtPositionNone(s, key, p);
  }

  lemma AtPositionCons<T>(x: T, t: seq<T>, key: T -> Position, p: Position)
    ensures AtPosition([x] + t, key, p) == (if key(x) == p then [x] else []) + AtPosition(t, key, p)
  {
    assert ([x] + t)[1..] == t;
  }

  lemma AtPositionSingle<T>(x: T, key: T -> Position, p: Position)
    ensures AtPosition([x], key, p) == if key(x) == p then [x] else []
  {
    assert [x][1..] == [];
  }

  lemma {:induction false} InsertStable<T>(x: T, s: seq<T>, key: T -> Position, p: Position)
    requires SortedBy(s, key)
    ensures AtPosition(Insert(x, s, key), key, p) ==
      AtPosition(s, key, p) + (if key(x) == p then [x] else [])
  {
    if s == [] {
    } else if PosLess(key(x), key(s[0])) {
      if key(x) == p {
        SortedAbove(s, key, p);
      }
      AtPositionCons(x, s, key, p);
    } else {
      assert SortedBy(s[1..], key);
      InsertStable(x, s[1..], key, p);
      InsertStableSkip(x, s, key, p);
    }
  }

  /** When `x` goes after the head, the head's contribution comes first. */
  lemma InsertStableSkip<T>(x: T, s: seq<T>, key: T -> Position, p: Position)
    requires s != [] && !PosLess(key(x), key(s[0]))
    requires AtPosition(Insert(x, s[1..], key), key, p) ==
      AtPosition(s[1..], key, p) + (if key(x) == p then [x] else [])
    ensures AtPosition(Insert(x, s, key), key, p) ==
      AtPosition(s, key, p) + (if key(x) == p then [x] else [])
  {
    var t := Insert(x, s[1..], key);
    var head := if key(s[0]) == p then [s[0]] else [];
    var tail := if key(x) == p then [x] else [];
    calc {
      AtPosition(Insert(x, s, key), key, p);
      AtPosition([s[0]] + t, key, p);
      { AtPositionCons(s[0], t, key, p); }
      head + AtPosition(t, key, p);
      head + (AtPosition(s[1..], key, p) + tail);
      { AppendAssoc(head, AtPosition(s[1..], key, p), tail); }
      head + AtPosition(s[1..], key, p) + tail;
      { AtPositionCons(s[0], s[1..], key, p); assert [s[0]] + s[1..] == s; }
      AtPosition(s, key, p) + tail;
    }
  }

  /** Stability: at each position, the sorted elements appear in input
      order. */
  lemma {:induction false} SortStable<T>(s: seq<T>, key: T -> Position, p: Position)
    ensures AtPosition(SortBy(s, key), key, p) == AtPosition(s, key, p)
  {
    if s != [] {
      var init, x := s[..|s| - 1], s[|s| - 1];
      assert s == init + [x];
      var S := SortBy(init, key);
      SortStable(init, key, p);
      InsertStable(x, S, key, p);
      var tail := if key(x) == p then [x] else [];
      calc {
        AtPosition(SortBy(s, key), key, p);
        AtPosition(Insert(x, S, key), key, p);
        AtPosition(S, key, p) + tail;
        AtPosition(init, key, p) + tail;
        { AtPositionSingle(x, key, p); }
        AtPosition(init, key, p) + AtPosition([x], key, p);
        { AtPositionAppend(init, [x], key, p); }
        AtPosition(init + [x], key, p);
        AtPosition(s, key, p);
      }
    }
  }

  // ---------------------------------------------------------------------
  // The initial frontier

  /** The key order of the in-degree map: node ids, then edge targets that
      are not node ids (lines 22-35). */
  function InDegreeKeys(nodes: seq<Node>, E: seq<Edge>): seq<Id> {
    Dedup(NodeIds(nodes) + TargetSeq(E))
  }

  /** The initial Kahn frontier: the in-degree-0 keys in key order, sorted by
      position (lines 43-58). */
  function Frontier(nodes: seq<Node>, E: seq<Edge>): seq<Id> {
    SortByPosition(Zeros(InDegreeKeys(nodes, E), E), NodeMap(nodes))
  }

  lemma NoDupMultiset(s: seq<Id>)
    ensures NoDup(s) <==> forall x :: multiset(s)[x] <= 1
  {
    if NoDup(s) {
      forall x ensures multiset(s)[x] <= 1 {
        NoDupCount(s, x);
      }
    } else {
      var i, j :| 0 <= i < j < |s| && s[i] == s[j];
      assert s == s[..j] + [s[j]] + s[j + 1..];
      assert s[i] in s[..j];
      assert multiset(s)[s[i]] >= 2;
    }
  }

  lemma {:induction false} NoDupCount(s: seq<Id>, x: Id)
    requires NoDup(s)
    ensures multiset(s)[x] <= 1
  {
    if s != [] {
      var init := s[..|s| - 1];
      assert s == init + [s[|s| - 1]];
      NoDupCount(init, x);
      if s[|s| - 1] == x {
        assert x !in init;
      }
    }
  }

  lemma ZerosNoDup(keys: seq<Id>, E: seq<Edge>)
    requires NoDup(keys)
    ensures NoDup(Zeros(keys, E))
  {
    if keys != [] {
      var init := keys[..|keys| - 1];
      ZerosNoDup(init, E);
    }
  }

  /** Edge targets never reach the frontier: their in-degree is positive. */
  lemma {:induction false} ZerosSkipTargets(A: seq<Id>, E: seq<Edge>, n: nat)
    requires n <= |E|
    ensures Zeros(Dedup(A + TargetSeq(E[..n])), E) == Zeros(Dedup(A), E)
  {
    if n == 0 {
      assert A + TargetSeq(E[..0]) == A;
    } else {
      var t := E[n - 1].target;
      var B := A + TargetSeq(E[..n - 1]);
      assert A + TargetSeq(E[..n]) == B + [t] by {
        assert E[..n][..n - 1] == E[..n - 1];
      }
      assert Zeros(Dedup(B + [t]), E) == Zeros(Dedup(B), E) by {
        InDegPositive(E, n - 1);
        DedupZerosSkip(B, t, E);
      }
      ZerosSkipTargets(A, E, n - 1);
    }
  }

  lemma DedupZerosSkip(B: seq<Id>, t: Id, E: seq<Edge>)
    requires InDeg(E, t) > 0
    ensures Zeros(Dedup(B + [t]), E) == Zeros(Dedup(B), E)
  {
    assert (B + [t])[..|B|] == B;
    var d := Dedup(B);
    assert (d + [t])[..|d|] == d;
  }

  /** The initial frontier holds exactly the node ids of in-degree 0, once
      each, sorted by (y, x); ids at the same position keep the order of
      their first appearance in the node list. */
  lemma FrontierSpec(nodes: seq<Node>, E: seq<Edge>)
    ensures forall x :: x in Frontier(nodes, E) <==> x in NodeIds(nodes) && InDeg(E, x) == 0
    ensures NoDup(Frontier(nodes, E))
    ensures SortedBy(Frontier(nodes, E), PosKey(NodeMap(nodes)))
    ensures forall p ::
      AtPosition(Frontier(nodes, E), PosKey(NodeMap(nodes)), p) == AtPosition(Zeros(Dedup(NodeIds(nodes)), E), PosKey(NodeMap(nodes)), p)
  {
    var z := Zeros(Dedup(NodeIds(nodes)), E);
    var f := Frontier(nodes, E);
    assert Zeros(InDegreeKeys(nodes, E), E) == z by {
      ZerosSkipTargets(NodeIds(nodes), E, |E|);
      assert E[..|E|] == E;
    }
    assert multiset(f) == multiset(z);
    assert forall x :: x in f <==> x in z by {
      forall x ensures x in f <==> x in z {
        assert x in f <==> x in multiset(f);
        assert x in z <==> x in multiset(z);
      }
    }
    assert NoDup(f) by {
      DedupNoDup(NodeIds(nodes));
      ZerosNoDup(Dedup(NodeIds(nodes)), E);
      NoDupMultiset(z);
      NoDupMultiset(f);
    }
    forall p ensures AtPosition(f, PosKey(NodeMap(nodes)), p) == AtPosition(z, PosKey(NodeMap(nodes)), p) {
      SortStable(z, PosKey(NodeMap(nodes)), p);
    }
  }
}
