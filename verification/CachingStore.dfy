/** The caching layer as it runs: a circular doubly linked recency ring and a sorted
    index over the same nodes, in front of a key/value backend. */
module CachingStore {
  import opened ByteString
  import opened CacheModel

  /** The real store: it only ever answers success or not-found. */
  class Backend {
    var table: Table

    constructor (t: Table)
      ensures table == t
    {
      table := t;
    }

    method Fetch(key: Key) returns (e: Code, val: Value)
      ensures e == if key in table then Ok else Missing
      ensures val == if key in table then table[key] else []
    {
      if key in table {
        e, val := Ok, table[key];
      } else {
        e, val := Missing, [];
      }
    }

    method Put(key: Key, val: Value) returns (e: Code)
      modifies this
      ensures e == Ok && table == old(table)[key := val]
    {
      table := table[key := val];
      e := Ok;
    }

    method Del(key: Key) returns (e: Code)
      modifies this
      ensures e == DeleteCode(key, old(table)) && table == old(table) - {key}
    {
      e := if key in table then Ok else Missing;
      table := table - {key};
    }
  }

  /** Element of the circular doubly linked list. */
  class Cdll {
    var data: Data
    var prev: Cdll?
    var nxt: Cdll?

    constructor (d: Data)
      ensures data == d
    {
      data := d;
      prev, nxt := null, null;
    }
  }

  // --- the ring ---

  function Succ(k: nat, n: nat): nat
    requires k < n
    ensures Succ(k, n) < n
  {
    if k + 1 == n then 0 else k + 1
  }

  ghost predicate Distinct(nodes: seq<Cdll>) {
    forall i, j :: 0 <= i < j < |nodes| ==> nodes[i] != nodes[j]
  }

  /** The node at k and the one at t point at each other. */
  ghost predicate Joined(nodes: seq<Cdll>, k: nat, t: nat)
    requires k < |nodes| && t < |nodes|
    reads nodes`nxt, nodes`prev
  {
    nodes[k].nxt == nodes[t] && nodes[t].prev == nodes[k]
  }

  ghost predicate Linked(nodes: seq<Cdll>)
    reads nodes`nxt, nodes`prev
  {
    && Distinct(nodes)
    && forall k :: 0 <= k < |nodes| ==> Joined(nodes, k, Succ(k, |nodes|))
  }

  /** The position after k when j is stepped over. */
  function Over(k: nat, j: nat, n: nat): nat
    requires k < n && j < n
  {
    if Succ(k, n) == j then Succ(j, n) else Succ(k, n)
  }

  /** A ring whose links step over position j is the ring without that position. */
  lemma SteppedOver(nodes: seq<Cdll>, j: nat)
    requires Distinct(nodes) && 1 < |nodes| && j < |nodes|
    requires forall k :: 0 <= k < |nodes| && k != j ==> Joined(nodes, k, Over(k, j, |nodes|))
    ensures Linked(Without(nodes, j))
  {
    var n := |nodes|;
    var rest: seq<Cdll> := Without(nodes, j);
    assert forall k :: 0 <= k < |rest| ==> rest[k] == nodes[if k < j then k else k + 1];
    forall k | 0 <= k < |rest| ensures Joined(rest, k, Succ(k, |rest|)) {
      var k' := if k < j then k else k + 1;
      var s := Succ(k, |rest|);
      assert Joined(nodes, k', Over(k', j, n));
      assert Over(k', j, n) == if s < j then s else s + 1;
    }
  }

  /** Take a node out of a ring of two or more. */
  method Unlink(x: Cdll, ghost nodes: seq<Cdll>, ghost j: nat)
    requires Linked(nodes) && 1 < |nodes| && j < |nodes| && nodes[j] == x
    modifies nodes`prev, nodes`nxt
    ensures Linked(Without(nodes, j))
  {
    ghost var n := |nodes|;
    ghost var p := if j == 0 then n - 1 else j - 1;
    assert Joined(nodes, p, Succ(p, n)) && Joined(nodes, j, Succ(j, n));
    label before:
    x.nxt.prev := x.prev;
    x.prev.nxt := x.nxt;
    forall k | 0 <= k < n && k != j ensures Joined(nodes, k, Over(k, j, n)) {
      assert old@before(Joined(nodes, k, Succ(k, n)));
    }
    SteppedOver(nodes, j);
  }

  /** Put a node before the head of a ring. */
  method LinkBefore(x: Cdll, head: Cdll, ghost nodes: seq<Cdll>)
    requires Linked(nodes) && nodes != [] && nodes[0] == head && x !in nodes
    modifies x`prev, x`nxt, nodes`prev, nodes`nxt
    ensures Linked([x] + nodes)
  {
    ghost var n := |nodes|;
    assert Joined(nodes, n - 1, Succ(n - 1, n));
    label before:
    x.nxt := head;
    x.prev := head.prev;
    head.prev.nxt := x;
    head.prev := x;
    ghost var all: seq<Cdll> := [x] + nodes;
    forall k | 0 <= k < |all| ensures Joined(all, k, Succ(k, |all|)) {
      if 0 < k < n {
        assert old@before(Joined(nodes, k - 1, Succ(k - 1, n)));
      }
    }
  }

  // --- the sorted index ---

  /** The nodes of an index prefix; only such prefixes are free of null slots. */
  ghost predicate Full(nodes: seq<Cdll?>) {
    forall k :: 0 <= k < |nodes| ==> nodes[k] != null
  }

  ghost predicate Sorted(nodes: seq<Cdll?>)
    reads nodes`data
  {
    && Full(nodes)
    && forall i, j :: 0 <= i < j < |nodes| ==> Less(nodes[i].data.key, nodes[j].data.key)
  }

  ghost predicate DifferentKeys(nodes: seq<Cdll?>)
    reads nodes`data
  {
    && Full(nodes)
    && forall i, j :: 0 <= i < j < |nodes| ==> nodes[i].data.key != nodes[j].data.key
  }

  /** The index holds exactly the nodes of the ring. */
  ghost predicate SameNodes(nodes: seq<Cdll?>, ring: seq<Cdll>) {
    && (forall k :: 0 <= k < |nodes| ==> nodes[k] in ring)
    && (forall k :: 0 <= k < |ring| ==> ring[k] in nodes)
  }

  /** The C library's bsearch: the slot of the key in a sorted index, or n. */
  method BSearch(idx: array<Cdll?>, n: nat, key: Key) returns (slot: nat)
    requires n <= idx.Length && Sorted(idx[..n])
    ensures slot <= n
    ensures slot < n ==> idx[slot] != null && idx[slot].data.key == key
    ensures slot == n ==> forall k :: 0 <= k < n ==> idx[k] != null && idx[k].data.key != key
  {
    var lo, hi := 0, n;
    ghost var nodes := idx[..n];
    while lo < hi
      invariant 0 <= lo <= hi <= n
      invariant forall k :: 0 <= k < lo ==> nodes[k].data.key != key
      invariant forall k :: hi <= k < n ==> nodes[k].data.key != key
    {
      var mid := (lo + hi) / 2;
      assert idx[mid] == nodes[mid];
      var c := Cmp(key, idx[mid].data.key);
      CmpAntisymmetric(key, idx[mid].data.key);
      Halves(nodes, mid, key);
      if c == 0 {
        return mid;
      } else if c < 0 {
        hi := mid;
      } else {
        lo := mid + 1;
      }
    }
    slot := n;
    assert forall k :: 0 <= k < n ==> idx[k] == nodes[k];
  }

  lemma Halves(nodes: seq<Cdll?>, mid: nat, key: Key)
    requires Sorted(nodes) && mid < |nodes|
    ensures Less(key, nodes[mid].data.key) ==> forall k :: mid <= k < |nodes| ==> nodes[k].data.key != key
    ensures Less(nodes[mid].data.key, key) ==> forall k :: 0 <= k <= mid ==> nodes[k].data.key != key
  {
    forall k | 0 <= k < |nodes| && nodes[k].data.key == key
      ensures Less(key, nodes[mid].data.key) ==> k < mid
      ensures Less(nodes[mid].data.key, key) ==> k > mid
    {
      KeyOrderIsTotal(key, nodes[mid].data.key);
      KeyOrderIsTotal(key, key);
    }
  }

  /** One pass of the sort: the last of m + 1 nodes sinks to its place j. */
  method Sink(idx: array<Cdll?>, m: nat) returns (ghost j: nat)
    requires m < idx.Length && DifferentKeys(idx[..m + 1]) && Sorted(idx[..m])
    modifies idx
    ensures j <= m
    ensures idx[..] == Rotated(old(idx[..]), j, m)
    ensures Sorted(idx[..m + 1])
  {
    hide Sorted, Less;
    var i := m;
    ghost var before := idx[..];
    while 0 < i && Less(idx[i].data.key, idx[i - 1].data.key)
      invariant 0 <= i <= m
      invariant idx[..] == Rotated(before, i, m)
      invariant forall k :: i <= k < m ==> Less(before[m].data.key, before[k].data.key)
      invariant forall k :: 0 <= k <= m ==> before[k] != null
    {
      RotateMore(before, i, m);
      idx[i], idx[i - 1] := idx[i - 1], idx[i];
      i := i - 1;
    }
    j := i;
    SunkIsSorted(before, j, m);
    assert idx[..m + 1] == Rotated(before, j, m)[..m + 1];
  }

  /** s with its element m moved down to position j. */
  ghost function Rotated<T>(s: seq<T>, j: nat, m: nat): seq<T>
    requires j <= m < |s|
  {
    s[..j] + [s[m]] + s[j..m] + s[m + 1..]
  }

  lemma RotateMore<T>(s: seq<T>, i: nat, m: nat)
    requires 0 < i <= m < |s|
    ensures var t := Rotated(s, i, m);
      t[i - 1] == s[i - 1] && t[i] == s[m] && Rotated(s, i - 1, m) == t[i := t[i - 1]][i - 1 := t[i]]
  {
  }

  lemma SunkIsSorted(s: seq<Cdll?>, j: nat, m: nat)
    requires j <= m < |s| && DifferentKeys(s[..m + 1]) && Sorted(s[..m])
    requires forall k :: j <= k < m ==> s[k] != null && s[m] != null && Less(s[m].data.key, s[k].data.key)
    requires j > 0 ==> s[m] != null && s[j - 1] != null && !Less(s[m].data.key, s[j - 1].data.key)
    ensures Sorted(Rotated(s, j, m)[..m + 1])
  {
    var t := Rotated(s, j, m)[..m + 1];
    assert forall k :: 0 <= k <= m ==> s[k] == s[..m + 1][k];
    assert forall k :: 0 <= k < m ==> s[k] == s[..m][k];
    if j > 0 {
      KeyOrderIsTotal(s[j - 1].data.key, s[m].data.key);
    }
    forall p, q | 0 <= p < q < |t| ensures Less(t[p].data.key, t[q].data.key) {
      if q == j && p < j - 1 {
        assert Less(s[p].data.key, s[j - 1].data.key);
        LessTransitive(s[p].data.key, s[j - 1].data.key, s[m].data.key);
      }
    }
  }

  /** Where the element at position p of Rotated(s, j, m) comes from, and where it goes. */
  function Origin(p: nat, j: nat, m: nat): nat {
    if j <= p <= m then (if p == j then m else p - 1) else p
  }

  function Goal(p: nat, j: nat, m: nat): nat {
    if j <= p <= m then (if p == m then j else p + 1) else p
  }

  lemma RotatedAt<T>(s: seq<T>, j: nat, m: nat)
    requires j <= m < |s|
    ensures |Rotated(s, j, m)| == |s|
    ensures forall p :: 0 <= p < |s| ==> Rotated(s, j, m)[p] == s[Origin(p, j, m)]
  {
  }

  lemma RotatedKeepsKeys(s: seq<Cdll?>, j: nat, m: nat, n: nat)
    requires j <= m < n <= |s| && DifferentKeys(s[..n])
    ensures DifferentKeys(Rotated(s, j, m)[..n])
    ensures forall x :: x in s[..n] <==> x in Rotated(s, j, m)[..n]
  {
    var u := s[..n];
    var t := Rotated(s, j, m)[..n];
    RotatedAt(s, j, m);
    assert forall p :: 0 <= p < n ==> t[p] == u[Origin(p, j, m)];
    assert forall p :: 0 <= p < n ==> Origin(Goal(p, j, m), j, m) == p;
    forall x | x in u ensures x in t {
      var p :| 0 <= p < n && u[p] == x;
      assert t[Goal(p, j, m)] == x;
    }
  }

  /** The C library's qsort, with the store's own comparison. */
  method QSort(idx: array<Cdll?>, n: nat)
    requires n <= idx.Length && DifferentKeys(idx[..n])
    modifies idx
    ensures Sorted(idx[..n])
    ensures forall x :: x in idx[..n] <==> x in old(idx[..n])
  {
    var m := 0;
    while m < n
      invariant 0 <= m <= n
      invariant Sorted(idx[..m])
      invariant DifferentKeys(idx[..n])
      invariant forall x :: x in idx[..n] <==> x in old(idx[..n])
    {
      ghost var before := idx[..];
      assert before[..n] == idx[..n] && before[..n][..m + 1] == idx[..m + 1];
      ghost var j := Sink(idx, m);
      RotatedKeepsKeys(before, j, m, n);
      assert idx[..n] == idx[..][..n];
      m := m + 1;
    }
  }

  // --- the store ---

  ghost function Records(nodes: seq<Cdll>): seq<Data>
    reads nodes
  {
    seq(|nodes|, i requires 0 <= i < |nodes| reads nodes => nodes[i].data)
  }

  twostate lemma StillSorted(nodes: seq<Cdll?>)
    requires old(Sorted(nodes))
    requires forall k :: 0 <= k < |nodes| ==> nodes[k].data.key == old(nodes[k].data.key)
    ensures Sorted(nodes)
  {
  }

  lemma FrontRecords(x: Cdll, rest: seq<Cdll>)
    ensures Records([x] + rest) == [x.data] + Records(rest)
  {
  }

  lemma MovedRecords(nodes: seq<Cdll>, i: nat)
    requires i < |nodes|
    ensures Records([nodes[i]] + Without(nodes, i)) == [nodes[i].data] + Without(Records(nodes), i)
    ensures forall y :: y in nodes <==> y in [nodes[i]] + Without(nodes, i)
  {
    var rest := Without(nodes, i);
    assert nodes == nodes[..i] + [nodes[i]] + nodes[i + 1..];
    assert forall k :: 0 <= k < |rest| ==> rest[k] == nodes[if k < i then k else k + 1];
  }

  lemma MovedNodes(slots: seq<Cdll?>, nodes: seq<Cdll>, i: nat)
    requires i < |nodes| && SameNodes(slots, nodes)
    ensures SameNodes(slots, [nodes[i]] + Without(nodes, i))
  {
    MovedRecords(nodes, i);
    var moved := [nodes[i]] + Without(nodes, i);
    forall k | 0 <= k < |slots| ensures slots[k] in moved {
      assert slots[k] in nodes;
    }
    forall k | 0 <= k < |moved| ensures moved[k] in slots {
      assert moved[k] in moved;
    }
  }

  class Caching {
    const maxcache: nat
    const idx: array<Cdll?>
    const store: Backend
    var cached: nat
    var head: Cdll?
    ghost var ring: seq<Cdll>  // the nodes from head on

    ghost predicate Valid()
      reads this, ring, idx
    {
      && 0 < maxcache == idx.Length
      && cached == |ring| <= maxcache
      && Linked(ring)
      && head == (if ring == [] then null else ring[0])
      && SameNodes(idx[..cached], ring)
      && Sorted(idx[..cached])
    }

    ghost function State(): Cache
      reads this, ring, store
    {
      Cache(Records(ring), store.table)
    }

    constructor (max: nat, backend: Backend)
      ensures Valid() && fresh(idx) && store == backend
      ensures maxcache == if max == 0 then 1000 else max
      ensures State() == Cache([], backend.table)
    {
      maxcache := if max == 0 then 1000 else max;
      idx := new Cdll?[if max == 0 then 1000 else max](_ => null);
      store := backend;
      cached := 0;
      head := null;
      ring := [];
    }

    /** A slot holds the searched key exactly when the ring does, at the same node. */
    lemma SlotInRing(key: Key, slot: nat)
      requires Valid() && slot <= cached
      requires slot < cached ==> idx[slot] != null && idx[slot].data.key == key
      requires slot == cached ==> forall k :: 0 <= k < cached ==> idx[k] != null && idx[k].data.key != key
      ensures DistinctKeys(Records(ring))
      ensures var i := Find(Records(ring), key);
        (slot < cached <==> i < |ring|) && (i < |ring| ==> ring[i] == idx[slot])
    {
      var nodes := idx[..cached];
      forall i, j | 0 <= i < j < |ring| ensures ring[i].data.key != ring[j].data.key {
        assert ring[i] in nodes && ring[j] in nodes;
        var a :| 0 <= a < cached && nodes[a] == ring[i];
        var b :| 0 <= b < cached && nodes[b] == ring[j];
        KeyOrderIsTotal(nodes[a].data.key, nodes[a].data.key);
      }
      var i := Find(Records(ring), key);
      if slot < cached {
        assert nodes[slot] in nodes;
        var j :| 0 <= j < |ring| && ring[j] == idx[slot];
        assert Records(ring)[j].key == key;
        FindAt(Records(ring), j);
      }
    }

    /** Every other slot holds a node of the ring, under a key of its own. */
    ghost predicate Vacant(slot: nat, key: Key)
      reads this, idx, ring
      requires cached <= idx.Length
    {
      && slot < cached && idx[slot] != null
      && (forall k :: 0 <= k < cached && k != slot ==>
            idx[k] in ring && idx[k].data.key != key)
      && (forall i, j :: 0 <= i < j < cached && i != slot && j != slot ==>
            idx[i].data.key != idx[j].data.key)
      && (forall k :: 0 <= k < |ring| ==> ring[k] in idx[..cached])
    }

    /** The node before the head leaves the ring; a ring of one keeps its links. */
    method UnlinkTail() returns (x: Cdll)
      requires Linked(ring) && ring != [] && head == ring[0]
      modifies `head, `ring, ring`prev, ring`nxt
      ensures old(ring) == ring + [x] && x !in ring && Linked(ring)
      ensures head == if ring == [] then x else ring[0]
      ensures ring == [] ==> x.nxt == x == x.prev
    {
      ghost var n := |ring|;
      ghost var p := if n == 1 then 0 else n - 2;
      assert Joined(ring, n - 1, Succ(n - 1, n)) && Joined(ring, p, Succ(p, n));
      label before:
      x := head.prev;
      head := x.nxt;
      head.prev := x.prev;
      head.prev.nxt := head;
      if n > 1 {
        ghost var j := n - 1;
        forall k | 0 <= k < n && k != j ensures Joined(ring, k, Over(k, j, n)) {
          assert old@before(Joined(ring, k, Succ(k, n)));
        }
        SteppedOver(ring, j);
        assert Without(ring, j) == ring[..n - 1];
      }
      ring := ring[..n - 1];
    }

    /** The slot of a node in the index. */
    method SlotOf(x: Cdll) returns (slot: nat)
      requires cached <= idx.Length && Sorted(idx[..cached]) && x in idx[..cached]
      ensures slot < cached && idx[slot] == x
    {
      ghost var nodes := idx[..cached];
      slot := BSearch(idx, cached, x.data.key);
      ghost var k :| 0 <= k < cached && nodes[k] == x;
      assert idx[k] == x;
      assert nodes[slot] == idx[slot];
      KeyOrderIsTotal(x.data.key, x.data.key);
    }

    /** The store callback: only dirty records are written. */
    method Save(d: Data)
      modifies store
      ensures store.table == WriteBack(d, old(store.table))
    {
      if d.state == Changed {
        var _ := store.Put(d.key, d.val);
      }
    }

    /** The least recently used node leaves the ring; the backend is given its record. */
    method EvictLast(key: Key) returns (x: Cdll, slot: nat)
      requires Valid() && cached == maxcache
      requires forall k :: 0 <= k < cached ==> idx[k].data.key != key
      modifies `head, `ring, ring`prev, ring`nxt, store
      ensures old(ring) == ring + [x] && x !in ring && Linked(ring)
      ensures store.table == WriteBack(x.data, old(store.table))
      ensures head == if ring == [] then x else ring[0]
      ensures ring == [] ==> x.nxt == x == x.prev
      ensures Vacant(slot, key) && idx[slot] == x
    {
      hide Linked, Sorted, WriteBack;
      x := UnlinkTail();
      assert x == old(ring)[|ring|];
      slot := SlotOf(x);
      OtherSlots(old(ring), slot, key);
      Save(x.data);
    }

    lemma OtherSlots(before: seq<Cdll>, slot: nat, key: Key)
      requires cached <= idx.Length && slot < cached && idx[slot] != null
      requires before == ring + [idx[slot]]
      requires Sorted(idx[..cached]) && SameNodes(idx[..cached], before)
      requires forall k :: 0 <= k < cached ==> idx[k] != null && idx[k].data.key != key
      ensures Vacant(slot, key)
    {
      var nodes := idx[..cached];
      forall i, j | 0 <= i < j < cached ensures idx[i].data.key != idx[j].data.key {
        assert nodes[i] == idx[i] && nodes[j] == idx[j];
        KeyOrderIsTotal(idx[i].data.key, idx[j].data.key);
      }
      forall k | 0 <= k < cached && k != slot ensures idx[k] in ring {
        assert nodes[k] in before && nodes[k] != nodes[slot];
      }
      forall k | 0 <= k < |ring| ensures ring[k] in nodes {
        assert before[k] == ring[k];
      }
    }

    /** A new node in the next free slot of the index. */
    method Grow(key: Key) returns (x: Cdll, ghost slot: nat)
      requires Valid() && cached < maxcache
      requires forall k :: 0 <= k < cached ==> idx[k].data.key != key
      modifies `cached, idx
      ensures fresh(x) && cached == old(cached) + 1
      ensures Vacant(slot, key) && idx[slot] == x
    {
      ghost var nodes := idx[..cached];
      forall i, j | 0 <= i < j < cached ensures idx[i].data.key != idx[j].data.key {
        assert nodes[i] == idx[i] && nodes[j] == idx[j];
        KeyOrderIsTotal(idx[i].data.key, idx[j].data.key);
      }
      assert forall k :: 0 <= k < cached ==> nodes[k] == idx[k];
      x := new Cdll(Data(key, [], Undef));
      idx[cached] := x;
      slot := cached;
      cached := cached + 1;
      assert idx[..cached] == nodes + [x];
    }

    /** A node and an index slot for a new key: the least recently used ones when the cache is full. */
    method TakeSlot(key: Key) returns (x: Cdll, ghost slot: nat)
      requires Valid() && forall k :: 0 <= k < cached ==> idx[k].data.key != key
      modifies this, ring`prev, ring`nxt, idx, store
      ensures Linked(ring) && x !in ring && cached == |ring| + 1 <= maxcache
      ensures Records(ring) == Evict(old(State()), maxcache).entries
      ensures store.table == Evict(old(State()), maxcache).table
      ensures ring <= old(ring)
      ensures x in old(ring) || fresh(x)
      ensures ring != [] ==> head == ring[0]
      ensures ring == [] ==> head == null || (head == x && x.nxt == x == x.prev)
      ensures Vacant(slot, key) && idx[slot] == x
    {
      if cached >= maxcache {
        x, slot := EvictLast(key);
        assert old(Records(ring)) == Records(ring) + [x.data];
      } else {
        x, slot := Grow(key);
      }
    }

    /** Put the node at the head of the ring. */
    method PushFront(x: Cdll)
      requires Linked(ring) && x !in ring
      requires ring != [] ==> head == ring[0]
      requires ring == [] ==> head == null || (head == x && x.nxt == x == x.prev)
      modifies `head, `ring, x`prev, x`nxt, ring`prev, ring`nxt
      ensures ring == [x] + old(ring) && head == x && Linked(ring)
    {
      if head != null {
        if head == x {
          x.nxt := head;
          x.prev := head.prev;
          head.prev.nxt := x;
          head.prev := x;
        } else {
          LinkBefore(x, head, ring);
        }
      } else {
        x.nxt := x;
        x.prev := x;
      }
      head := x;
      ring := [x] + ring;
    }

    /** What the request leaves in the record of a key that was not cached. */
    method Fill(x: Cdll, op: Op, d: Data) returns (e: Code)
      modifies x`data, store
      ensures x.data == Filled(op, d, old(store.table))
      ensures store.table == AfterOp(op, d.key, old(store.table))
      ensures e == OpCode(op, d.key, old(store.table))
    {
      e := Ok;
      match op {
        case Write =>
          x.data := d;
        case Remove =>
          x.data := d;
          e := store.Del(d.key);
          x.data := x.data.(state := NotFound);
        case _ =>
          var r, val := store.Fetch(d.key);
          x.data := if r == Ok then Data(d.key, val, Exists) else d.(state := NotFound);
      }
    }

    /** Sort the index again once one slot has a new key. */
    method Reindex(ghost slot: nat)
      requires 0 < maxcache == idx.Length && cached == |ring| <= maxcache
      requires Linked(ring) && ring != [] && head == ring[0]
      requires slot < cached && idx[slot] == head
      requires SameNodes(idx[..cached], ring) && DifferentKeys(idx[..cached])
      modifies idx
      ensures Valid()
    {
      ghost var nodes := idx[..cached];
      if cached > 1 {
        QSort(idx, cached);
      }
      assert forall k :: 0 <= k < cached ==> idx[..cached][k] in nodes;
    }

    /** The node joins the ring at its head and the index under its new key. */
    method Enter(x: Cdll, ghost slot: nat)
      requires 0 < maxcache == idx.Length && cached == |ring| + 1 <= maxcache
      requires Linked(ring) && x !in ring
      requires ring != [] ==> head == ring[0]
      requires ring == [] ==> head == null || (head == x && x.nxt == x == x.prev)
      requires Vacant(slot, x.data.key) && idx[slot] == x
      modifies `head, `ring, x`prev, x`nxt, ring`prev, ring`nxt, idx
      ensures Valid() && ring == [x] + old(ring) && head == x
      ensures Records(ring) == [x.data] + old(Records(ring))
    {
      FrontRecords(x, ring);
      PushFront(x);
      assert DifferentKeys(idx[..cached]);
      Reindex(slot);
    }

    /** A miss: find room, fill the record, put it first, sort the index again. */
    method Miss(op: Op, d: Data) returns (e: Code)
      requires Valid() && forall k :: 0 <= k < cached ==> idx[k].data.key != d.key
      modifies this, ring, idx, store
      ensures Valid() && head != null
      ensures Records(ring) ==
        [Filled(op, d, Evict(old(State()), maxcache).table)] + Evict(old(State()), maxcache).entries
      ensures store.table == AfterOp(op, d.key, Evict(old(State()), maxcache).table)
      ensures e == OpCode(op, d.key, Evict(old(State()), maxcache).table)
      ensures forall k :: 0 <= k < |ring| ==> ring[k] in old(ring) || fresh(ring[k])
    {
      hide Linked, SameNodes, Sorted, Evict, AfterOp, OpCode, Vacant;
      ghost var slot: nat;
      var x;
      x, slot := TakeSlot(d.key);
      ghost var rest, records := ring, Records(ring);
      e := Fill(x, op, d);
      assert Records(rest) == records;
      Enter(x, slot);
    }

    /** A hit: bring the node to the front. */
    method MoveToFront(x: Cdll, ghost i: nat)
      requires Linked(ring) && i < |ring| && ring[i] == x && head == ring[0]
      modifies `head, `ring, ring`prev, ring`nxt
      ensures ring == [x] + Without(old(ring), i) && head == x && Linked(ring)
    {
      if head != x {
        Unlink(x, ring, i);
        ring := Without(ring, i);
        PushFront(x);
      }
    }

    /** What the request leaves in the record of a cached key. */
    method Touch(x: Cdll, op: Op, d: Data) returns (e: Code)
      modifies x`data, store
      ensures x.data == Touched(op, d, old(x.data))
      ensures store.table == AfterOp(op, d.key, old(store.table))
      ensures e == OpCode(op, d.key, old(store.table))
    {
      e := Ok;
      match op {
        case Write =>
          x.data := d;
        case Remove =>
          x.data := d;
          e := store.Del(d.key);
          x.data := x.data.(state := NotFound);
        case _ =>
      }
    }

    /** A hit on slot: its node leads the ring, and the index still serves. */
    method Lead(slot: nat, ghost i: nat) returns (x: Cdll)
      requires Valid() && slot < cached && i < |ring| && ring[i] == idx[slot]
      modifies `head, `ring, ring`prev, ring`nxt
      ensures Valid() && head == x == idx[slot]
      ensures Records(ring) == [x.data] + Without(old(Records(ring)), i)
      ensures forall k :: 0 <= k < |ring| ==> ring[k] in old(ring)
    {
      x := idx[slot];
      MovedRecords(ring, i);
      MovedNodes(idx[..cached], ring, i);
      MoveToFront(x, i);
    }

    /** The record at the head is renewed under the same key. */
    method Renew(op: Op, d: Data) returns (e: Code)
      requires Valid() && head != null && head.data.key == d.key
      modifies head`data, store
      ensures Valid()
      ensures Records(ring) == old(Records(ring))[0 := Touched(op, d, old(head.data))]
      ensures store.table == AfterOp(op, d.key, old(store.table))
      ensures e == OpCode(op, d.key, old(store.table))
    {
      e := Touch(head, op, d);
      StillSorted(idx[..cached]);
    }

    /** A hit: bring the node to the front and renew its record. */
    method Refresh(op: Op, d: Data, slot: nat, ghost i: nat) returns (e: Code)
      requires Valid() && slot < cached && idx[slot].data.key == d.key
      requires i < |ring| && ring[i] == idx[slot]
      modifies this, ring, store
      ensures Valid() && head != null
      ensures Records(ring) == [Touched(op, d, old(ring[i].data))] + Without(old(Records(ring)), i)
      ensures store.table == AfterOp(op, d.key, old(store.table))
      ensures e == OpCode(op, d.key, old(store.table))
      ensures forall k :: 0 <= k < |ring| ==> ring[k] in old(ring)
    {
      hide Linked, SameNodes, Sorted, Touched, AfterOp, OpCode;
      var _ := Lead(slot, i);
      e := Renew(op, d);
    }

    /** One request against the cache; out is a copy of the record now at the head. */
    method CacheKey(op: Op, d: Data) returns (e: Code, out: Data)
      requires Valid()
      modifies this, ring, idx, store
      ensures Valid()
      ensures (State(), e) == Step(old(State()), maxcache, op, d)
      ensures out == State().entries[0]
      ensures forall k :: 0 <= k < |ring| ==> ring[k] in old(ring) || fresh(ring[k])
    {
      var slot := BSearch(idx, cached, d.key);
      SlotInRing(d.key, slot);
      if slot == cached {
        e := Miss(op, d);
      } else {
        e := Refresh(op, d, slot, Find(Records(ring), d.key));
      }
      out := head.data;
    }

    /** Offer every record to the backend, from the head round the ring, and forget them all. */
    method PurgeCache()
      requires Valid()
      modifies this, store
      ensures Valid() && ring == [] && State() == Purged(old(State()))
    {
      if head == null {
        return;
      }
      var p := head;
      ghost var n, k, records := |ring|, 0, Records(ring);
      while true
        invariant head == old(head) && ring == old(ring)
        invariant 0 <= k < n && p == ring[k]
        invariant FlushAll(records[k..], store.table) == FlushAll(records, old(store.table))
        decreases n - k
      {
        var q := p;
        assert Joined(ring, k, Succ(k, n));
        assert records[k..][0] == q.data && records[k..][1..] == records[k + 1..];
        p := p.nxt;
        Save(q.data);
        k := k + 1;
        if p == head {
          assert k == n;
          break;
        }
      }
      head := null;
      cached := 0;
      ring := [];
    }

    // --- the callers' operations; each is its counterpart in CacheModel ---

    method Fetch(key: Key) returns (r: Reply)
      requires Valid()
      modifies this, ring, idx, store
      ensures Valid()
      ensures (State(), r) == ExecFetch(old(State()), maxcache, key)
      ensures forall k :: 0 <= k < |ring| ==> ring[k] in old(ring) || fresh(ring[k])
    {
      var _, out := CacheKey(Read, Data(key, [], Undef));
      r := if out.state == NotFound then Absent else Got(out.val);
    }

    method Store(key: Key, val: Value) returns (r: Reply)
      requires Valid()
      modifies this, ring, idx, store
      ensures Valid()
      ensures (State(), r) == ExecStore(old(State()), maxcache, key, val)
      ensures forall k :: 0 <= k < |ring| ==> ring[k] in old(ring) || fresh(ring[k])
    {
      var e, _ := CacheKey(Write, Data(key, val, Changed));
      r := ReplyOf(e);
    }

    method ExistsKey(key: Key) returns (r: Reply)
      requires Valid()
      modifies this, ring, idx, store
      ensures Valid()
      ensures (State(), r) == ExecExists(old(State()), maxcache, key)
      ensures forall k :: 0 <= k < |ring| ==> ring[k] in old(ring) || fresh(ring[k])
    {
      var _, out := CacheKey(Probe, Data(key, [], Undef));
      r := if Live(out) then Done else Absent;
    }

    method Delete(key: Key) returns (r: Reply)
      requires Valid()
      modifies this, ring, idx, store
      ensures Valid()
      ensures (State(), r) == ExecDelete(old(State()), maxcache, key)
      ensures forall k :: 0 <= k < |ring| ==> ring[k] in old(ring) || fresh(ring[k])
    {
      var e, _ := CacheKey(Remove, Data(key, [], Undef));
      r := ReplyOf(e);
    }

    /** Increment, or decrement, a packed counter through the cache. */
    method Bump(key: Key, up: bool) returns (r: Reply)
      requires Valid()
      requires var f := ExecFetch(State(), maxcache, key).1; f.Got? ==> |f.val| >= 4
      modifies this, ring, idx, store
      ensures Valid()
      ensures (State(), r) == ExecBump(old(State()), maxcache, key, up)
      ensures forall k :: 0 <= k < |ring| ==> ring[k] in old(ring) || fresh(ring[k])
    {
      r := Fetch(key);
      if r == Absent {
        return;
      }
      var v := Bumped(r.val, up);
      var _ := Store(key, v);
      r := Got(v);
    }

    method Sync()
      requires Valid()
      modifies this, store
      ensures Valid() && ring == [] && State() == Purged(old(State()))
    {
      PurgeCache();
    }
  }
}
