/** The caching layer on values: what one cachekey step does to the recency list and
    to the backend, and what that means to a caller who knows only a plain table. */
module CacheModel {
  import opened ByteString
  import opened Options

  type Key = Bytes
  type Value = Bytes
  type Table = map<Key, Value>

  datatype State = Undef | Exists | Changed | NotFound | Deleted

  /** A cached record; an absent value is the empty string. */
  datatype Data = Data(key: Key, val: Value, state: State)

  datatype Op = Read | Write | Probe | Remove

  datatype Code = Ok | Missing

  /** entries are the cached records, most recently used first. */
  datatype Cache = Cache(entries: seq<Data>, table: Table)

  /** Position of a key in the recency list, or its length. */
  function Find(entries: seq<Data>, key: Key): (i: nat)
    ensures i <= |entries|
    ensures i < |entries| ==> entries[i].key == key
    ensures forall j :: 0 <= j < i ==> entries[j].key != key
  {
    if entries == [] || entries[0].key == key then 0 else 1 + Find(entries[1..], key)
  }

  // --- the callbacks ---

  /** Only dirty records reach the backend. */
  function WriteBack(d: Data, table: Table): Table {
    if d.state == Changed then table[d.key := d.val] else table
  }

  /** Positives and negatives are both cached. */
  function Fetched(d: Data, table: Table): Data {
    if d.key in table then Data(d.key, table[d.key], Exists) else d.(state := NotFound)
  }

  function DeleteCode(key: Key, table: Table): Code {
    if key in table then Ok else Missing
  }

  // --- cachekey ---

  function Without<T>(s: seq<T>, i: nat): seq<T>
    requires i < |s|
  {
    s[..i] + s[i + 1..]
  }

  /** The record cachekey files for a key that was not cached. */
  function Filled(op: Op, d: Data, table: Table): Data {
    match op
    case Write => d
    case Remove => d.(state := NotFound)
    case Read => Fetched(d, table)
    case Probe => Fetched(d, table)
  }

  /** The record after a hit. */
  function Touched(op: Op, d: Data, cached: Data): Data {
    match op
    case Write => d
    case Remove => d.(state := NotFound)
    case Read => cached
    case Probe => cached
  }

  function Evict(c: Cache, max: nat): Cache {
    if 0 < max <= |c.entries| then
      Cache(c.entries[..|c.entries| - 1], WriteBack(c.entries[|c.entries| - 1], c.table))
    else c
  }

  function AfterOp(op: Op, key: Key, table: Table): Table {
    if op == Remove then table - {key} else table
  }

  function OpCode(op: Op, key: Key, table: Table): Code {
    if op == Remove then DeleteCode(key, table) else Ok
  }

  function Step(c: Cache, max: nat, op: Op, d: Data): (Cache, Code) {
    var i := Find(c.entries, d.key);
    if i < |c.entries| then
      (Cache([Touched(op, d, c.entries[i])] + Without(c.entries, i), AfterOp(op, d.key, c.table)),
       OpCode(op, d.key, c.table))
    else
      var e := Evict(c, max);
      (Cache([Filled(op, d, e.table)] + e.entries, AfterOp(op, d.key, e.table)),
       OpCode(op, d.key, e.table))
  }

  /** purgecache: every record is offered to the backend, from the head on. */
  function FlushAll(entries: seq<Data>, table: Table): Table {
    if entries == [] then table else FlushAll(entries[1..], WriteBack(entries[0], table))
  }

  function Purged(c: Cache): Cache {
    Cache([], FlushAll(c.entries, c.table))
  }

  // --- what a caller sees ---

  ghost predicate DistinctKeys(entries: seq<Data>) {
    forall i, j :: 0 <= i < j < |entries| ==> entries[i].key != entries[j].key
  }

  /** Clean records agree with the backend; every record is clean, dirty or a cached miss. */
  ghost predicate Agrees(d: Data, table: Table) {
    match d.state
    case Exists => d.key in table && table[d.key] == d.val
    case NotFound => d.key !in table
    case Changed => true
    case _ => false
  }

  ghost predicate Coherent(c: Cache, max: nat) {
    && 0 < max
    && |c.entries| <= max
    && DistinctKeys(c.entries)
    && forall i :: 0 <= i < |c.entries| ==> Agrees(c.entries[i], c.table)
  }

  function Get(entries: seq<Data>, key: Key): (r: Option<Data>)
    ensures r.Some? ==> r.value in entries && r.value.key == key
    ensures r.None? ==> forall d :: d in entries ==> d.key != key
  {
    var i := Find(entries, key);
    if i < |entries| then Some(entries[i]) else None
  }

  predicate Live(d: Data) {
    d.state == Exists || d.state == Changed
  }

  /** The cached record decides; the backend answers for every other key. */
  predicate Visible(entry: Option<Data>, key: Key, table: Table) {
    match entry
    case Some(d) => Live(d)
    case None => key in table
  }

  function Seen(entry: Option<Data>, key: Key, table: Table): Value
    requires Visible(entry, key, table)
  {
    match entry
    case Some(d) => d.val
    case None => table[key]
  }

  /** The plain table a cache stands for: each record overlays the backend. */
  function Overlay(entries: seq<Data>, table: Table): Table {
    if entries == [] then table
    else
      var rest := Overlay(entries[1..], table);
      var d := entries[0];
      if Live(d) then rest[d.key := d.val] else rest - {d.key}
  }

  function Abs(c: Cache): Table {
    Overlay(c.entries, c.table)
  }

  // --- the caller's operations ---

  datatype Call =
    | Fetch(key: Key)
    | Store(key: Key, val: Value)
    | ExistsKey(key: Key)
    | Delete(key: Key)
    | Inc(key: Key)
    | Dec(key: Key)
    | Sync

  datatype Reply = Got(val: Value) | Done | Absent

  /** A 32-bit counter at the front of a value moves by one, wrapping at the word size. */
  function Bumped(v: Value, up: bool): Value
    requires |v| >= 4
  {
    PackInt((UnpackInt(v) + (if up then 1 else WORD - 1)) % WORD) + v[4..]
  }

  function ReplyOf(code: Code): Reply {
    if code == Ok then Done else Absent
  }

  function ExecFetch(c: Cache, max: nat, key: Key): (Cache, Reply) {
    var (c', _) := Step(c, max, Read, Data(key, [], Undef));
    (c', if c'.entries[0].state == NotFound then Absent else Got(c'.entries[0].val))
  }

  function ExecStore(c: Cache, max: nat, key: Key, val: Value): (Cache, Reply) {
    var (c', e) := Step(c, max, Write, Data(key, val, Changed));
    (c', ReplyOf(e))
  }

  function ExecExists(c: Cache, max: nat, key: Key): (Cache, Reply) {
    var (c', _) := Step(c, max, Probe, Data(key, [], Undef));
    (c', if Live(c'.entries[0]) then Done else Absent)
  }

  function ExecDelete(c: Cache, max: nat, key: Key): (Cache, Reply) {
    var (c', e) := Step(c, max, Remove, Data(key, [], Undef));
    (c', ReplyOf(e))
  }

  function ExecBump(c: Cache, max: nat, key: Key, up: bool): (Cache, Reply)
    requires ExecFetch(c, max, key).1.Got? ==> |ExecFetch(c, max, key).1.val| >= 4
  {
    var (c', r) := ExecFetch(c, max, key);
    if r == Absent then (c', Absent)
    else
      var v := Bumped(r.val, up);
      (ExecStore(c', max, key, v).0, Got(v))
  }

  /** Counters must hold a packed integer. */
  predicate Callable(c: Cache, max: nat, call: Call) {
    call.Inc? || call.Dec? ==>
      var r := ExecFetch(c, max, call.key).1;
      r.Got? ==> |r.val| >= 4
  }

  function Exec(c: Cache, max: nat, call: Call): (Cache, Reply)
    requires Callable(c, max, call)
  {
    match call
    case Fetch(key) => ExecFetch(c, max, key)
    case Store(key, val) => ExecStore(c, max, key, val)
    case ExistsKey(key) => ExecExists(c, max, key)
    case Delete(key) => ExecDelete(c, max, key)
    case Inc(key) => ExecBump(c, max, key, true)
    case Dec(key) => ExecBump(c, max, key, false)
    case Sync => (Purged(c), Done)
  }

  // --- the same operations on a plain table ---

  predicate PlainCallable(m: Table, call: Call) {
    (call.Inc? || call.Dec?) && call.key in m ==> |m[call.key]| >= 4
  }

  function PlainBump(m: Table, key: Key, up: bool): (Table, Reply)
    requires key in m ==> |m[key]| >= 4
  {
    if key in m then (m[key := Bumped(m[key], up)], Got(Bumped(m[key], up))) else (m, Absent)
  }

  function Plain(m: Table, call: Call): (Table, Reply)
    requires PlainCallable(m, call)
  {
    match call
    case Fetch(key) => (m, if key in m then Got(m[key]) else Absent)
    case Store(key, val) => (m[key := val], Done)
    case ExistsKey(key) => (m, if key in m then Done else Absent)
    case Delete(key) => (m - {key}, if key in m then Done else Absent)
    case Inc(key) => PlainBump(m, key, true)
    case Dec(key) => PlainBump(m, key, false)
    case Sync => (m, Done)
  }

  // --- proofs: one step ---

  lemma {:induction false} FindAt(entries: seq<Data>, i: nat)
    requires i < |entries| && DistinctKeys(entries)
    ensures Find(entries, entries[i].key) == i
  {
    var j := Find(entries, entries[i].key);
    assert !(j < i);
  }

  lemma {:induction false} GetAt(entries: seq<Data>, d: Data)
    requires d in entries && DistinctKeys(entries)
    ensures Get(entries, d.key) == Some(d)
  {
    var i :| 0 <= i < |entries| && entries[i] == d;
    FindAt(entries, i);
  }

  /** Two lists with distinct keys answer alike when they hold the same record, or neither holds one. */
  lemma {:induction false} GetSame(s: seq<Data>, t: seq<Data>, key: Key)
    requires DistinctKeys(s) && DistinctKeys(t)
    requires forall d: Data :: d.key == key ==> (d in s <==> d in t)
    ensures Get(s, key) == Get(t, key)
  {
    var r := Get(s, key);
    var r' := Get(t, key);
    if r.Some? {
      GetAt(t, r.value);
    }
  }

  /** Abs answers a key as its cached record, or else the backend, does. */
  lemma {:induction false} Lookup(c: Cache, key: Key)
    ensures var entry := Get(c.entries, key);
      && (key in Abs(c) <==> Visible(entry, key, c.table))
      && (key in Abs(c) ==> Abs(c)[key] == Seen(entry, key, c.table))
    decreases |c.entries|
  {
    if c.entries != [] && c.entries[0].key != key {
      var tail := Cache(c.entries[1..], c.table);
      Lookup(tail, key);
      assert Get(c.entries, key) == Get(tail.entries, key);
    }
  }

  predicate Request(op: Op, d: Data) {
    d.state == if op == Write then Changed else Undef
  }

  /** Evicting the least recently used record changes nothing a caller can see. */
  lemma {:induction false} EvictKeepsTable(c: Cache, max: nat)
    requires Coherent(c, max)
    ensures Coherent(Evict(c, max), max)
    ensures |Evict(c, max).entries| < max
    ensures Abs(Evict(c, max)) == Abs(c)
  {
    if max <= |c.entries| {
      var e := Evict(c, max);
      var m, m' := Abs(c), Abs(e);
      forall key
        ensures key in m <==> key in m'
        ensures key in m ==> m[key] == m'[key]
      {
        EvictedAt(c, max, key);
      }
    }
  }

  lemma {:induction false} EvictedAt(c: Cache, max: nat, key: Key)
    requires Coherent(c, max) && max <= |c.entries|
    ensures key in Abs(c) <==> key in Abs(Evict(c, max))
    ensures key in Abs(c) ==> Abs(c)[key] == Abs(Evict(c, max))[key]
  {
    var e := Evict(c, max);
    var last := c.entries[|e.entries|];
    assert c.entries == e.entries + [last];
    assert Agrees(last, c.table);
    Lookup(c, key);
    Lookup(e, key);
    if key == last.key {
      GetAt(c.entries, last);
    } else {
      GetSame(c.entries, e.entries, key);
    }
  }

  /** The list after the record for x.key has been replaced by x and moved, or added, to the front. */
  function ToFront(entries: seq<Data>, x: Data): seq<Data> {
    var i := Find(entries, x.key);
    [x] + (if i < |entries| then Without(entries, i) else entries)
  }

  lemma {:induction false} InWithout(entries: seq<Data>, i: nat, d: Data)
    requires i < |entries| && DistinctKeys(entries)
    ensures d in Without(entries, i) <==> d in entries && d.key != entries[i].key
  {
    var s := Without(entries, i);
    if d in s {
      var j :| 0 <= j < |s| && s[j] == d;
      assert s[j] == entries[if j < i then j else j + 1];
    }
    if d in entries && d.key != entries[i].key {
      var j :| 0 <= j < |entries| && entries[j] == d;
      assert d == s[if j < i then j else j - 1];
    }
  }

  lemma {:induction false} ToFrontContents(entries: seq<Data>, x: Data, d: Data)
    requires DistinctKeys(entries)
    ensures d in ToFront(entries, x) <==> d == x || (d in entries && d.key != x.key)
  {
    var i := Find(entries, x.key);
    if i < |entries| {
      InWithout(entries, i, d);
    }
  }

  lemma {:induction false} WithoutDistinct(entries: seq<Data>, i: nat)
    requires DistinctKeys(entries) && i < |entries|
    ensures DistinctKeys(Without(entries, i))
  {
    var s := Without(entries, i);
    assert forall j :: 0 <= j < |s| ==> s[j] == entries[if j < i then j else j + 1];
  }

  lemma {:induction false} ToFrontDistinct(entries: seq<Data>, x: Data)
    requires DistinctKeys(entries)
    ensures DistinctKeys(ToFront(entries, x))
  {
    var i := Find(entries, x.key);
    if i < |entries| {
      WithoutDistinct(entries, i);
      forall d | d in Without(entries, i) ensures d.key != x.key {
        InWithout(entries, i, d);
      }
    }
  }

  lemma {:induction false} GetToFront(entries: seq<Data>, x: Data, key: Key)
    requires DistinctKeys(entries)
    ensures Get(ToFront(entries, x), key) == if key == x.key then Some(x) else Get(entries, key)
  {
    var s := ToFront(entries, x);
    ToFrontDistinct(entries, x);
    if key == x.key {
      GetAt(s, x);
    } else {
      forall d: Data | d.key == key ensures d in s <==> d in entries {
        ToFrontContents(entries, x, d);
      }
      GetSame(s, entries, key);
    }
  }

  /** The record a step files under the used key. */
  function Renewed(e: Cache, op: Op, d: Data): Data {
    match Get(e.entries, d.key)
    case Some(old_) => Touched(op, d, old_)
    case None => Filled(op, d, e.table)
  }

  function Room(c: Cache, max: nat, key: Key): Cache {
    if Get(c.entries, key).Some? then c else Evict(c, max)
  }

  /** A step makes room if it must, then renews one record and brings it to the front. */
  lemma {:induction false} StepShape(c: Cache, max: nat, op: Op, d: Data)
    requires Coherent(c, max)
    ensures var e := Room(c, max, d.key);
      && Coherent(e, max) && Abs(e) == Abs(c)
      && (Get(e.entries, d.key).None? ==> |e.entries| < max)
      && Renewed(e, op, d).key == d.key
      && Step(c, max, op, d) == (Cache(ToFront(e.entries, Renewed(e, op, d)), AfterOp(op, d.key, e.table)),
                                 OpCode(op, d.key, e.table))
  {
    EvictKeepsTable(c, max);
    var e := Room(c, max, d.key);
    if Get(c.entries, d.key).None? {
      assert forall x :: x in e.entries ==> x in c.entries;
    }
  }

  lemma {:induction false} RenewedAgrees(e: Cache, max: nat, op: Op, d: Data)
    requires Coherent(e, max) && Request(op, d)
    ensures Agrees(Renewed(e, op, d), AfterOp(op, d.key, e.table))
    ensures var x := Renewed(e, op, d);
      && (op == Write ==> x == d)
      && (op == Remove ==> x.state == NotFound)
      && (op in {Read, Probe} ==>
            && (Live(x) <==> d.key in Abs(e))
            && (x.state == NotFound <==> d.key !in Abs(e))
            && (d.key in Abs(e) ==> x.val == Abs(e)[d.key]))
  {
    Lookup(e, d.key);
    var entry := Get(e.entries, d.key);
    if entry.Some? {
      assert Agrees(entry.value, e.table);
    }
  }

  lemma {:induction false} StepCoherent(e: Cache, max: nat, op: Op, d: Data)
    requires Coherent(e, max) && Request(op, d)
    requires Get(e.entries, d.key).None? ==> |e.entries| < max
    requires Renewed(e, op, d).key == d.key
    ensures Coherent(Cache(ToFront(e.entries, Renewed(e, op, d)), AfterOp(op, d.key, e.table)), max)
  {
    var x := Renewed(e, op, d);
    var s := ToFront(e.entries, x);
    RenewedAgrees(e, max, op, d);
    ToFrontDistinct(e.entries, x);
    forall i | 0 <= i < |s| ensures Agrees(s[i], AfterOp(op, d.key, e.table)) {
      ToFrontContents(e.entries, x, s[i]);
      assert s[i] in s;
    }
  }

  /** What the caller sees under each key once a record has been renewed. */
  lemma {:induction false} RenewedAt(e: Cache, max: nat, op: Op, d: Data, c': Cache, key: Key)
    requires Coherent(e, max) && Request(op, d)
    requires Renewed(e, op, d).key == d.key
    requires c' == Cache(ToFront(e.entries, Renewed(e, op, d)), AfterOp(op, d.key, e.table))
    ensures key in Abs(c') <==>
      if key == d.key then op == Write || (op != Remove && key in Abs(e)) else key in Abs(e)
    ensures key in Abs(c') ==>
      Abs(c')[key] == if key == d.key && op == Write then d.val else Abs(e)[key]
  {
    Lookup(c', key);
    Lookup(e, key);
    GetToFront(e.entries, Renewed(e, op, d), key);
    RenewedAgrees(e, max, op, d);
  }

  /** The caller's view of one operation. */
  ghost function Effect(m: Table, op: Op, d: Data): Table {
    match op
    case Write => m[d.key := d.val]
    case Remove => m - {d.key}
    case _ => m
  }

  lemma {:induction false} RenewedTable(e: Cache, max: nat, op: Op, d: Data, c': Cache)
    requires Coherent(e, max) && Request(op, d)
    requires Renewed(e, op, d).key == d.key
    requires c' == Cache(ToFront(e.entries, Renewed(e, op, d)), AfterOp(op, d.key, e.table))
    ensures Abs(c') == Effect(Abs(e), op, d)
  {
    var m, m' := Effect(Abs(e), op, d), Abs(c');
    forall key
      ensures key in m' <==> key in m
      ensures key in m' ==> m'[key] == m[key]
    {
      RenewedAt(e, max, op, d, c', key);
    }
  }

  /** One cachekey step keeps the cache coherent and never over-full, brings the key to the
      front, and does to the visible table exactly what the operation says. */
  lemma {:induction false} StepRefines(c: Cache, max: nat, op: Op, d: Data)
    requires Coherent(c, max) && Request(op, d)
    ensures var c' := Step(c, max, op, d).0;
      && Coherent(c', max)
      && Abs(c') == Effect(Abs(c), op, d)
      && c'.entries[0].key == d.key
      && (op in {Read, Probe} ==>
            && (Live(c'.entries[0]) <==> d.key in Abs(c))
            && (c'.entries[0].state == NotFound <==> d.key !in Abs(c))
            && (d.key in Abs(c) ==> c'.entries[0].val == Abs(c)[d.key]))
  {
    StepShape(c, max, op, d);
    var e := Room(c, max, d.key);
    var c' := Cache(ToFront(e.entries, Renewed(e, op, d)), AfterOp(op, d.key, e.table));
    StepCoherent(e, max, op, d);
    RenewedAgrees(e, max, op, d);
    RenewedTable(e, max, op, d, c');
  }
}
