/** Whole runs of the caching layer: it answers as a plain table would, and it keeps
    exactly the most recently used keys. */
module CacheRuns {
  import opened ByteString
  import opened CacheModel

  // --- purge ---

  lemma {:induction false} FlushedAt(entries: seq<Data>, table: Table, key: Key)
    requires DistinctKeys(entries)
    ensures var entry := Get(entries, key);
      var t := FlushAll(entries, table);
      if entry.Some? && entry.value.state == Changed then key in t && t[key] == entry.value.val
      else (key in t <==> key in table) && (key in t ==> t[key] == table[key])
  {
    if entries != [] {
      FlushedAt(entries[1..], WriteBack(entries[0], table), key);
      if entries[0].key == key {
        assert Get(entries[1..], key).None?;
      }
    }
  }

  lemma {:induction false} PurgedAt(c: Cache, max: nat, key: Key)
    requires Coherent(c, max)
    ensures var t := FlushAll(c.entries, c.table);
      (key in t <==> key in Abs(c)) && (key in t ==> t[key] == Abs(c)[key])
  {
    FlushedAt(c.entries, c.table, key);
    Lookup(c, key);
    var entry := Get(c.entries, key);
    if entry.Some? {
      assert Agrees(entry.value, c.table);
    }
  }

  /** After a purge nothing is cached and the backend holds what the caller saw. */
  lemma {:induction false} PurgeSettles(c: Cache, max: nat)
    requires Coherent(c, max)
    ensures Coherent(Purged(c), max)
    ensures Purged(c).table == Abs(c) == Abs(Purged(c))
  {
    var t := FlushAll(c.entries, c.table);
    forall key
      ensures key in t <==> key in Abs(c)
      ensures key in t ==> t[key] == Abs(c)[key]
    {
      PurgedAt(c, max, key);
    }
  }

  // --- one call ---

  lemma {:induction false} ExecRefines(c: Cache, max: nat, call: Call)
    requires Coherent(c, max) && PlainCallable(Abs(c), call)
    ensures Callable(c, max, call)
    ensures var (c', r) := Exec(c, max, call);
      var (m', p) := Plain(Abs(c), call);
      && Coherent(c', max) && Abs(c') == m'
      && (!call.Delete? ==> r == p)
  {
    hide Coherent, Step, Overlay, Bumped;
    match call
    case Fetch(key) => StepRefines(c, max, Read, Data(key, [], Undef));
    case Store(key, val) =>
      StepRefines(c, max, Write, Data(key, val, Changed));
      WriteIsOk(c, max, Data(key, val, Changed));
    case ExistsKey(key) => StepRefines(c, max, Probe, Data(key, [], Undef));
    case Delete(key) => StepRefines(c, max, Remove, Data(key, [], Undef));
    case Inc(key) => BumpRefines(c, max, key, true);
    case Dec(key) => BumpRefines(c, max, key, false);
    case Sync => PurgeSettles(c, max);
  }

  lemma WriteIsOk(c: Cache, max: nat, d: Data)
    ensures Step(c, max, Write, d).1 == Ok
  {
  }

  lemma {:induction false} BumpRefines(c: Cache, max: nat, key: Key, up: bool)
    requires Coherent(c, max) && (key in Abs(c) ==> |Abs(c)[key]| >= 4)
    ensures var r := ExecFetch(c, max, key).1; r.Got? ==> |r.val| >= 4
    ensures var (c', r) := ExecBump(c, max, key, up);
      Coherent(c', max) && (Abs(c'), r) == PlainBump(Abs(c), key, up)
  {
    StepRefines(c, max, Read, Data(key, [], Undef));
    var (c', r) := ExecFetch(c, max, key);
    if key in Abs(c) {
      StepRefines(c', max, Write, Data(key, Bumped(r.val, up), Changed));
    }
  }

  /** A bumped counter reads one more, or one less, modulo the word size, and keeps its tail. */
  lemma BumpCounts(v: Value, up: bool)
    requires |v| >= 4
    ensures var n := UnpackInt(v);
      UnpackInt(Bumped(v, up)) ==
        if up then (if n == WORD - 1 then 0 else n + 1) else (if n == 0 then WORD - 1 else n - 1)
    ensures Bumped(v, up)[4..] == v[4..]
  {
    var n := UnpackInt(v);
    var n' := if up then (if n + 1 == WORD then 0 else n + 1) else (if n == 0 then WORD - 1 else n - 1);
    Wraps(n, up);
    UnpackPack(n');
    hide PackInt, UnpackInt;
    UnpackFront(PackInt(n'), v[4..]);
  }

  /** Four bytes counted up, with the carries, the last byte first. */
  lemma BumpUp(v: Value)
    requires |v| >= 4
    ensures Bumped(v, true) ==
      (if v[3] < 255 then [v[0], v[1], v[2], v[3] + 1]
       else if v[2] < 255 then [v[0], v[1], v[2] + 1, 0]
       else if v[1] < 255 then [v[0], v[1] + 1, 0, 0]
       else if v[0] < 255 then [v[0] + 1, 0, 0, 0]
       else [0, 0, 0, 0]) + v[4..]
  {
    UnpackDigits(v);
    Wraps(UnpackInt(v), true);
    hide PackInt, UnpackInt;
    if v[3] < 255 {
      PackDigits(v[0], v[1], v[2], v[3] + 1);
    } else if v[2] < 255 {
      PackDigits(v[0], v[1], v[2] + 1, 0);
    } else if v[1] < 255 {
      PackDigits(v[0], v[1] + 1, 0, 0);
    } else if v[0] < 255 {
      PackDigits(v[0] + 1, 0, 0, 0);
    } else {
      PackDigits(0, 0, 0, 0);
    }
  }

  /** And down, with the borrows. */
  lemma BumpDown(v: Value)
    requires |v| >= 4
    ensures Bumped(v, false) ==
      (if v[3] > 0 then [v[0], v[1], v[2], v[3] - 1]
       else if v[2] > 0 then [v[0], v[1], v[2] - 1, 255]
       else if v[1] > 0 then [v[0], v[1] - 1, 255, 255]
       else if v[0] > 0 then [v[0] - 1, 255, 255, 255]
       else [255, 255, 255, 255]) + v[4..]
  {
    UnpackDigits(v);
    Wraps(UnpackInt(v), false);
    hide PackInt, UnpackInt;
    if v[3] > 0 {
      PackDigits(v[0], v[1], v[2], v[3] - 1);
    } else if v[2] > 0 {
      PackDigits(v[0], v[1], v[2] - 1, 255);
    } else if v[1] > 0 {
      PackDigits(v[0], v[1] - 1, 255, 255);
    } else if v[0] > 0 {
      PackDigits(v[0] - 1, 255, 255, 255);
    } else {
      PackDigits(255, 255, 255, 255);
    }
  }

  lemma Wraps(n: nat, up: bool)
    requires n < WORD
    ensures (n + (if up then 1 else WORD - 1)) % WORD ==
      if up then (if n + 1 == WORD then 0 else n + 1) else (if n == 0 then WORD - 1 else n - 1)
  {
  }

  lemma UnpackFront(b: Bytes, rest: Bytes)
    requires |b| == 4
    ensures UnpackInt(b + rest) == UnpackInt(b) && (b + rest)[4..] == rest
  {
  }

  /** A record that only the cache knows of. */
  predicate DirtyOnly(c: Cache, key: Key) {
    var entry := Get(c.entries, key);
    entry.Some? && entry.value.state == Changed && key !in c.table
  }

  /** Delete answers for the backend, so its code is the plain table's code exactly when the
      key is not one that only the cache knows of. */
  lemma {:induction false} DeleteReply(c: Cache, max: nat, key: Key)
    requires Coherent(c, max)
    ensures ExecDelete(c, max, key).1 == (if key in c.table then Done else Absent)
    ensures ExecDelete(c, max, key).1 == Plain(Abs(c), Delete(key)).1 <==> !DirtyOnly(c, key)
  {
    Lookup(c, key);
    var entry := Get(c.entries, key);
    if entry.Some? {
      assert Agrees(entry.value, c.table);
    } else if max <= |c.entries| {
      assert c.entries[|c.entries| - 1] in c.entries;
    }
  }

  /** Storing a new key and deleting it again reports it as not found. */
  lemma DeleteReplyExample()
    ensures var c := ExecStore(Cache([], map[]), 1, [7], [1]).0;
      DirtyOnly(c, [7]) && ExecDelete(c, 1, [7]).1 == Absent && Plain(Abs(c), Delete([7])).1 == Done
  {
    var c0 := Cache([], map[]);
    StepRefines(c0, 1, Write, Data([7], [1], Changed));
    var c := ExecStore(c0, 1, [7], [1]).0;
    assert c.entries == [Data([7], [1], Changed)];
    GetAt(c.entries, c.entries[0]);
    DeleteReply(c, 1, [7]);
  }

  // --- runs ---

  predicate Runnable(c: Cache, max: nat, calls: seq<Call>)
    decreases |calls|
  {
    calls == [] || (Callable(c, max, calls[0]) && Runnable(Exec(c, max, calls[0]).0, max, calls[1..]))
  }

  function Run(c: Cache, max: nat, calls: seq<Call>): (Cache, seq<Reply>)
    requires Runnable(c, max, calls)
    decreases |calls|
  {
    if calls == [] then (c, []) else
    var (c1, r) := Exec(c, max, calls[0]);
    var (c2, rs) := Run(c1, max, calls[1..]);
    (c2, [r] + rs)
  }

  predicate PlainRunnable(m: Table, calls: seq<Call>)
    decreases |calls|
  {
    calls == [] || (PlainCallable(m, calls[0]) && PlainRunnable(Plain(m, calls[0]).0, calls[1..]))
  }

  function PlainRun(m: Table, calls: seq<Call>): (Table, seq<Reply>)
    requires PlainRunnable(m, calls)
    decreases |calls|
  {
    if calls == [] then (m, []) else
    var (m1, r) := Plain(m, calls[0]);
    var (m2, rs) := PlainRun(m1, calls[1..]);
    (m2, [r] + rs)
  }

  /** Over every run the cache answers as the plain table would, but for delete's code. */
  lemma {:induction false} RunsRefine(c: Cache, max: nat, calls: seq<Call>)
    requires Coherent(c, max) && PlainRunnable(Abs(c), calls)
    ensures Runnable(c, max, calls)
    ensures var (c', rs) := Run(c, max, calls);
      var (m', ps) := PlainRun(Abs(c), calls);
      && Coherent(c', max) && Abs(c') == m'
      && |rs| == |ps| == |calls|
      && forall i :: 0 <= i < |calls| && !calls[i].Delete? ==> rs[i] == ps[i]
    decreases |calls|
  {
    if calls != [] {
      ExecRefines(c, max, calls[0]);
      RunsRefine(Exec(c, max, calls[0]).0, max, calls[1..]);
    }
  }

  /** A run that ends in a sync leaves the backend holding the plain run's table. */
  lemma {:induction false} SyncedRun(table: Table, max: nat, calls: seq<Call>)
    requires 0 < max && PlainRunnable(table, calls)
    ensures var c := Cache([], table);
      && Runnable(c, max, calls)
      && Exec(Run(c, max, calls).0, max, Sync).0 == Cache([], PlainRun(table, calls).0)
  {
    var c := Cache([], table);
    RunsRefine(c, max, calls);
    PurgeSettles(Run(c, max, calls).0, max);
  }

  // --- what a caller relies on ---

  /** What was stored is fetched, and is there. */
  lemma StoredIsFetched(c: Cache, max: nat, key: Key, val: Value)
    requires Coherent(c, max)
    ensures var c' := ExecStore(c, max, key, val).0;
      ExecFetch(c', max, key).1 == Got(val) && ExecExists(c', max, key).1 == Done
  {
    ExecRefines(c, max, Store(key, val));
    var c' := ExecStore(c, max, key, val).0;
    ExecRefines(c', max, Fetch(key));
    ExecRefines(c', max, ExistsKey(key));
    hide Coherent, Step, Overlay;
  }

  /** What was deleted is gone. */
  lemma DeletedIsAbsent(c: Cache, max: nat, key: Key)
    requires Coherent(c, max)
    ensures var c' := ExecDelete(c, max, key).0;
      ExecFetch(c', max, key).1 == Absent && ExecExists(c', max, key).1 == Absent
  {
    ExecRefines(c, max, Delete(key));
    var c' := ExecDelete(c, max, key).0;
    ExecRefines(c', max, Fetch(key));
    ExecRefines(c', max, ExistsKey(key));
    hide Coherent, Step, Overlay;
  }

  /** No call changes what is fetched under a key that it does not name; sync changes nothing. */
  lemma OthersStay(c: Cache, max: nat, call: Call, key: Key)
    requires Coherent(c, max) && PlainCallable(Abs(c), call) && (call.Sync? || call.key != key)
    ensures Callable(c, max, call)
    ensures ExecFetch(Exec(c, max, call).0, max, key).1 == ExecFetch(c, max, key).1
  {
    ExecRefines(c, max, call);
    ExecRefines(c, max, Fetch(key));
    ExecRefines(Exec(c, max, call).0, max, Fetch(key));
    hide Coherent, Step, Overlay, Exec, Callable, Bumped;
  }

  /** A counter that is there is fetched one up, or one down, and one that is not stays away. */
  lemma BumpedIsFetched(c: Cache, max: nat, key: Key, up: bool)
    requires Coherent(c, max) && PlainCallable(Abs(c), if up then Inc(key) else Dec(key))
    ensures ExecFetch(c, max, key).1.Got? ==> |ExecFetch(c, max, key).1.val| >= 4
    ensures var was := ExecFetch(c, max, key).1;
      var (c', r) := ExecBump(c, max, key, up);
      r == ExecFetch(c', max, key).1 == if was.Got? then Got(Bumped(was.val, up)) else Absent
  {
    ExecRefines(c, max, Fetch(key));
    BumpRefines(c, max, key, up);
    var c' := ExecBump(c, max, key, up).0;
    ExecRefines(c', max, Fetch(key));
    hide Coherent, Step, Overlay, Bumped;
  }

  // --- which keys stay ---

  function Drop(keys: seq<Key>, key: Key): seq<Key> {
    if keys == [] then []
    else if keys[0] == key then keys[1..]
    else [keys[0]] + Drop(keys[1..], key)
  }

  /** The distinct keys of a history, the last used first. */
  function Recent(history: seq<Key>): seq<Key> {
    if history == [] then []
    else
      var n := |history| - 1;
      [history[n]] + Drop(Recent(history[..n]), history[n])
  }

  function Prefix(keys: seq<Key>, max: nat): seq<Key> {
    if |keys| <= max then keys else keys[..max]
  }

  function EntryKeys(entries: seq<Data>): seq<Key> {
    seq(|entries|, i requires 0 <= i < |entries| => entries[i].key)
  }

  /** The keys used since the cache was last purged, and one more call. */
  function Noted(history: seq<Key>, call: Call): seq<Key> {
    if call.Sync? then [] else history + [call.key]
  }

  function SinceSync(history: seq<Key>, calls: seq<Call>): seq<Key>
    decreases |calls|
  {
    if calls == [] then history else SinceSync(Noted(history, calls[0]), calls[1..])
  }

  /** Dropping at the first position where the key stands. */
  lemma {:induction false} DropAt(keys: seq<Key>, key: Key, i: nat)
    requires i <= |keys| && key !in keys[..i] && (i < |keys| ==> keys[i] == key)
    ensures Drop(keys, key) == if i < |keys| then keys[..i] + keys[i + 1..] else keys
  {
    if i > 0 {
      assert keys[..i][0] == keys[0] != key;
      assert keys[1..][..i - 1] == keys[..i][1..];
      DropAt(keys[1..], key, i - 1);
      assert keys == [keys[0]] + keys[1..];
    }
  }

  lemma {:induction false} DropLater(keys: seq<Key>, key: Key, n: nat)
    requires n <= |keys| && key !in keys[..n]
    ensures |Drop(keys, key)| >= n && Drop(keys, key)[..n] == keys[..n]
    ensures |Drop(keys, key)| == if key in keys then |keys| - 1 else |keys|
    decreases |keys|
  {
    if keys != [] && keys[0] != key {
      DropLater(keys[1..], key, if n == 0 then 0 else n - 1);
      if n > 0 {
        assert keys[..n] == [keys[0]] + keys[1..][..n - 1];
      }
      assert key in keys <==> key in keys[1..];
    }
  }

  /** Moving a key to the front commutes with keeping the first max keys. */
  lemma {:induction false} PrefixStep(keys: seq<Key>, max: nat, key: Key)
    requires 0 < max
    ensures var kept := Prefix(keys, max);
      var kept' := Prefix([key] + Drop(keys, key), max);
      && (key in kept ==> kept' == [key] + Drop(kept, key))
      && (key !in kept && |kept| == max ==> kept' == [key] + kept[..max - 1])
      && (key !in kept && |kept| < max ==> kept' == [key] + kept)
  {
    hide Drop;
    var kept := Prefix(keys, max);
    if key in kept {
      PrefixHit(keys, max, key);
    } else if |kept| == max {
      PrefixFull(keys, max, key);
    } else {
      DropAt(keys, key, |keys|);
    }
  }

  lemma PrefixHit(keys: seq<Key>, max: nat, key: Key)
    requires 0 < max && key in Prefix(keys, max)
    ensures Prefix([key] + Drop(keys, key), max) == [key] + Drop(Prefix(keys, max), key)
  {
    hide Drop;
    var kept := Prefix(keys, max);
    var i := FirstAt(kept, key);
    DropAt(kept, key, i);
    assert keys[..i] == kept[..i];
    DropAt(keys, key, i);
    if |keys| > max {
      assert ([key] + (keys[..i] + keys[i + 1..]))[..max] == [key] + (kept[..i] + kept[i + 1..]);
    }
  }

  lemma PrefixFull(keys: seq<Key>, max: nat, key: Key)
    requires 0 < max <= |keys| && key !in keys[..max]
    ensures Prefix([key] + Drop(keys, key), max) == [key] + keys[..max - 1]
  {
    hide Drop;
    DropLater(keys, key, max);
    var rest := Drop(keys, key);
    assert rest[..max - 1] == rest[..max][..max - 1] == keys[..max - 1];
  }

  lemma {:induction false} FirstAt(keys: seq<Key>, key: Key) returns (i: nat)
    requires key in keys
    ensures i < |keys| && keys[i] == key && key !in keys[..i]
  {
    if keys[0] == key {
      i := 0;
    } else {
      i := FirstAt(keys[1..], key);
      assert keys[..i + 1] == [keys[0]] + keys[1..][..i];
      i := i + 1;
    }
  }

  lemma FrontKeys(x: Data, rest: seq<Data>)
    ensures EntryKeys([x] + rest) == [x.key] + EntryKeys(rest)
  {
  }

  lemma {:induction false} HitKeys(entries: seq<Data>, i: nat)
    requires i < |entries| && i == Find(entries, entries[i].key)
    ensures EntryKeys(Without(entries, i)) == Drop(EntryKeys(entries), entries[i].key)
    ensures entries[i].key in EntryKeys(entries)
  {
    var ks := EntryKeys(entries);
    DropAt(ks, entries[i].key, i);
    assert ks[i] == entries[i].key;
    assert EntryKeys(Without(entries, i)) == ks[..i] + ks[i + 1..];
  }

  lemma {:induction false} EvictKeys(c: Cache, max: nat)
    requires 0 < max
    ensures var ks := EntryKeys(c.entries);
      EntryKeys(Evict(c, max).entries) == if |ks| >= max then ks[..|ks| - 1] else ks
  {
  }

  lemma {:induction false} StepKeys(c: Cache, max: nat, op: Op, d: Data)
    requires 0 < max
    ensures var ks := EntryKeys(c.entries);
      EntryKeys(Step(c, max, op, d).0.entries) ==
        [d.key] + (if d.key in ks then Drop(ks, d.key) else if |ks| >= max then ks[..|ks| - 1] else ks)
  {
    var i := Find(c.entries, d.key);
    if i < |c.entries| {
      HitKeys(c.entries, i);
      FrontKeys(Touched(op, d, c.entries[i]), Without(c.entries, i));
    } else {
      EvictKeys(c, max);
      FrontKeys(Filled(op, d, Evict(c, max).table), Evict(c, max).entries);
    }
  }

  lemma StepKeeps(c: Cache, max: nat, op: Op, d: Data, history: seq<Key>)
    requires 0 < max && EntryKeys(c.entries) == Prefix(Recent(history), max)
    ensures EntryKeys(Step(c, max, op, d).0.entries) == Prefix(Recent(history + [d.key]), max)
  {
    hide Step, Prefix, EntryKeys, Drop;
    StepKeys(c, max, op, d);
    assert (history + [d.key])[..|history|] == history;
    PrefixStep(Recent(history), max, d.key);
    PrefixFits(Recent(history), max);
  }

  lemma PrefixFits(keys: seq<Key>, max: nat)
    ensures |Prefix(keys, max)| <= max
  {
  }

  /** The position of the last use of a key. */
  predicate LastUse(history: seq<Key>, key: Key, i: nat) {
    i < |history| && history[i] == key && key !in history[i + 1..]
  }

  ghost predicate Once(keys: seq<Key>) {
    forall i, j :: 0 <= i < j < |keys| ==> keys[i] != keys[j]
  }

  lemma CutOnce(keys: seq<Key>, n: nat)
    requires Once(keys) && n < |keys|
    ensures Once(keys[..n] + keys[n + 1..])
  {
    var rest := keys[..n] + keys[n + 1..];
    forall i, j | 0 <= i < j < |rest|
      ensures rest[i] != rest[j]
    {
      var x, y := if i < n then i else i + 1, if j < n then j else j + 1;
      assert keys[x] == rest[i] && keys[y] == rest[j];
    }
  }

  lemma CutHas(keys: seq<Key>, n: nat, k: Key)
    requires Once(keys) && n < |keys|
    ensures k in keys[..n] + keys[n + 1..] <==> k in keys && k != keys[n]
  {
    var rest := keys[..n] + keys[n + 1..];
    if k in rest {
      var i :| 0 <= i < |rest| && rest[i] == k;
      var x := if i < n then i else i + 1;
      assert keys[x] == k && keys[n] != keys[x];
    }
    if k in keys && k != keys[n] {
      var i :| 0 <= i < |keys| && keys[i] == k;
      var x := if i < n then i else i - 1;
      assert rest[x] == k;
    }
  }

  /** Dropping a key keeps the others, each once. */
  lemma DropIs(keys: seq<Key>, key: Key)
    requires Once(keys)
    ensures Once(Drop(keys, key)) && forall k :: k in Drop(keys, key) <==> k in keys && k != key
  {
    if key in keys {
      var n := FirstAt(keys, key);
      DropAt(keys, key, n);
      hide Drop, Once;
      CutOnce(keys, n);
      forall k
        ensures k in keys[..n] + keys[n + 1..] <==> k in keys && k != key
      {
        CutHas(keys, n, k);
      }
    } else {
      DropAt(keys, key, |keys|);
    }
  }

  /** a stands somewhere before b. */
  ghost predicate InFront(keys: seq<Key>, a: Key, b: Key) {
    exists i, j :: 0 <= i < j < |keys| && keys[i] == a && keys[j] == b
  }

  lemma CutKeepsOrder(keys: seq<Key>, n: nat, a: Key, b: Key)
    requires n < |keys| && InFront(keys[..n] + keys[n + 1..], a, b)
    ensures InFront(keys, a, b)
  {
    var rest := keys[..n] + keys[n + 1..];
    var i, j :| 0 <= i < j < |rest| && rest[i] == a && rest[j] == b;
    var x, y := if i < n then i else i + 1, if j < n then j else j + 1;
    assert keys[x] == a && keys[y] == b;
  }

  lemma DropKeepsOrder(keys: seq<Key>, key: Key, a: Key, b: Key)
    requires InFront(Drop(keys, key), a, b)
    ensures InFront(keys, a, b)
  {
    if key in keys {
      var n := FirstAt(keys, key);
      DropAt(keys, key, n);
      hide Drop, InFront;
      CutKeepsOrder(keys, n, a, b);
    } else {
      DropAt(keys, key, |keys|);
    }
  }

  /** In a list that starts with a key, that key is in front of all others. */
  lemma FrontOrder(key: Key, rest: seq<Key>, a: Key, b: Key)
    requires InFront([key] + rest, a, b) && key !in rest
    ensures b in rest && b != key && (a == key || (a in rest && InFront(rest, a, b)))
  {
    var all := [key] + rest;
    var i, j :| 0 <= i < j < |all| && all[i] == a && all[j] == b;
    assert b == rest[j - 1];
    if i > 0 {
      assert a == rest[i - 1];
    }
  }

  lemma RecentNext(front: seq<Key>, key: Key)
    ensures Recent(front + [key]) == [key] + Drop(Recent(front), key)
  {
    assert (front + [key])[..|front|] == front;
  }

  lemma OnceMore(key: Key, rest: seq<Key>)
    requires Once(rest) && key !in rest
    ensures Once([key] + rest)
  {
  }

  /** The recent keys are the keys of the history, each once. */
  lemma {:induction false} RecentOnce(history: seq<Key>)
    ensures Once(Recent(history)) && forall k :: k in Recent(history) <==> k in history
    decreases |history|
  {
    if history == [] {
      assert Recent(history) == [];
    } else {
      var front, key := history[..|history| - 1], history[|history| - 1];
      assert history == front + [key];
      RecentNext(front, key);
      RecentOnce(front);
      hide Recent, Drop, Once;
      DropIs(Recent(front), key);
      OnceMore(key, Drop(Recent(front), key));
    }
  }

  /** And one stands before another if it was last used after it. */
  lemma {:induction false} RecentOrder(history: seq<Key>, a: Key, b: Key, p: nat, q: nat)
    requires InFront(Recent(history), a, b) && LastUse(history, a, p) && LastUse(history, b, q)
    ensures p > q
    decreases |history|
  {
    var front, key := history[..|history| - 1], history[|history| - 1];
    assert history == front + [key];
    RecentNext(front, key);
    RecentOnce(front);
    hide Recent, Drop, Once, LastUse, InFront;
    DropIs(Recent(front), key);
    FrontOrder(key, Drop(Recent(front), key), a, b);
    EarlierUse(front, key, b, q);
    UseIsThere(front, b, q);
    if a == key {
      LastIsLast(front, key, p);
    } else {
      EarlierUse(front, key, a, p);
      DropKeepsOrder(Recent(front), key, a, b);
      RecentOrder(front, a, b, p, q);
    }
  }

  lemma UseIsThere(history: seq<Key>, key: Key, i: nat)
    requires LastUse(history, key, i)
    ensures i < |history|
  {
  }

  lemma EarlierUse(front: seq<Key>, key: Key, k: Key, p: nat)
    requires LastUse(front + [key], k, p) && k != key
    ensures LastUse(front, k, p)
  {
    assert (front + [key])[p + 1..] == front[p + 1..] + [key];
  }

  lemma UsedLater(front: seq<Key>, key: Key, p: nat)
    requires p < |front|
    ensures key in (front + [key])[p + 1..]
  {
    assert (front + [key])[p + 1..] == front[p + 1..] + [key];
  }

  lemma LastIsLast(front: seq<Key>, key: Key, p: nat)
    requires LastUse(front + [key], key, p)
    ensures p == |front|
  {
    if p < |front| {
      UsedLater(front, key, p);
    }
  }

  /** Using a key twice is using it once. */
  lemma RecentTwice(history: seq<Key>, key: Key)
    ensures Recent(history + [key] + [key]) == Recent(history + [key])
  {
    assert (history + [key] + [key])[..|history| + 1] == history + [key];
    assert (history + [key])[..|history|] == history;
    var rest := Drop(Recent(history), key);
    assert ([key] + rest)[1..] == rest;
  }

  lemma ExecKeeps(c: Cache, max: nat, call: Call, history: seq<Key>)
    requires 0 < max && Callable(c, max, call) && EntryKeys(c.entries) == Prefix(Recent(history), max)
    ensures EntryKeys(Exec(c, max, call).0.entries) == Prefix(Recent(Noted(history, call)), max)
  {
    hide Step, Prefix, Recent, EntryKeys, Bumped;
    match call
    case Fetch(key) => StepKeeps(c, max, Read, Data(key, [], Undef), history);
    case Store(key, val) => StepKeeps(c, max, Write, Data(key, val, Changed), history);
    case ExistsKey(key) => StepKeeps(c, max, Probe, Data(key, [], Undef), history);
    case Delete(key) => StepKeeps(c, max, Remove, Data(key, [], Undef), history);
    case Inc(key) => BumpKeeps(c, max, key, true, history);
    case Dec(key) => BumpKeeps(c, max, key, false, history);
    case Sync => NothingKept(max);
  }

  lemma BumpKeeps(c: Cache, max: nat, key: Key, up: bool, history: seq<Key>)
    requires 0 < max && EntryKeys(c.entries) == Prefix(Recent(history), max)
    requires ExecFetch(c, max, key).1.Got? ==> |ExecFetch(c, max, key).1.val| >= 4
    ensures EntryKeys(ExecBump(c, max, key, up).0.entries) == Prefix(Recent(history + [key]), max)
  {
    hide Step, Prefix, Recent, EntryKeys, Bumped;
    var (c', r) := ExecFetch(c, max, key);
    StepKeeps(c, max, Read, Data(key, [], Undef), history);
    if r.Got? {
      StepKeeps(c', max, Write, Data(key, Bumped(r.val, up), Changed), history + [key]);
      RecentTwice(history, key);
    }
  }

  lemma NothingKept(max: nat)
    ensures EntryKeys([]) == Prefix(Recent([]), max)
  {
  }

  /** Least recently used eviction: after any run the cached keys are the max most recently used
      distinct keys since the last sync, in order of last use. */
  lemma {:induction false} KeepsMostRecent(c: Cache, max: nat, calls: seq<Call>, history: seq<Key>)
    requires 0 < max && Runnable(c, max, calls) && EntryKeys(c.entries) == Prefix(Recent(history), max)
    ensures EntryKeys(Run(c, max, calls).0.entries) == Prefix(Recent(SinceSync(history, calls)), max)
    decreases |calls|
  {
    hide Exec, Callable, Prefix, Recent, EntryKeys, Noted;
    if calls != [] {
      ExecKeeps(c, max, calls[0], history);
      KeepsMostRecent(Exec(c, max, calls[0]).0, max, calls[1..], Noted(history, calls[0]));
    }
  }

  /** From an empty cache, in particular. */
  lemma FreshKeepsMostRecent(table: Table, max: nat, calls: seq<Call>)
    requires 0 < max && Runnable(Cache([], table), max, calls)
    ensures EntryKeys(Run(Cache([], table), max, calls).0.entries) == Prefix(Recent(SinceSync([], calls)), max)
  {
    NothingKept(max);
    KeepsMostRecent(Cache([], table), max, calls, []);
  }
}
