/** Searching: the posting vectors of a pattern are combined part by part. */
module Queries {
  import opened ByteString
  import opened BitVectors
  import opened Iterators
  import opened Options
  import opened Statements
  import opened TripleStore

  /** How the entries of one part go together. */
  datatype Operator = Any | All

  // --- what one part of a pattern comes to ---

  /** One more key: a missing one is skipped, and an empty result starts over. */
  ghost function Merged(c: Codec, tables: map<Key, Bytes>, op: Operator, acc: set<nat>, key: Key): set<nat> {
    if key !in tables then acc
    else if acc == {} then Posting(c, tables, key)
    else if op == All then acc * Posting(c, tables, key)
    else acc + Posting(c, tables, key)
  }

  ghost function Fold(c: Codec, tables: map<Key, Bytes>, op: Operator, keys: seq<Key>): set<nat> {
    if keys == [] then {}
    else Merged(c, tables, op, Fold(c, tables, op, keys[..|keys| - 1]), keys[|keys| - 1])
  }

  /** The statements with at least one of the keys, or with all of them. */
  ghost predicate HasOne(w: World, s: Statement, keys: seq<Key>) {
    exists k :: k in keys && k in Keys(w, s)
  }

  ghost predicate HasAll(w: World, s: Statement, keys: seq<Key>) {
    forall k :: k in keys ==> k in Keys(w, s)
  }

  ghost function WithOne(w: World, nodes: map<nat, Statement>, keys: seq<Key>): set<nat> {
    set id | id in nodes && HasOne(w, nodes[id], keys)
  }

  ghost function WithAll(w: World, nodes: map<nat, Statement>, keys: seq<Key>): set<nat> {
    set id | id in nodes && HasAll(w, nodes[id], keys)
  }

  lemma LastKey(keys: seq<Key>)
    requires keys != []
    ensures forall k :: k in keys <==> k in keys[..|keys| - 1] || k == keys[|keys| - 1]
  {
    assert keys == keys[..|keys| - 1] + [keys[|keys| - 1]];
  }

  lemma PostingIs(c: Codec, w: World, tables: map<Key, Bytes>, nodes: map<nat, Statement>, key: Key)
    requires Exact(c, w, tables, nodes)
    ensures forall id :: id in Posting(c, tables, key) <==> id in nodes && key in Keys(w, nodes[id])
  {
    assert Posting(c, tables, key) == Matching(w, nodes, key);
  }

  /** A list of alternatives comes to the statements with at least one of the keys. */
  lemma {:induction false} AnyIsExact(c: Codec, w: World, tables: map<Key, Bytes>, nodes: map<nat, Statement>,
                                      keys: seq<Key>)
    requires Exact(c, w, tables, nodes)
    ensures Fold(c, tables, Any, keys) == WithOne(w, nodes, keys)
  {
    hide Keys, Exact;
    if keys != [] {
      var last := keys[|keys| - 1];
      AnyIsExact(c, w, tables, nodes, keys[..|keys| - 1]);
      LastKey(keys);
      PostingIs(c, w, tables, nodes, last);
    }
  }

  /** The keys of a list that the tables have. */
  function Present(tables: map<Key, Bytes>, keys: seq<Key>): seq<Key> {
    if keys == [] then []
    else
      var front, last := keys[..|keys| - 1], keys[|keys| - 1];
      if last in tables then Present(tables, front) + [last] else Present(tables, front)
  }

  lemma {:induction false} PresentIs(tables: map<Key, Bytes>, keys: seq<Key>)
    ensures forall k :: k in Present(tables, keys) <==> k in keys && k in tables
  {
    if keys != [] {
      LastKey(keys);
      PresentIs(tables, keys[..|keys| - 1]);
    }
  }

  /** Where the last group of a list of requirements starts: at the key after which no statement
      that has all the keys since the start of the group before is left. */
  ghost function Group(w: World, nodes: map<nat, Statement>, ks: seq<Key>): (g: nat)
    ensures g <= |ks| && (ks != [] ==> g < |ks|)
  {
    if ks == [] then 0
    else
      var front := ks[..|ks| - 1];
      var g := Group(w, nodes, front);
      if WithAll(w, nodes, front[g..]) == {} then |front| else g
  }

  /** The keys that have a say in the answer to a list of requirements. */
  ghost function LastGroup(w: World, tables: map<Key, Bytes>, nodes: map<nat, Statement>, keys: seq<Key>): seq<Key> {
    var ks := Present(tables, keys);
    ks[Group(w, nodes, ks)..]
  }

  /** What the list lets through. */
  ghost predicate Passes(w: World, tables: map<Key, Bytes>, nodes: map<nat, Statement>, s: Statement,
                         op: Operator, keys: seq<Key>) {
    if op == Any then HasOne(w, s, keys)
    else
      var ks := LastGroup(w, tables, nodes, keys);
      ks != [] && HasAll(w, s, ks)
  }

  lemma StoredHasOne(c: Codec, w: World, tables: map<Key, Bytes>, nodes: map<nat, Statement>, key: Key)
    requires Exact(c, w, tables, nodes) && WellStored(c, tables) && key in tables
    ensures WithAll(w, nodes, [key]) == Posting(c, tables, key) != {}
  {
    hide Keys, Exact, Ids, WellStored;
    StoredWellAt(c, tables, key);
    PostingIs(c, w, tables, nodes, key);
    assert forall s :: HasAll(w, s, [key]) <==> key in Keys(w, s);
  }

  lemma NoPosting(c: Codec, tables: map<Key, Bytes>, key: Key)
    requires key !in tables
    ensures Posting(c, tables, key) == {}
  {
  }

  lemma OneMoreKey(w: World, nodes: map<nat, Statement>, ks: seq<Key>, key: Key)
    ensures WithAll(w, nodes, ks + [key]) == WithAll(w, nodes, ks) * WithAll(w, nodes, [key])
  {
    hide Keys;
    forall s: Statement
      ensures HasAll(w, s, ks + [key]) <==> HasAll(w, s, ks) && HasAll(w, s, [key])
    {
      assert forall k :: k in ks + [key] <==> k in ks || k in [key];
    }
  }

  /** A list of requirements comes to the statements with every key of its last group. */
  lemma {:induction false} AllIsLastGroup(c: Codec, w: World, tables: map<Key, Bytes>, nodes: map<nat, Statement>,
                                          keys: seq<Key>)
    requires Exact(c, w, tables, nodes) && WellStored(c, tables)
    ensures Present(tables, keys) == [] ==> Fold(c, tables, All, keys) == {}
    ensures Present(tables, keys) != [] ==>
      Fold(c, tables, All, keys) == WithAll(w, nodes, LastGroup(w, tables, nodes, keys))
  {
    hide Keys, Exact, WellStored, WithAll, Posting;
    if keys != [] {
      var front, last := keys[..|keys| - 1], keys[|keys| - 1];
      AllIsLastGroup(c, w, tables, nodes, front);
      if last in tables {
        StoredHasOne(c, w, tables, nodes, last);
        var fs := Present(tables, front);
        var ks, g := fs + [last], Group(w, nodes, fs);
        assert ks[..|ks| - 1] == fs;
        OneMoreKey(w, nodes, fs[g..], last);
        if g < |fs| {
          assert ks[g..] == fs[g..] + [last];
        }
        assert ks[|fs|..] == [last];
        assert Present(tables, keys) == ks;
      } else {
        assert Present(tables, keys) == Present(tables, front);
      }
    }
  }

  /** Every list, of alternatives or of requirements, comes to the statements it lets through. */
  lemma FoldIs(c: Codec, w: World, tables: map<Key, Bytes>, nodes: map<nat, Statement>, op: Operator, keys: seq<Key>)
    requires Exact(c, w, tables, nodes) && WellStored(c, tables)
    ensures forall id :: id in Fold(c, tables, op, keys) <==>
      id in nodes && Passes(w, tables, nodes, nodes[id], op, keys)
  {
    hide Fold, HasOne, HasAll, Exact, WellStored;
    if op == Any {
      AnyIsExact(c, w, tables, nodes, keys);
    } else {
      AllIsLastGroup(c, w, tables, nodes, keys);
    }
  }

  /** A list of requirements is answered right if nothing has all the keys of its last group, or
      if no key is missing and the last group is the first one. */
  ghost predicate AnsweredRight(w: World, tables: map<Key, Bytes>, nodes: map<nat, Statement>, keys: seq<Key>) {
    var ks := Present(tables, keys);
    || ks == []
    || WithAll(w, nodes, LastGroup(w, tables, nodes, keys)) == {}
    || (ks == keys && Group(w, nodes, ks) == 0)
  }

  lemma MoreKeysFewer(w: World, nodes: map<nat, Statement>, some: seq<Key>, keys: seq<Key>)
    requires forall k :: k in some ==> k in keys
    ensures WithAll(w, nodes, keys) <= WithAll(w, nodes, some)
  {
  }

  lemma {:induction false} AllPresent(tables: map<Key, Bytes>, keys: seq<Key>)
    requires forall k :: k in keys ==> k in tables
    ensures Present(tables, keys) == keys
  {
    if keys != [] {
      LastKey(keys);
      AllPresent(tables, keys[..|keys| - 1]);
      assert keys == keys[..|keys| - 1] + [keys[|keys| - 1]];
    }
  }

  /** Where some statement has every key, there is a single group. */
  lemma {:induction false} OneGroup(w: World, nodes: map<nat, Statement>, ks: seq<Key>)
    requires WithAll(w, nodes, ks) != {}
    ensures Group(w, nodes, ks) == 0
  {
    hide HasAll;
    if ks != [] {
      var front := ks[..|ks| - 1];
      LastKey(ks);
      MoreKeysFewer(w, nodes, front, ks);
      OneGroup(w, nodes, front);
      assert front[0..] == front;
    }
  }

  /** A statement with every key is always found: a list of requirements finds too much, never too little. */
  lemma AllMissesNothing(c: Codec, w: World, tables: map<Key, Bytes>, nodes: map<nat, Statement>, keys: seq<Key>)
    requires Exact(c, w, tables, nodes) && keys != []
    ensures WithAll(w, nodes, keys) != {} ==> Present(tables, keys) == keys && Group(w, nodes, keys) == 0
    ensures Present(tables, keys) == [] ==> WithAll(w, nodes, keys) == {}
    ensures WithAll(w, nodes, keys) <= WithAll(w, nodes, LastGroup(w, tables, nodes, keys))
  {
    hide Keys, Exact, Group;
    if id :| id in WithAll(w, nodes, keys) {
      forall k | k in keys
        ensures k in tables
      {
        PostingIs(c, w, tables, nodes, k);
      }
      AllPresent(tables, keys);
      OneGroup(w, nodes, keys);
      assert keys[0] in keys;
    }
    PresentIs(tables, keys);
    MoreKeysFewer(w, nodes, LastGroup(w, tables, nodes, keys), keys);
  }

  /** A list of requirements is answered with the statements that meet them all exactly if nothing
      has all the keys of its last group, or no key was skipped and no other group started. */
  lemma AllIsExactWhen(c: Codec, w: World, tables: map<Key, Bytes>, nodes: map<nat, Statement>, keys: seq<Key>)
    requires Exact(c, w, tables, nodes) && WellStored(c, tables) && keys != []
    ensures Fold(c, tables, All, keys) == WithAll(w, nodes, keys) <==> AnsweredRight(w, tables, nodes, keys)
  {
    hide Fold, Keys, Group, Exact, WellStored, WithAll;
    AllIsLastGroup(c, w, tables, nodes, keys);
    AllMissesNothing(c, w, tables, nodes, keys);
    assert keys[0..] == keys;
  }

  /** What a list asks of a statement. */
  ghost predicate Wants(w: World, s: Statement, op: Operator, keys: seq<Key>) {
    if op == Any then HasOne(w, s, keys) else HasAll(w, s, keys)
  }

  /** A statement that has what is asked for always passes, and where requirements are answered
      right no other does. */
  lemma PassesWhen(c: Codec, w: World, tables: map<Key, Bytes>, nodes: map<nat, Statement>,
                   op: Operator, keys: seq<Key>, id: nat)
    requires Exact(c, w, tables, nodes) && WellStored(c, tables) && keys != [] && id in nodes
    ensures Wants(w, nodes[id], op, keys) ==> Passes(w, tables, nodes, nodes[id], op, keys)
    ensures (op == All ==> AnsweredRight(w, tables, nodes, keys)) ==>
      (Passes(w, tables, nodes, nodes[id], op, keys) ==> Wants(w, nodes[id], op, keys))
  {
    hide Group, Exact, WellStored, HasOne, HasAll;
    if op == All {
      AllMissesNothing(c, w, tables, nodes, keys);
      assert id in WithAll(w, nodes, keys) <==> HasAll(w, nodes[id], keys);
      var last := LastGroup(w, tables, nodes, keys);
      assert id in WithAll(w, nodes, last) <==> HasAll(w, nodes[id], last);
      assert keys[0..] == keys;
    }
  }

  /** A key nobody has is skipped: asking for it and another key finds the other's statements. */
  lemma SkippedKeyExample(c: Codec, w: World, tables: map<Key, Bytes>, nodes: map<nat, Statement>, a: Key, b: Key)
    requires Exact(c, w, tables, nodes) && WellStored(c, tables) && a in tables && b !in tables
    ensures Fold(c, tables, All, [a, b]) == WithAll(w, nodes, [a]) != {} == WithAll(w, nodes, [a, b])
  {
    hide Keys, Exact, WellStored, Posting;
    StoredHasOne(c, w, tables, nodes, a);
    PostingIs(c, w, tables, nodes, b);
    NoPosting(c, tables, b);
    assert b in [a, b];
    assert [a, b][..1] == [a] && [a][..0] == [];
    assert Present(tables, [a]) == [a];
    assert Present(tables, [a, b]) == [a];
    AllIsLastGroup(c, w, tables, nodes, [a, b]);
  }

  /** Two keys nobody has both of leave nothing, and a third starts over: asking for all three
      finds the third's statements. */
  lemma RestartExample(c: Codec, w: World, tables: map<Key, Bytes>, nodes: map<nat, Statement>,
                       a: Key, b: Key, d: Key)
    requires Exact(c, w, tables, nodes) && WellStored(c, tables) && a in tables && b in tables && d in tables
    requires WithAll(w, nodes, [a, b]) == {}
    ensures Fold(c, tables, All, [a, b, d]) == WithAll(w, nodes, [d]) != {} == WithAll(w, nodes, [a, b, d])
  {
    hide Keys, Exact, WellStored, WithAll, Posting;
    var ks := [a, b, d];
    StoredHasOne(c, w, tables, nodes, a);
    StoredHasOne(c, w, tables, nodes, d);
    assert ks[..2] == [a, b] && [a, b][..1] == [a] && [a][..0] == [];
    AllPresent(tables, ks);
    assert Group(w, nodes, [a]) == 0 && [a][0..] == [a];
    assert Group(w, nodes, [a, b]) == 0 && [a, b][0..] == [a, b];
    assert ks[2..] == [d];
    AllIsLastGroup(c, w, tables, nodes, ks);
    MoreKeysFewer(w, nodes, [a, b], ks);
  }

  // --- the search itself ---

  /** The buffers of a search: the result so far, a temporary, and the part at hand. */
  predicate Buffers(st: Store, bits: array<bv8>, bits1: array<bv8>, bits2: array<bv8>) {
    && bits.Length == BYTES + 1 && bits1.Length == BYTES + 1 && bits2.Length == BYTES + 1
    && bits != bits1 && bits != bits2 && bits1 != bits2
    && st.bitsDecode != bits && st.bitsDecode != bits1 && st.bitsDecode != bits2
  }

  /** A bcopy of the first n bytes. */
  method CopyBits(from: array<bv8>, to: array<bv8>, n: nat)
    requires from != to && n <= from.Length && n <= to.Length
    modifies to
    ensures to[..n] == from[..n]
  {
    for i := 0 to n
      invariant to[..i] == from[..i]
    {
      to[i] := from[i];
      assert to[..i + 1] == to[..i] + [from[i]];
    }
  }

  /** The posting vector of one key joins the part at hand. */
  method Merge(st: Store, key: Key, op: Operator, outsize3: nat, bits1: array<bv8>, bits2: array<bv8>)
    returns (size: nat)
    requires st.Valid() && bits1.Length == BYTES + 1 && bits2.Length == BYTES + 1
    requires bits1 != bits2 && st.bitsDecode != bits1 && st.bitsDecode != bits2
    requires outsize3 <= BYTES && (outsize3 == 0 <==> Ids(bits2[..outsize3]) == {})
    modifies st.bitsDecode, bits1, bits2
    ensures size <= BYTES && (size == 0 <==> Ids(bits2[..size]) == {})
    ensures Ids(bits2[..size]) == Merged(st.codec, st.tables, op, Ids(old(bits2[..outsize3])), key)
  {
    hide Ids, Exact, Numbered, Workable, Short;
    size := outsize3;
    StoredWellAt(st.codec, st.tables, key);
    if key !in st.tables {
      return;
    }
    NoIds(bits2[..outsize3]);
    if size > 0 {
      var outsize2 := st.Decode(st.tables[key], st.bitsDecode);
      if op == All {
        size := And(size, bits2, outsize2, st.bitsDecode, bits1);
      } else {
        size := Or(size, bits2, outsize2, st.bitsDecode, bits1);
      }
      size := Shorten(size, bits1);
      ShortIsEmpty(bits1[..size]);
      CopyBits(bits1, bits2, size);
    } else {
      size := st.Decode(st.tables[key], bits2);
      NoIds(bits2[..size]);
    }
  }

  /** All entries of a part, in the order of the list. */
  method Combine(st: Store, keys: seq<Key>, op: Operator, bits1: array<bv8>, bits2: array<bv8>) returns (size: nat)
    requires st.Valid() && bits1.Length == BYTES + 1 && bits2.Length == BYTES + 1
    requires bits1 != bits2 && st.bitsDecode != bits1 && st.bitsDecode != bits2
    modifies st.bitsDecode, bits1, bits2
    ensures size <= BYTES && (size == 0 <==> Fold(st.codec, st.tables, op, keys) == {})
    ensures Ids(bits2[..size]) == Fold(st.codec, st.tables, op, keys)
  {
    hide Ids, Exact, Numbered, Workable, WellStored, Merged;
    size := 0;
    NoIds(bits2[..0]);
    for i := 0 to |keys|
      invariant size <= BYTES && (size == 0 <==> Ids(bits2[..size]) == {})
      invariant Ids(bits2[..size]) == Fold(st.codec, st.tables, op, keys[..i])
    {
      size := Merge(st, keys[i], op, size, bits1, bits2);
      assert keys[..i + 1][..i] == keys[..i];
    }
    assert keys[..|keys|] == keys;
  }

  /** What the result so far holds: no part yet, or the ids common to all parts, at least one. */
  ghost predicate Holds(bits: Vector, size: nat, acc: Option<set<nat>>) {
    size <= |bits| && match acc
    case None => size == 0 && forall i :: 0 <= i < |bits| ==> bits[i] == 0
    case Some(s) => size > 0 && s != {} && Ids(bits[..size]) == s
  }

  ghost function Meet(acc: Option<set<nat>>, s: set<nat>): Option<set<nat>> {
    match acc
    case None => Some(s)
    case Some(t) => Some(t * s)
  }

  /** The part at hand joins the result; there is nothing to be found if either has no bit. */
  method Join(bits: array<bv8>, bits1: array<bv8>, bits2: array<bv8>, outsize1: nat, outsize3: nat,
              ghost acc: Option<set<nat>>)
    returns (stop: bool, size: nat)
    requires bits.Length == BYTES + 1 && bits1.Length == BYTES + 1 && bits2.Length == BYTES + 1
    requires bits != bits1 && bits != bits2 && bits1 != bits2 && outsize1 <= BYTES && outsize3 <= BYTES
    requires outsize3 == 0 <==> Ids(bits2[..outsize3]) == {}
    requires Holds(bits[..], outsize1, acc)
    modifies bits, bits1
    ensures size <= BYTES
    ensures var found := Meet(acc, Ids(old(bits2[..outsize3])));
      if stop then found == Some({}) else Holds(bits[..], size, found)
  {
    hide Ids, Short;
    ghost var s := Ids(bits2[..outsize3]);
    assert acc.Some? ==> acc.value * {} == {};
    size := outsize1;
    assert bits[..][..outsize1] == bits[..outsize1];
    if outsize3 == 0 {
      return true, size;
    }
    stop := false;
    if size > 0 {
      size := And(size, bits, outsize3, bits2, bits1);
      size := Shorten(size, bits1);
      ShortIsEmpty(bits1[..size]);
      if size == 0 {
        return true, size;
      }
      CopyBits(bits1, bits, size);
    } else {
      NoBitsYet(bits[..outsize3]);
      size := Or(outsize3, bits, outsize3, bits2, bits1);
      ShortIsEmpty(bits1[..size]);
      CopyBits(bits1, bits, outsize3);
      assert bits[..size] == bits[..outsize3][..size];
      assert bits1[..size] == bits1[..outsize3][..size];
    }
    assert bits[..][..size] == bits[..size];
  }

  lemma NoBitsYet(v: Vector)
    requires forall i :: 0 <= i < |v| ==> v[i] == 0
    ensures Ids(v) == {}
  {
    TrimmedIds(v, 0);
    assert v[..0] == [];
    NoIds([]);
  }
}
