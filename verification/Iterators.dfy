/** Cursors over a set of statement ids: walking them, removing from them, and the algebra of
    result sets. */
module Iterators {
  import opened Options
  import opened BitVectors

  /** The size of an id vector: 2097152 statements, eight to a byte. */
  const BYTES := 0x4_0000

  ghost function Lower(s: set<nat>, n: nat): set<nat> {
    set i | i in s && i < n
  }

  /** r is the first of the ids from n on. */
  ghost predicate Leads(s: set<nat>, n: nat, r: nat) {
    r in s && r >= n && forall i :: i in s && i >= n ==> r <= i
  }

  lemma LowerStep(s: set<nat>, n: nat, r: nat)
    requires Leads(s, n, r)
    ensures Lower(s, r + 1) == Lower(s, n) + {r} && |Lower(s, r + 1)| == |Lower(s, n)| + 1
    ensures |Lower(s, n)| < |s|
  {
    assert Lower(s, r + 1) == Lower(s, n) + {r};
    SmallerSet(Lower(s, r + 1), s);
  }

  lemma {:induction false} SmallerSet(a: set<nat>, b: set<nat>)
    requires a <= b
    ensures |a| <= |b|
  {
    assert b == a + (b - a);
  }

  lemma LowerAll(s: set<nat>, n: nat)
    requires forall i :: i in s ==> i < n
    ensures Lower(s, n) == s
  {
  }

  /** Something is left from n on exactly when not all ids are below n. */
  lemma SomeLeft(s: set<nat>, n: nat)
    ensures (exists i :: i in s && i >= n) <==> |Lower(s, n)| < |s|
  {
    if i :| i in s && i >= n {
      assert Lower(s, n) <= s - {i};
      SmallerSet(Lower(s, n), s - {i});
    } else {
      LowerAll(s, n);
    }
  }

  class Iterator {
    const store: int
    const ids: array<bv8>
    var size: nat
    var idsSize: nat
    var stCounter: nat
    var pos: nat

    ghost function Content(): set<nat>
      reads this, ids
      requires idsSize <= ids.Length
    {
      Ids(ids[..idsSize])
    }

    /** The vector has one spare byte, which the search looks at and never uses. */
    ghost predicate Valid()
      reads this, ids
    {
      ids.Length == BYTES + 1 && idsSize <= BYTES && size == |Content()|
    }

    /** The counter counts the ids behind the position. */
    ghost predicate InStep()
      reads this, ids
      requires idsSize <= ids.Length
    {
      stCounter == |Lower(Content(), pos)|
    }

    /** The vector has room for all of these ids. */
    ghost predicate Spans(s: set<nat>)
      reads this
    {
      forall i :: i in s ==> i < 8 * idsSize
    }

    /** A cursor at its start, over the ids s. */
    ghost predicate Over(s: set<nat>)
      reads this, ids
    {
      Valid() && InStep() && pos == 0 && Content() == s
    }

    /** A new cursor: its vector holds whatever was in memory. */
    constructor (store: int)
      ensures Valid() && InStep() && Content() == {} && idsSize == 0 && pos == 0 && stCounter == 0
      ensures fresh(ids) && this.store == store
    {
      this.store := store;
      ids := new bv8[BYTES + 1];
      size, idsSize, stCounter, pos := 0, 0, 0, 0;
      new;
      assert ids[..0] == [];
      IdsHas([]);
      assert Content() == {};
      assert Lower({}, 0) == {};
    }

    /** Count the bits of a result and go back to the start. */
    method CountIds()
      requires ids.Length == BYTES + 1 && idsSize <= BYTES
      modifies this`size, this`pos
      ensures Valid() && pos == 0
    {
      hide Ids, FirstAfter, Lower, Leads;
      ghost var s := Content();
      size := 0;
      pos := GetFirstSetAfter(idsSize, ids, 0);
      LowerNothing(s);
      ghost var done := 0;
      while pos < 8 * idsSize
        invariant Content() == s && FirstAfter(ids[..idsSize], done, pos) && size == |Lower(s, done)|
        invariant done <= 8 * idsSize
        decreases 8 * idsSize - done
      {
        NothingBetween(ids[..idsSize], done, pos);
        LowerStep(s, done, pos);
        pos := pos + 1;
        size := size + 1;
        done := pos;
        pos := GetFirstSetAfter(idsSize, ids, pos);
      }
      NothingBetween(ids[..idsSize], done, pos);
      LowerAll(s, done);
      pos := 0;
    }

    // --- walking ---

    /** hasnext: on a cursor in step, is there an id from the position on? */
    method HasNext() returns (b: bool)
      requires Valid()
      ensures b <==> stCounter < |Content()|
      ensures InStep() ==> (b <==> exists id :: id in Content() && id >= pos)
    {
      hide Ids, Lower;
      SomeLeft(Content(), pos);
      b := stCounter < size;
    }

    /** each: the next statement, or None and back to the start. */
    method Each<T>(nodes: map<nat, T>) returns (s: Option<T>)
      requires Valid() && pos / 8 <= BYTES
      modifies this`stCounter, this`pos
      ensures Valid()
      ensures s.Some? ==> stCounter == old(stCounter) + 1 && pos > 0 && Leads(Content(), old(pos), pos - 1)
      ensures s.Some? ==> pos - 1 in nodes && s.value == nodes[pos - 1]
      ensures s.None? ==> pos == 0 && stCounter == 0
      ensures s.None? ==> (old(stCounter) >= size || (forall i :: i in Content() ==> i < old(pos))
        || exists r :: Leads(Content(), old(pos), r) && r !in nodes)
      ensures old(InStep()) ==> InStep()
      ensures old(InStep()) && Content() <= nodes.Keys && old(stCounter) < size ==> s.Some?
    {
      hide Ids, FirstAfter, Lower, Leads;
      LowerNothing(Content());
      SomeLeft(Content(), pos);
      var more := HasNext();
      if !more {
        stCounter, pos := 0, 0;
        return None;
      }
      ghost var from := pos;
      pos := GetFirstSetAfter(idsSize, ids, pos);
      NothingBetween(ids[..idsSize], from, pos);
      if pos >= 8 * idsSize {
        stCounter, pos := 0, 0;
        return None;
      }
      LowerStep(Content(), from, pos);
      if pos !in nodes {
        stCounter, pos := 0, 0;
        return None;
      }
      s := Some(nodes[pos]);
      stCounter := stCounter + 1;
      pos := pos + 1;
    }

    /** first: back to the first statement, which stays the current one. */
    method First<T>(nodes: map<nat, T>) returns (s: Option<T>)
      requires Valid()
      modifies this`stCounter, this`pos
      ensures Valid() && InStep() && stCounter == 0
      ensures Content() != {} ==> Leads(Content(), 0, pos)
      ensures Content() == {} ==> pos >= 8 * idsSize
      ensures pos / 8 <= BYTES
      ensures s == if pos in Content() && pos in nodes then Some(nodes[pos]) else None
    {
      hide Ids, FirstAfter, Lower, Leads;
      stCounter := 0;
      pos := GetFirstSetAfter(idsSize, ids, 0);
      NothingBetween(ids[..idsSize], 0, pos);
      LowerNothing(Content());
      NoneBelowZero(Content());
      if pos >= 8 * idsSize {
        return None;
      }
      s := if pos in nodes then Some(nodes[pos]) else None;
    }

    /** next: on from the current statement. */
    method Next<T>(nodes: map<nat, T>) returns (s: Option<T>)
      requires Valid() && (pos + 1) / 8 <= BYTES
      modifies this`stCounter, this`pos
      ensures Valid() && stCounter == old(stCounter) + 1
      ensures FirstAfter(ids[..idsSize], old(pos) + 1, pos)
      ensures s == if pos in Content() && pos in nodes then Some(nodes[pos]) else None
      ensures old(InStep()) && old(pos) in Content() ==> InStep()
      ensures old(InStep()) && old(pos) !in Content() ==> stCounter == |Lower(Content(), pos)| + 1
    {
      hide Ids, FirstAfter, Lower, Leads;
      ghost var from := pos + 1;
      stCounter := stCounter + 1;
      pos := pos + 1;
      pos := GetFirstSetAfter(idsSize, ids, pos);
      NothingBetween(ids[..idsSize], from, pos);
      if from - 1 in Content() {
        LeadsItself(Content(), from - 1);
        LowerStep(Content(), from - 1, from - 1);
      } else {
        LowerSkips(Content(), from - 1);
      }
      if pos >= 8 * idsSize {
        return None;
      }
      s := if pos in nodes then Some(nodes[pos]) else None;
    }

    /** contains, once the statement's id is known. */
    method Contains(id: nat) returns (b: bool)
      requires Valid()
      ensures b <==> id in Content()
    {
      var found, at := IsAnySet(idsSize, ids, id);
      b := found && at == id;
    }

    /** remove: take out the id at the current position. The counter is left alone, so the next
        step onwards counts an id that is gone (see WalkRemoving). */
    method Remove() returns (ok: bool)
      requires Valid() && pos / 8 < BYTES
      modifies this`size, this`idsSize, ids
      ensures Valid() && ok == (pos in old(Content())) && Content() == old(Content()) - {pos}
      ensures old(InStep()) ==> InStep()
    {
      assert Lower(Content() - {pos}, pos) == Lower(Content(), pos);
      var grown, change := SetMask(idsSize, ids, pos, false, BYTES);
      idsSize := grown;
      if !change {
        return false;
      }
      size := size - 1;
      idsSize := Shorten(idsSize, ids);
      ok := true;
    }

    // --- the algebra of result sets ---

    /** intersect; no result for cursors of different stores. */
    static method Intersect(me: Iterator, you: Iterator) returns (r: Iterator?)
      requires me.Valid() && you.Valid()
      ensures r == null <==> me.store != you.store
      ensures r != null ==> fresh(r) && fresh(r.ids) && r.store == me.store
      ensures r != null ==> r.Over(me.Content() * you.Content())
    {
      if me.store != you.store {
        return null;
      }
      hide Ids, Lower, Short;
      r := new Iterator(me.store);
      r.idsSize := And(me.idsSize, me.ids, you.idsSize, you.ids, r.ids);
      r.Finish();
    }

    /** unite. */
    static method Unite(me: Iterator, you: Iterator) returns (r: Iterator?)
      requires me.Valid() && you.Valid()
      ensures r == null <==> me.store != you.store
      ensures r != null ==> fresh(r) && fresh(r.ids) && r.store == me.store
      ensures r != null ==> r.Over(me.Content() + you.Content())
    {
      if me.store != you.store {
        return null;
      }
      hide Ids, Lower, Short;
      r := new Iterator(me.store);
      r.idsSize := Or(me.idsSize, me.ids, you.idsSize, you.ids, r.ids);
      r.Finish();
    }

    /** exor: set in the first and not in the second. */
    static method ExOr(me: Iterator, you: Iterator) returns (r: Iterator?)
      requires me.Valid() && you.Valid()
      ensures r == null <==> me.store != you.store
      ensures r != null ==> fresh(r) && fresh(r.ids) && r.store == me.store
      ensures r != null ==> r.Over(me.Content() - you.Content())
    {
      if me.store != you.store {
        return null;
      }
      hide Ids, Lower, Short;
      r := new Iterator(me.store);
      r.idsSize := Exor(me.idsSize, me.ids, you.idsSize, you.ids, r.ids);
      r.Finish();
    }

    /** subtract: the negated vector has no bits past its end, so ids there are lost. It is the
        difference exactly when the first cursor has no id the second has no room for. */
    static method Subtract(me: Iterator, you: Iterator) returns (r: Iterator?)
      requires me.Valid() && you.Valid()
      ensures r == null <==> me.store != you.store
      ensures r != null ==> fresh(r) && fresh(r.ids) && r.store == me.store
      ensures r != null ==> r.Over(Lower(me.Content() - you.Content(), 8 * you.idsSize))
      ensures r != null ==> (r.Content() == me.Content() - you.Content() <==> you.Spans(me.Content()))
    {
      if me.store != you.store {
        return null;
      }
      hide Ids, Lower, Short;
      var not := you.Negated();
      Bounded(you.ids[..you.idsSize]);
      r := new Iterator(me.store);
      r.idsSize := And(me.idsSize, me.ids, you.idsSize, not, r.ids);
      CutIs(me.Content(), you.Content(), Ids(not[..you.idsSize]), 8 * you.idsSize);
      CutDown(me.Content(), you.Content(), 8 * you.idsSize);
      r.Finish();
    }

    method Negated() returns (not: array<bv8>)
      requires Valid()
      ensures fresh(not) && not.Length == BYTES
      ensures forall i: nat :: i in Ids(not[..idsSize]) <==> i < 8 * idsSize && i !in Content()
    {
      not := new bv8[BYTES];
      var i := 0;
      while i < idsSize
        invariant i <= idsSize && forall j :: 0 <= j < i ==> not[j] == !ids[j]
      {
        not[i] := !ids[i];
        i := i + 1;
      }
      NotIds(ids[..idsSize], not[..idsSize]);
    }

    /** complement: the negated vector, cut down to the elements of the store. */
    static method Complement(me: Iterator, elements: Iterator) returns (r: Iterator?)
      requires me.Valid() && elements.Valid() && me.store == elements.store
      ensures r != null && fresh(r) && fresh(r.ids) && r.store == me.store
      ensures r.Over(Lower(elements.Content() - me.Content(), 8 * me.idsSize))
      ensures r.Content() == elements.Content() - me.Content() <==> me.Spans(elements.Content())
    {
      hide Ids, Lower, Short;
      Bounded(me.ids[..me.idsSize]);
      var n := new Iterator(me.store);
      n.idsSize := Not(me.idsSize, me.ids, n.ids);
      n.Finish();
      CutIs(elements.Content(), me.Content(), n.Content(), 8 * me.idsSize);
      CutDown(elements.Content(), me.Content(), 8 * me.idsSize);
      r := Intersect(n, elements);
    }

    /** What every set operation ends with. */
    method Finish()
      requires ids.Length == BYTES + 1 && idsSize <= BYTES && stCounter == 0
      modifies this`idsSize, this`size, this`pos
      ensures Valid() && InStep() && pos == 0 && Content() == old(Content())
    {
      idsSize := Shorten(idsSize, ids);
      CountIds();
      LowerNothing(Content());
    }
  }

  lemma LowerSkips(s: set<nat>, n: nat)
    requires n !in s
    ensures Lower(s, n + 1) == Lower(s, n)
  {
  }

  lemma LowerNothing(s: set<nat>)
    ensures Lower(s, 0) == {}
  {
  }

  lemma NoneBelowZero(s: set<nat>)
    ensures (forall i :: i in s ==> i < 0) <==> s == {}
  {
  }

  lemma LeadsItself(s: set<nat>, i: nat)
    requires i in s
    ensures Leads(s, i, i)
  {
  }

  lemma Bounded(v: Vector)
    ensures forall i :: i in Ids(v) ==> i < 8 * |v|
  {
  }

  /** Cutting a set to what a vector has room for loses nothing exactly when there is nothing more. */
  lemma CutDown(a: set<nat>, b: set<nat>, n: nat)
    requires forall i :: i in b ==> i < n
    ensures Lower(a - b, n) == a - b <==> forall i :: i in a ==> i < n
  {
    if Lower(a - b, n) == a - b {
      forall i | i in a
        ensures i < n
      {
        if i !in b {
          assert i in Lower(a - b, n);
        }
      }
    }
  }

  lemma CutIs(a: set<nat>, b: set<nat>, c: set<nat>, n: nat)
    requires forall i: nat :: i in c <==> i < n && i !in b
    ensures a * c == Lower(a - b, n)
  {
  }

  lemma NothingBetween(v: Vector, n: nat, r: nat)
    requires FirstAfter(v, n, r)
    ensures Lower(Ids(v), r) == Lower(Ids(v), n)
    ensures r < 8 * |v| <==> r in Ids(v)
    ensures r < 8 * |v| ==> Leads(Ids(v), n, r)
    ensures r >= 8 * |v| ==> forall i :: i in Ids(v) ==> i < n
  {
    IdsHas(v);
  }

  // --- the two ways to walk a result ---

  /** order lists the ids of s, each once, in ascending order. */
  ghost predicate Enumerates(order: seq<nat>, s: set<nat>) {
    && (forall i, j :: 0 <= i < j < |order| ==> order[i] < order[j])
    && (forall x :: x in order <==> x in s)
  }

  lemma EnumeratesNext(order: seq<nat>, s: set<nat>, n: nat, r: nat)
    requires Enumerates(order, Lower(s, n)) && Leads(s, n, r)
    ensures Enumerates(order + [r], Lower(s, r + 1))
  {
    forall i | 0 <= i < |order|
      ensures order[i] < r
    {
      assert order[i] in Lower(s, n);
    }
  }

  /** The statements found under a list of ids. */
  ghost predicate Listed<T(!new)>(out: seq<T>, order: seq<nat>, nodes: map<nat, T>) {
    |out| == |order| && forall i :: 0 <= i < |out| ==> order[i] in nodes && out[i] == nodes[order[i]]
  }

  lemma NothingListed<T(!new)>(nodes: map<nat, T>)
    ensures Listed([], [], nodes) && Enumerates([], {})
  {
  }

  lemma ListedNext<T(!new)>(out: seq<T>, order: seq<nat>, nodes: map<nat, T>, r: nat)
    requires Listed(out, order, nodes) && r in nodes
    ensures Listed(out + [nodes[r]], order + [r], nodes)
  {
  }

  /** while (s = each()) visits every statement once, in the order of ids, and ends back at the start. */
  method EachAll<T(!new)>(it: Iterator, nodes: map<nat, T>) returns (out: seq<T>, ghost order: seq<nat>)
    requires it.Valid() && it.Over(it.Content()) && it.Content() <= nodes.Keys
    modifies it`stCounter, it`pos
    ensures Enumerates(order, it.Content()) && Listed(out, order, nodes)
    ensures it.Over(old(it.Content()))
  {
    hide Ids, Lower, Leads, Enumerates, Listed;
    ghost var s := it.Content();
    out, order := [], [];
    LowerNothing(s);
    NothingListed(nodes);
    Bounded(it.ids[..it.idsSize]);
    while true
      invariant it.Valid() && it.InStep() && it.Content() == s && it.pos / 8 <= BYTES
      invariant Enumerates(order, Lower(s, it.pos)) && Listed(out, order, nodes)
      decreases it.size - it.stCounter
    {
      ghost var n := it.pos;
      ghost var counted := it.stCounter;
      SomeLeft(s, n);
      var st := it.Each(nodes);
      if st.None? {
        AllLower(s, n);
        break;
      }
      LeadsIn(s, n, it.pos - 1);
      LowerStep(s, n, it.pos - 1);
      EnumeratesNext(order, s, n, it.pos - 1);
      ListedNext(out, order, nodes, it.pos - 1);
      out, order := out + [st.value], order + [it.pos - 1];
    }
  }

  lemma LowerPart(s: set<nat>, n: nat)
    ensures Lower(s, n) <= s
  {
  }

  lemma LeadsIn(s: set<nat>, n: nat, r: nat)
    requires Leads(s, n, r)
    ensures r in s && r >= n
  {
  }

  lemma AllLower(s: set<nat>, n: nat)
    ensures |Lower(s, n)| >= |s| ==> Lower(s, n) == s
  {
    SomeLeft(s, n);
    if |Lower(s, n)| >= |s| {
      LowerAll(s, n);
    }
  }

  /** first(), and next() while hasnext(), visit every statement once in the order of ids. */
  method WalkAll<T(!new)>(it: Iterator, nodes: map<nat, T>) returns (out: seq<T>, ghost order: seq<nat>)
    requires it.Valid() && it.Content() <= nodes.Keys
    modifies it`stCounter, it`pos
    ensures Enumerates(order, it.Content()) && Listed(out, order, nodes)
    ensures it.Valid() && it.Content() == old(it.Content())
  {
    hide Ids, Lower, Leads, FirstAfter, Enumerates, Listed;
    ghost var s := it.Content();
    out, order := [], [];
    NothingListed(nodes);
    Bounded(it.ids[..it.idsSize]);
    var st := it.First(nodes);
    if s != {} {
      LeadsIn(s, 0, it.pos);
      LowerFirst(s, it.pos);
    } else {
      LowerPart(s, it.pos);
    }
    var more := it.HasNext();
    while more
      invariant it.Valid() && it.InStep() && it.Content() == s && more == (it.stCounter < it.size)
      invariant Enumerates(order, Lower(s, it.pos)) && Listed(out, order, nodes)
      invariant more ==> it.pos in s && it.pos < 8 * BYTES && st == Some(nodes[it.pos])
      decreases it.size - it.stCounter
    {
      ghost var n := it.pos;
      LeadsItself(s, n);
      LowerStep(s, n, n);
      EnumeratesNext(order, s, n, n);
      ListedNext(out, order, nodes, n);
      out, order := out + [st.value], order + [n];
      st := it.Next(nodes);
      NothingBetween(it.ids[..it.idsSize], n + 1, it.pos);
      SomeLeft(s, n + 1);
      more := it.HasNext();
    }
    AllLower(s, it.pos);
  }

  lemma LowerFirst(s: set<nat>, r: nat)
    requires Leads(s, 0, r)
    ensures Lower(s, r) == {}
  {
  }

  // --- removing on the way ---

  /** The ids of drop among the first n of a walk. */
  ghost function Gone(all: seq<nat>, drop: set<nat>, n: nat): set<nat>
    requires n <= |all|
  {
    set j | 0 <= j < n && all[j] in drop :: all[j]
  }

  /** At each of the first n steps of a walk fewer statements are counted than are left. */
  ghost predicate GoesOn(all: seq<nat>, drop: set<nat>, n: nat) {
    n <= |all| && forall i :: 0 <= i < n ==> i + |Gone(all, drop, i)| < |all|
  }

  /** A walk that removes the ids of drop ends after m. */
  ghost predicate EndsAfter(all: seq<nat>, drop: set<nat>, m: nat) {
    GoesOn(all, drop, m) && m + |Gone(all, drop, m)| >= |all|
  }

  lemma GoesOnNext(all: seq<nat>, drop: set<nat>, n: nat)
    requires GoesOn(all, drop, n) && n + |Gone(all, drop, n)| < |all|
    ensures GoesOn(all, drop, n + 1)
  {
  }

  lemma GoneNext(all: seq<nat>, s: set<nat>, drop: set<nat>, n: nat)
    requires Enumerates(all, s) && n < |all|
    ensures all[n] !in Gone(all, drop, n)
    ensures Gone(all, drop, n + 1) == if all[n] in drop then Gone(all, drop, n) + {all[n]} else Gone(all, drop, n)
    ensures |Gone(all, drop, n + 1)| == |Gone(all, drop, n)| + if all[n] in drop then 1 else 0
  {
    hide Enumerates;
    var next := if all[n] in drop then Gone(all, drop, n) + {all[n]} else Gone(all, drop, n);
    forall x
      ensures x in Gone(all, drop, n + 1) <==> x in next
    {
      if x in Gone(all, drop, n + 1) {
        var j :| 0 <= j < n + 1 && all[j] in drop && all[j] == x;
      }
    }
    assert Gone(all, drop, n + 1) == next;
    forall j | 0 <= j < n
      ensures all[j] < all[n]
    {
      Ascends(all, s, j, n);
    }
  }

  lemma Ascends(all: seq<nat>, s: set<nat>, i: nat, j: nat)
    requires Enumerates(all, s) && i < j < |all|
    ensures all[i] < all[j] && all[i] in s && all[j] in s
  {
  }

  lemma {:induction false} GoneGrows(all: seq<nat>, s: set<nat>, drop: set<nat>, m: nat, n: nat)
    requires Enumerates(all, s) && m <= n <= |all|
    ensures |Gone(all, drop, m)| <= |Gone(all, drop, n)|
    decreases n
  {
    hide Enumerates, Gone;
    if m < n {
      GoneGrows(all, s, drop, m, n - 1);
      GoneNext(all, s, drop, n - 1);
    }
  }

  /** There is one place for a walk to end. It is the end of the list exactly if nothing before the
      last statement is removed. */
  lemma EndsWhere(all: seq<nat>, s: set<nat>, drop: set<nat>, m: nat)
    requires Enumerates(all, s) && EndsAfter(all, drop, m)
    ensures forall n: nat :: EndsAfter(all, drop, n) ==> n == m
    ensures m == |all| <==> forall x, y :: x in s && x in drop && y in s ==> y <= x
  {
    hide Gone, Enumerates;
    if all != [] {
      var last := |all| - 1;
      if m <= last {
        GoneGrows(all, s, drop, m, last);
      }
      assert m == |all| <==> Gone(all, drop, last) == {};
      NothingGone(all, s, drop);
    } else {
      NoneListed(all, s);
    }
  }

  lemma NoneListed(all: seq<nat>, s: set<nat>)
    requires Enumerates(all, s)
    ensures all == [] <==> s == {}
  {
    if all != [] {
      assert all[0] in s;
    }
  }

  lemma NothingGone(all: seq<nat>, s: set<nat>, drop: set<nat>)
    requires Enumerates(all, s) && all != []
    ensures Gone(all, drop, |all| - 1) == {} <==> forall x, y :: x in s && x in drop && y in s ==> y <= x
  {
    var last := |all| - 1;
    if j :| 0 <= j < last && all[j] in drop {
      Ascends(all, s, j, last);
      assert all[j] in Gone(all, drop, last);
    } else {
      forall x, y | x in s && x in drop && y in s
        ensures y <= x
      {
        var i :| 0 <= i < |all| && all[i] == x;
        var j :| 0 <= j < |all| && all[j] == y;
      }
    }
  }

  /** The ids of a set in ascending order. */
  lemma {:induction false} InOrder(s: set<nat>, n: nat) returns (all: seq<nat>)
    ensures Enumerates(all, Lower(s, n))
  {
    all := [];
    if n > 0 {
      all := InOrder(s, n - 1);
      if n - 1 in s {
        EnumeratesNext(all, s, n - 1, n - 1);
        all := all + [n - 1];
      } else {
        LowerSkips(s, n - 1);
      }
    }
  }

  /** Where a walk that removes stands after i statements: everything in drop that was passed is gone,
      and the current id is the next of the list. */
  ghost predicate Walking(it: Iterator, s: set<nat>, all: seq<nat>, drop: set<nat>, i: nat)
    reads it, it.ids
  {
    && it.Valid() && i <= |all| && it.stCounter == i && it.Content() == s - Gone(all, drop, i)
    && (i < |all| ==> it.pos == all[i])
  }

  lemma WalkingIs(it: Iterator, s: set<nat>, all: seq<nat>, drop: set<nat>, i: nat)
    requires Walking(it, s, all, drop, i)
    ensures it.Valid() && i <= |all| && it.stCounter == i && it.Content() == s - Gone(all, drop, i)
    ensures it.size == |s - Gone(all, drop, i)|
  {
    hide Gone, Ids;
  }

  /** The next id in the vector is the next of the list. */
  lemma NextOfList(v: Vector, s: set<nat>, all: seq<nat>, drop: set<nat>, i: nat, r: nat)
    requires Enumerates(all, s) && i + 1 < |all| && Ids(v) == s - Gone(all, drop, i + 1)
    requires FirstAfter(v, all[i] + 1, r)
    ensures r == all[i + 1]
  {
    hide Ids, FirstAfter;
    NothingBetween(v, all[i] + 1, r);
    Bounded(v);
    var next := all[i + 1];
    forall j | 0 <= j < i + 1
      ensures all[j] != next
    {
    }
    assert next in Ids(v);
    assert r in Ids(v) && r <= next;
    var k :| 0 <= k < |all| && all[k] == r;
  }

  lemma ListSize(all: seq<nat>, s: set<nat>, drop: set<nat>, i: nat)
    requires Enumerates(all, s) && i <= |all|
    ensures |s| == |all| && |s - Gone(all, drop, i)| == |all| - |Gone(all, drop, i)|
  {
    SizeOfList(all, s);
    assert Gone(all, drop, i) <= s;
    assert s == (s - Gone(all, drop, i)) + Gone(all, drop, i);
  }

  lemma {:induction false} SizeOfList(all: seq<nat>, s: set<nat>)
    requires Enumerates(all, s)
    ensures |s| == |all|
  {
    if all != [] {
      var front, last := all[..|all| - 1], all[|all| - 1];
      assert all == front + [last];
      assert Enumerates(front, s - {last});
      SizeOfList(front, s - {last});
    } else {
      NoneListed(all, s);
    }
  }

  lemma ListPosition(all: seq<nat>, s: set<nat>, i: nat)
    requires Enumerates(all, s) && i < |all|
    ensures all[i] in s
  {
  }

  /** The first id is the first of the list. */
  lemma StartOfList(all: seq<nat>, s: set<nat>, drop: set<nat>, r: nat)
    requires Enumerates(all, s) && (s != {} ==> Leads(s, 0, r))
    ensures all != [] ==> r == all[0] && all[0] in s
    ensures Gone(all, drop, 0) == {} && GoesOn(all, drop, 0)
  {
    if all != [] {
      assert all[0] in s;
      var k :| 0 <= k < |all| && all[k] == r;
    }
  }

  /** One statement of the walk: remove it if it is to go, move on, and see if there is more. */
  method WalkOn<T(!new)>(it: Iterator, nodes: map<nat, T>, drop: set<nat>,
                         ghost s: set<nat>, ghost all: seq<nat>, ghost i: nat)
    returns (st: Option<T>, more: bool)
    requires Walking(it, s, all, drop, i) && Enumerates(all, s) && i < |all| && s <= nodes.Keys
    modifies it`stCounter, it`pos, it`size, it`idsSize, it.ids
    ensures Walking(it, s, all, drop, i + 1)
    ensures more <==> i + 1 + |Gone(all, drop, i + 1)| < |all|
    ensures i + 1 < |all| ==> all[i + 1] in s && st == Some(nodes[all[i + 1]])
  {
    hide Ids, Lower, Leads, FirstAfter, Enumerates, Gone;
    ListPosition(all, s, i);
    GoneNext(all, s, drop, i);
    ListSize(all, s, drop, i + 1);
    Bounded(it.ids[..it.idsSize]);
    assert it.pos in it.Content();
    if it.pos in drop {
      var ok := it.Remove();
    }
    st := it.Next(nodes);
    if i + 1 < |all| {
      NextOfList(it.ids[..it.idsSize], s, all, drop, i, it.pos);
      ListPosition(all, s, i + 1);
      GoneNext(all, s, drop, i + 1);
    }
    more := it.HasNext();
  }

  lemma ListedMore<T(!new)>(out: seq<T>, all: seq<nat>, nodes: map<nat, T>)
    requires |out| < |all| && Listed(out, all[..|out|], nodes) && all[|out|] in nodes
    ensures Listed(out + [nodes[all[|out|]]], all[..|out| + 1], nodes)
  {
  }

  /** Where a walk starts. */
  lemma WalkStarts<T(!new)>(it: Iterator, s: set<nat>, all: seq<nat>, drop: set<nat>, nodes: map<nat, T>)
    requires it.Valid() && it.stCounter == 0 && it.Content() == s && Enumerates(all, s) && s <= nodes.Keys
    requires s != {} ==> Leads(s, 0, it.pos)
    ensures Walking(it, s, all, drop, 0) && GoesOn(all, drop, 0) && Listed([], all[..0], nodes)
    ensures it.stCounter < it.size <==> 0 + |Gone(all, drop, 0)| < |all|
    ensures |all| > 0 ==> all[0] in nodes && all[0] in s && it.pos == all[0]
  {
    hide Ids, Leads, Enumerates, Listed, Gone;
    NothingListed(nodes);
    StartOfList(all, s, drop, it.pos);
    ListSize(all, s, drop, 0);
  }

  /** first(), and next() while hasnext(), with the statements of drop removed when they are visited.
      The walk visits the front of the list and ends when it has counted as many statements as
      are left. It reaches the end exactly if nothing before the last statement is removed. */
  method WalkRemoving<T(!new)>(it: Iterator, nodes: map<nat, T>, drop: set<nat>)
    returns (out: seq<T>, ghost all: seq<nat>)
    requires it.Valid() && it.Content() <= nodes.Keys
    modifies it`stCounter, it`pos, it`size, it`idsSize, it.ids
    ensures it.Valid() && Enumerates(all, old(it.Content()))
    ensures EndsAfter(all, drop, |out|) && Listed(out, all[..|out|], nodes)
    ensures it.Content() == old(it.Content()) - Gone(all, drop, |out|)
    ensures |out| == |all| <==>
      forall x, y :: x in old(it.Content()) && x in drop && y in old(it.Content()) ==> y <= x
  {
    hide Ids, Lower, Leads, FirstAfter, Enumerates, Listed, Gone, GoesOn, Walking;
    ghost var s := it.Content();
    Bounded(it.ids[..it.idsSize]);
    LowerAll(s, 8 * BYTES);
    all := InOrder(s, 8 * BYTES);
    out := [];
    var st := it.First(nodes);
    WalkStarts(it, s, all, drop, nodes);
    var more := it.HasNext();
    while more
      invariant |out| <= |all| && Walking(it, s, all, drop, |out|) && GoesOn(all, drop, |out|)
      invariant more <==> |out| + |Gone(all, drop, |out|)| < |all|
      invariant Listed(out, all[..|out|], nodes)
      invariant |out| < |all| ==> all[|out|] in s && st == Some(nodes[all[|out|]])
      decreases |all| - |out|
    {
      ListedMore(out, all, nodes);
      GoesOnNext(all, drop, |out|);
      out := out + [st.value];
      st, more := WalkOn(it, nodes, drop, s, all, |out| - 1);
    }
    WalkingIs(it, s, all, drop, |out|);
    EndsWhere(all, s, drop, |out|);
  }

  /** With two statements, removing the first ends the walk before the second. */
  lemma TwoStatements(a: nat, b: nat, m: nat)
    requires a < b && EndsAfter([a, b], {a}, m)
    ensures m == 1
  {
    hide Gone;
    GoneNext([a, b], {a, b}, {a}, 0);
    assert Gone([a, b], {a}, 0) == {} by { StartOfList([a, b], {a, b}, {a}, a); }
  }

  // --- what the algebra loses ---

  /** The negation of an empty vector has room for nothing: subtracting no statement at all leaves none. */
  method SubtractNothing(me: Iterator) returns (r: Iterator?)
    requires me.Valid()
    ensures r != null && r.Valid() && r.Content() == {}
  {
    hide Ids;
    var you := new Iterator(me.store);
    r := Iterator.Subtract(me, you);
    LowerNothing(me.Content() - you.Content());
  }
}
