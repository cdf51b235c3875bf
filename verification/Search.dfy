/** rdfstore_search as a whole: the parts of a pattern, one after the other, cut down the result. */
module Searching {
  import opened ByteString
  import opened BitVectors
  import opened Iterators
  import opened Options
  import opened Statements
  import opened TripleStore
  import opened Queries
  import opened Ranges

  /** One part of a pattern; an empty list asks for nothing. */
  datatype Entries<T> = Entries(list: seq<T>, op: Operator)

  datatype Pattern = Pattern(
    subjects: Entries<Node>, predicates: Entries<Node>, objects: Entries<Node>,
    langs: Entries<Bytes>, dts: Entries<Bytes>,
    ranges: seq<Bytes>, rangesOp: nat,
    contexts: Entries<Node>)

  function SubjectKeys(w: World, ns: seq<Node>): (ks: seq<Key>)
    ensures |ks| == |ns|
  {
    seq(|ns|, i requires 0 <= i < |ns| => Subject(w.nodeHash(ns[i])))
  }

  function PredicateKeys(w: World, ns: seq<Node>): (ks: seq<Key>)
    ensures |ks| == |ns|
  {
    seq(|ns|, i requires 0 <= i < |ns| => Predicate(w.nodeHash(ns[i])))
  }

  function ObjectKeys(w: World, ns: seq<Node>): (ks: seq<Key>)
    ensures |ks| == |ns|
  {
    seq(|ns|, i requires 0 <= i < |ns| => Object(w.nodeHash(ns[i])))
  }

  function ContextKeys(w: World, ns: seq<Node>): (ks: seq<Key>)
    ensures |ks| == |ns|
  {
    seq(|ns|, i requires 0 <= i < |ns| => Context(w.nodeHash(ns[i])))
  }

  function LanguageKeys(w: World, tags: seq<Bytes>): (ks: seq<Key>)
    ensures |ks| == |tags|
  {
    seq(|tags|, i requires 0 <= i < |tags| => Language(w.fold(tags[i])))
  }

  function DatatypeKeys(uris: seq<Bytes>): (ks: seq<Key>)
    ensures |ks| == |uris|
  {
    seq(|uris|, i requires 0 <= i < |uris| => Datatype(uris[i]))
  }

  // --- what a search answers ---

  /** What is found so far, cut down by one more part. */
  ghost function Meets(c: Codec, tables: map<Key, Bytes>, acc: Option<set<nat>>, keys: seq<Key>, op: Operator):
    Option<set<nat>>
  {
    if keys == [] then acc else Meet(acc, Fold(c, tables, op, keys))
  }

  /** The parts before the range, in the order of the code. */
  ghost function BeforeRange(c: Codec, w: World, tables: map<Key, Bytes>, p: Pattern): Option<set<nat>> {
    var a1 := Meets(c, tables, None, SubjectKeys(w, p.subjects.list), p.subjects.op);
    var a2 := Meets(c, tables, a1, PredicateKeys(w, p.predicates.list), p.predicates.op);
    var a3 := Meets(c, tables, a2, ObjectKeys(w, p.objects.list), p.objects.op);
    var a4 := Meets(c, tables, a3, LanguageKeys(w, p.langs.list), p.langs.op);
    Meets(c, tables, a4, DatatypeKeys(p.dts.list), p.dts.op)
  }

  /** A range is two values of a kind, or one for the one-sided operators. */
  function Bounds(w: World, texts: seq<Bytes>, op: nat): (r: Option<(Key, Key)>)
    requires texts != []
    ensures r.Some? ==> SameTable(r.value.0, r.value.0) && SameTable(r.value.1, r.value.0)
  {
    var a := ValueOf(w, texts[0]);
    if a.None? then None
    else if op <= 6 then Some((a.value, a.value))
    else if |texts| < 2 then None
    else
      var b := SecondOf(w, a.value, texts[1]);
      if b.None? then None else Some((a.value, b.value))
  }

  /** The bounds can be read exactly if the first text is an integer, a double or a date, in that order,
      and for an operator with two sides there is a second text of the same kind. */
  lemma BoundsMean(w: World, texts: seq<Bytes>, op: nat)
    requires texts != []
    ensures Bounds(w, texts, op).Some? <==>
      if w.integer(texts[0]).Some? then op > 6 ==> |texts| > 1 && w.integer(texts[1]).Some?
      else if w.double(texts[0]).Some? then op > 6 ==> |texts| > 1 && w.double(texts[1]).Some?
      else w.date(texts[0]).Some? && (op > 6 ==> |texts| > 1 && w.date(texts[1]).Some?)
    ensures Bounds(w, texts, op).Some? ==>
      Bounds(w, texts, op).value.0 ==
        if w.integer(texts[0]).Some? then Integer(w.integer(texts[0]).value)
        else if w.double(texts[0]).Some? then Double(w.double(texts[0]).value)
        else Date(w.date(texts[0]).value)
  {
  }

  /** What the range part adds. */
  ghost function MeetsRange(w: World, nodes: map<nat, Statement>, acc: Option<set<nat>>, texts: seq<Bytes>, op: nat):
    Option<set<nat>>
  {
    if texts == [] then acc
    else
      var r := Bounds(w, texts, op);
      if r.None? then acc else Meet(acc, WithValue(w, nodes, op, r.value.0, r.value.1))
  }

  /** The range part gives up on values it cannot read, and where x == a finds no a. */
  predicate RangeFails(w: World, tables: map<Key, Bytes>, texts: seq<Bytes>, op: nat) {
    texts != [] &&
      var r := Bounds(w, texts, op);
      r.None? || (op == 3 && r.value.0 !in tables)
  }

  ghost function Found(c: Codec, w: World, tables: map<Key, Bytes>, nodes: map<nat, Statement>, p: Pattern):
    Option<set<nat>>
  {
    var a5 := BeforeRange(c, w, tables, p);
    var a6 := MeetsRange(w, nodes, a5, p.ranges, p.rangesOp);
    Meets(c, tables, a6, ContextKeys(w, p.contexts.list), p.contexts.op)
  }

  /** The ids a search answers with; an empty pattern asks for everything. */
  ghost function Answer(c: Codec, w: World, tables: map<Key, Bytes>, nodes: map<nat, Statement>, p: Pattern): set<nat> {
    match Found(c, w, tables, nodes, p)
    case None => nodes.Keys
    case Some(s) => s
  }

  lemma MeetsNothing(c: Codec, tables: map<Key, Bytes>, keys: seq<Key>, op: Operator, s: set<nat>)
    ensures Meets(c, tables, Some({}), keys, op) == Some({})
    ensures Meet(Some({}), s) == Some({})
  {
    assert {} * s == {};
    assert {} * Fold(c, tables, op, keys) == {};
  }

  /** One list of entries cuts down the result. */
  method Narrow(st: Store, keys: seq<Key>, op: Operator, outsize1: nat,
                bits: array<bv8>, bits1: array<bv8>, bits2: array<bv8>, ghost acc: Option<set<nat>>)
    returns (stop: bool, size: nat)
    requires st.Valid() && Buffers(st, bits, bits1, bits2) && outsize1 <= BYTES && Holds(bits[..], outsize1, acc)
    modifies st.bitsDecode, bits, bits1, bits2
    ensures size <= BYTES
    ensures var found := Meets(st.codec, st.tables, acc, keys, op);
      if stop then found == Some({}) else Holds(bits[..], size, found)
  {
    hide Ids, Exact, Numbered, Workable, WellStored, Fold, Holds;
    stop, size := false, outsize1;
    if keys != [] {
      var outsize3 := Combine(st, keys, op, bits1, bits2);
      stop, size := Join(bits, bits1, bits2, size, outsize3, acc);
    }
  }

  /** The scan of a one-sided range, or of half a two-sided one. */
  method ScanRange(st: Store, op: nat, a: Key, bits1: array<bv8>, bits2: array<bv8>) returns (size: nat)
    requires st.Valid() && bits1.Length == BYTES + 1 && bits2.Length == BYTES + 1 && SameTable(a, a) && op <= 6
    requires bits1 != bits2 && st.bitsDecode != bits1 && st.bitsDecode != bits2
    modifies st.bitsDecode, bits1, bits2
    ensures size <= BYTES && (size == 0 <==> Ids(bits2[..size]) == {})
    ensures Ids(bits2[..size]) == WithValue(st.world, st.nodes, op, a, a)
  {
    hide Ids, Exact, Numbered, Workable, WellStored, WithValue, UnionOf, Under, Over, Table, Selected;
    SelectedIs(st.tables, a);
    SelectedIsExact(st.codec, st.world, st.tables, st.nodes, op, a);
    if op == 1 || op == 2 {
      size := ScanUnder(st, a, op == 2, bits1, bits2);
    } else if op == 4 {
      size := ScanExcept(st, a, bits1, bits2);
    } else if op == 5 || op == 6 {
      size := ScanOver(st, a, op == 5, bits1, bits2);
    } else {
      size := 0;
      NoIds(bits2[..0]);
      UnionMoreNothing(st.codec, st.tables);
      if op == 3 && a in st.tables {
        size := Collect(st, a, size, bits1, bits2, {});
        assert {} + {a} == {a};
      } else {
        NothingSelected(st.tables, op, a);
      }
    }
  }

  lemma NothingSelected(tables: map<Key, Bytes>, op: nat, a: Key)
    requires op == 0 || (op == 3 && a !in tables)
    ensures Selected(tables, op, a) == {}
  {
  }

  /** The range part: one scan, or one for each half, joined one after the other. */
  method NarrowRange(st: Store, texts: seq<Bytes>, op: nat, outsize1: nat,
                     bits: array<bv8>, bits1: array<bv8>, bits2: array<bv8>, ghost acc: Option<set<nat>>)
    returns (failed: bool, stop: bool, size: nat)
    requires st.Valid() && Buffers(st, bits, bits1, bits2) && outsize1 <= BYTES && Holds(bits[..], outsize1, acc)
    requires texts != [] && op <= 10
    modifies st.bitsDecode, bits, bits1, bits2
    ensures size <= BYTES && failed == RangeFails(st.world, st.tables, texts, op)
    ensures !failed ==> var found := MeetsRange(st.world, st.nodes, acc, texts, op);
      if stop then found == Some({}) else Holds(bits[..], size, found)
  {
    hide Ids, Exact, Numbered, Workable, WellStored, WithValue, Holds, ValueOf, SecondOf, SameTable;
    failed, stop, size := true, false, outsize1;
    var a := ValueOf(st.world, texts[0]);
    if a.None? {
      return;
    }
    var b := a;
    if op > 6 {
      if |texts| < 2 {
        return;
      }
      b := SecondOf(st.world, a.value, texts[1]);
      if b.None? {
        return;
      }
    }
    BoundsAre(st.world, texts, op, a.value, b.value);
    if op == 3 && a.value !in st.tables {
      return;
    }
    failed := false;
    if op <= 6 {
      var outsize3 := ScanRange(st, op, a.value, bits1, bits2);
      stop, size := Join(bits, bits1, bits2, size, outsize3, acc);
    } else {
      ghost var lower := WithValue(st.world, st.nodes, LowerHalf(op), a.value, a.value);
      ghost var upper := WithValue(st.world, st.nodes, UpperHalf(op), b.value, b.value);
      TwoHalves(st.world, st.nodes, op, a.value, b.value);
      MeetTwice(acc, lower, upper);
      MeetsNothing(st.codec, st.tables, [], Any, upper);
      var outsize3 := ScanRange(st, LowerHalf(op), a.value, bits1, bits2);
      stop, size := Join(bits, bits1, bits2, size, outsize3, acc);
      if stop {
        return;
      }
      outsize3 := ScanRange(st, UpperHalf(op), b.value, bits1, bits2);
      stop, size := Join(bits, bits1, bits2, size, outsize3, Meet(acc, lower));
    }
  }

  lemma BoundsAre(w: World, texts: seq<Bytes>, op: nat, a: Key, b: Key)
    requires texts != [] && ValueOf(w, texts[0]) == Some(a)
    requires if op <= 6 then b == a else |texts| >= 2 && SameTable(a, a) && SecondOf(w, a, texts[1]) == Some(b)
    ensures Bounds(w, texts, op) == Some((a, b)) && SameTable(a, a) && SameTable(b, b) && SameTable(b, a)
  {
  }

  lemma MeetTwice(acc: Option<set<nat>>, s: set<nat>, t: set<nat>)
    ensures Meet(Meet(acc, s), t) == Meet(acc, s * t)
  {
    match acc
    case None =>
    case Some(r) => assert (r * s) * t == r * (s * t);
  }

  /** No part of the pattern asks for anything. */
  predicate EmptyPattern(p: Pattern) {
    && p.subjects.list == [] && p.predicates.list == [] && p.objects.list == []
    && p.langs.list == [] && p.dts.list == [] && p.ranges == [] && p.contexts.list == []
  }

  /** Nothing found stays nothing, whatever parts come later. */
  lemma NothingLater(c: Codec, w: World, tables: map<Key, Bytes>, nodes: map<nat, Statement>, p: Pattern)
    ensures BeforeRange(c, w, tables, p) == Some({}) ==>
      MeetsRange(w, nodes, Some({}), p.ranges, p.rangesOp) == Some({}) && Found(c, w, tables, nodes, p) == Some({})
    ensures MeetsRange(w, nodes, BeforeRange(c, w, tables, p), p.ranges, p.rangesOp) == Some({}) ==>
      Found(c, w, tables, nodes, p) == Some({})
  {
    hide BeforeRange, Meets, Meet, Bounds, WithValue, ContextKeys;
    MeetsNothing(c, tables, ContextKeys(w, p.contexts.list), p.contexts.op, {});
    if p.ranges != [] {
      var r := Bounds(w, p.ranges, p.rangesOp);
      if r.Some? {
        MeetsNothing(c, tables, [], Any, WithValue(w, nodes, p.rangesOp, r.value.0, r.value.1));
      }
    }
  }

  /** The parts of a pattern before its range. */
  method NarrowTerms(st: Store, p: Pattern, bits: array<bv8>, bits1: array<bv8>, bits2: array<bv8>)
    returns (stop: bool, size: nat)
    requires st.Valid() && Buffers(st, bits, bits1, bits2) && Holds(bits[..], 0, None)
    modifies st.bitsDecode, bits, bits1, bits2
    ensures size <= BYTES
    ensures var found := BeforeRange(st.codec, st.world, st.tables, p);
      if stop then found == Some({}) else Holds(bits[..], size, found)
  {
    hide Ids, Exact, Numbered, Workable, WellStored, Fold, Holds, Meets;
    hide SubjectKeys, PredicateKeys, ObjectKeys, LanguageKeys, DatatypeKeys;
    var w := st.world;
    ghost var acc: Option<set<nat>> := None;
    var keys := SubjectKeys(w, p.subjects.list);
    stop, size := Narrow(st, keys, p.subjects.op, 0, bits, bits1, bits2, acc);
    acc := Meets(st.codec, st.tables, acc, keys, p.subjects.op);
    keys := PredicateKeys(w, p.predicates.list);
    MeetsNothing(st.codec, st.tables, keys, p.predicates.op, {});
    if !stop {
      stop, size := Narrow(st, keys, p.predicates.op, size, bits, bits1, bits2, acc);
    }
    acc := Meets(st.codec, st.tables, acc, keys, p.predicates.op);
    keys := ObjectKeys(w, p.objects.list);
    MeetsNothing(st.codec, st.tables, keys, p.objects.op, {});
    if !stop {
      stop, size := Narrow(st, keys, p.objects.op, size, bits, bits1, bits2, acc);
    }
    acc := Meets(st.codec, st.tables, acc, keys, p.objects.op);
    keys := LanguageKeys(w, p.langs.list);
    MeetsNothing(st.codec, st.tables, keys, p.langs.op, {});
    if !stop {
      stop, size := Narrow(st, keys, p.langs.op, size, bits, bits1, bits2, acc);
    }
    acc := Meets(st.codec, st.tables, acc, keys, p.langs.op);
    keys := DatatypeKeys(p.dts.list);
    MeetsNothing(st.codec, st.tables, keys, p.dts.op, {});
    if !stop {
      stop, size := Narrow(st, keys, p.dts.op, size, bits, bits1, bits2, acc);
    }
  }

  /** A search without an answer: an unknown range operator, or a range part that is reached and fails. */
  ghost predicate GivesUp(c: Codec, w: World, tables: map<Key, Bytes>, p: Pattern) {
    && p.ranges != []
    && (p.rangesOp > 10
      || (BeforeRange(c, w, tables, p) != Some({}) && RangeFails(w, tables, p.ranges, p.rangesOp)))
  }

  /** A search has no answer exactly for an operator above 10, for values that cannot be read, and for
      x == a if no live statement has the value a; the latter two only if something is left by then. */
  lemma GivesUpWhen(c: Codec, w: World, tables: map<Key, Bytes>, nodes: map<nat, Statement>, p: Pattern)
    requires Exact(c, w, tables, nodes) && WellStored(c, tables) && p.ranges != []
    ensures p.rangesOp > 10 ==> GivesUp(c, w, tables, p)
    ensures p.rangesOp <= 10 && BeforeRange(c, w, tables, p) == Some({}) ==> !GivesUp(c, w, tables, p)
    ensures p.rangesOp <= 10 && BeforeRange(c, w, tables, p) != Some({}) ==>
      match Bounds(w, p.ranges, p.rangesOp)
      case None => GivesUp(c, w, tables, p)
      case Some(r) => GivesUp(c, w, tables, p) <==> p.rangesOp == 3 && WithValue(w, nodes, 3, r.0, r.0) == {}
  {
    hide BeforeRange, Keys, Exact, WellStored, Bounds;
    if p.rangesOp == 3 && Bounds(w, p.ranges, 3).Some? {
      NobodyHas(c, w, tables, nodes, Bounds(w, p.ranges, 3).value.0);
    }
  }

  /** Without a range a search always has an answer. */
  lemma NeverGivesUp(c: Codec, w: World, tables: map<Key, Bytes>, p: Pattern)
    requires p.ranges == []
    ensures !GivesUp(c, w, tables, p)
  {
  }

  lemma NobodyHas(c: Codec, w: World, tables: map<Key, Bytes>, nodes: map<nat, Statement>, a: Key)
    requires Exact(c, w, tables, nodes) && WellStored(c, tables) && SameTable(a, a)
    ensures WithValue(w, nodes, 3, a, a) == {} <==> a !in tables
  {
    hide Keys, Ids;
    StoredWellAt(c, tables, a);
    PostingIs(c, w, tables, nodes, a);
    assert forall id :: id in WithValue(w, nodes, 3, a, a) <==> id in Posting(c, tables, a);
  }

  /** Hand the vector over to the result, and count its bits. */
  method Deliver(results: Iterator, bits: array<bv8>, size: nat)
    requires results.ids.Length == BYTES + 1 && results.ids != bits && results.stCounter == 0
    requires bits.Length == BYTES + 1 && size <= BYTES
    modifies results`size, results`idsSize, results`pos, results.ids
    ensures results.Over(Ids(bits[..size]))
  {
    hide Ids;
    CopyBits(bits, results.ids, size);
    results.idsSize := size;
    results.CountIds();
    LowerNothing(results.Content());
  }

  /** search: a cursor over the answer, its size the number of ids; none for an unknown range
      operator, or when the range part is reached and gives up. */
  method Search(st: Store, p: Pattern) returns (results: Iterator?)
    requires st.Valid()
    modifies st.bitsDecode
    ensures results == null <==> GivesUp(st.codec, st.world, st.tables, p)
    ensures results != null ==> fresh(results) && fresh(results.ids) && results.store == st.handle
    ensures results != null ==> results.Over(Answer(st.codec, st.world, st.tables, st.nodes, p))
  {
    hide Ids, Exact, Numbered, Workable, WellStored, Fold, Holds, Meets, BeforeRange, Bounds, ContextKeys, MeetsRange;
    NothingLater(st.codec, st.world, st.tables, st.nodes, p);
    EmptyIsEverything(st.codec, st.world, st.tables, st.nodes, p);
    if p.ranges != [] && p.rangesOp > 10 {
      return null;
    }
    if EmptyPattern(p) {
      results := st.Elements();
      return;
    }
    results := new Iterator(st.handle);
    var bits := new bv8[BYTES + 1](_ => 0);
    var bits1 := new bv8[BYTES + 1](_ => 0);
    var bits2 := new bv8[BYTES + 1](_ => 0);
    NothingHeld(bits[..]);
    ghost var acc := BeforeRange(st.codec, st.world, st.tables, p);
    var stop, size := NarrowTerms(st, p, bits, bits1, bits2);
    if stop {
      return;
    }
    HoldsSome(bits[..], size, acc);
    if p.ranges != [] {
      var failed: bool;
      failed, stop, size := NarrowRange(st, p.ranges, p.rangesOp, size, bits, bits1, bits2, acc);
      if failed {
        return null;
      }
      if stop {
        return;
      }
    } else {
      NoRange(st.world, st.nodes, acc, p.rangesOp);
    }
    acc := MeetsRange(st.world, st.nodes, acc, p.ranges, p.rangesOp);
    stop, size := Narrow(st, ContextKeys(st.world, p.contexts.list), p.contexts.op, size, bits, bits1, bits2, acc);
    if stop {
      return;
    }
    HoldsSome(bits[..], size, Found(st.codec, st.world, st.tables, st.nodes, p));
    assert bits[..][..size] == bits[..size];
    Deliver(results, bits, size);
  }

  lemma NothingHeld(bits: Vector)
    ensures (forall i :: 0 <= i < |bits| ==> bits[i] == 0) ==> Holds(bits, 0, None)
  {
  }

  lemma HoldsSome(bits: Vector, size: nat, found: Option<set<nat>>)
    requires Holds(bits, size, found)
    ensures found != Some({}) && size <= |bits|
    ensures found.Some? ==> Ids(bits[..size]) == found.value
  {
  }

  lemma NoRange(w: World, nodes: map<nat, Statement>, acc: Option<set<nat>>, op: nat)
    ensures MeetsRange(w, nodes, acc, [], op) == acc
  {
  }

  /** Only an empty pattern leaves the result open. */
  lemma EmptyIsEverything(c: Codec, w: World, tables: map<Key, Bytes>, nodes: map<nat, Statement>, p: Pattern)
    ensures EmptyPattern(p) ==> Found(c, w, tables, nodes, p) == None
    ensures !EmptyPattern(p) && Found(c, w, tables, nodes, p) == None ==> RangeFails(w, tables, p.ranges, p.rangesOp)
  {
    hide Fold, WithValue;
  }

  // --- the answer as a filter ---

  /** What a part asks of a statement: one of its entries, or all of them. */
  ghost predicate Asks<T(!new)>(e: Entries<T>, holds: T -> bool) {
    e.list != [] ==>
      if e.op == Any then exists x :: x in e.list && holds(x) else forall x :: x in e.list ==> holds(x)
  }

  ghost predicate SubjectMatches(w: World, s: Statement, e: Entries<Node>) {
    Asks(e, n => w.nodeHash(n) == w.nodeHash(s.subj))
  }

  ghost predicate PredicateMatches(w: World, s: Statement, e: Entries<Node>) {
    Asks(e, n => w.nodeHash(n) == w.nodeHash(s.pred))
  }

  ghost predicate ObjectMatches(w: World, s: Statement, e: Entries<Node>) {
    Asks(e, n => w.nodeHash(n) == w.nodeHash(s.obj))
  }

  ghost predicate ContextMatches(w: World, s: Statement, e: Entries<Node>) {
    Asks(e, n => s.context.Some? && w.nodeHash(n) == w.nodeHash(s.context.value))
  }

  /** Languages compare without regard to case. */
  ghost predicate LanguageMatches(w: World, s: Statement, e: Entries<Bytes>) {
    Asks(e, t => s.obj.Literal? && s.obj.lang != [] && w.fold(t) == w.fold(s.obj.lang))
  }

  ghost predicate DatatypeMatches(s: Statement, e: Entries<Bytes>) {
    Asks(e, t => s.obj.Literal? && s.obj.dataType == Some(t) && t != [])
  }

  /** The first text says what kind of values are compared: integers if it can be read as one, else
      doubles, else dates. A literal that reads as an integer is not a double. */
  ghost predicate RangeMatches(w: World, s: Statement, texts: seq<Bytes>, op: nat) {
    texts != [] ==>
      if op > 6 && |texts| < 2 then false
      else
        var first, second := texts[0], if op <= 6 then texts[0] else texts[1];
        s.obj.Literal? &&
          if w.integer(first).Some? then
            w.integer(second).Some? && w.integer(s.obj.text).Some?
              && IntegerInRange(op, w.integer(s.obj.text).value, w.integer(first).value, w.integer(second).value)
          else if w.double(first).Some? then
            w.double(second).Some? && w.integer(s.obj.text) == None && w.double(s.obj.text).Some?
              && DoubleInRange(op, w.double(s.obj.text).value, w.double(first).value, w.double(second).value)
          else
            w.date(first).Some? && w.date(second).Some? && Dated(s.obj) && w.date(s.obj.text).Some?
              && DateInRange(op, w.date(s.obj.text).value, w.date(first).value, w.date(second).value)
  }

  lemma RangeMatchesIs(w: World, s: Statement, texts: seq<Bytes>, op: nat)
    requires texts != [] && Bounds(w, texts, op).Some?
    ensures var (a, b) := Bounds(w, texts, op).value;
      SameTable(b, a) && (RangeMatches(w, s, texts, op) <==> ValueInRange(w, s, op, a, b))
  {
    hide ValueInRange, IntegerInRange, DoubleInRange, DateInRange;
    var (a, b) := Bounds(w, texts, op).value;
    ValueInRangeMeans(w, s, op, a, b);
  }

  ghost predicate TermsMatch(w: World, s: Statement, p: Pattern) {
    && SubjectMatches(w, s, p.subjects) && PredicateMatches(w, s, p.predicates)
    && ObjectMatches(w, s, p.objects) && LanguageMatches(w, s, p.langs)
    && DatatypeMatches(s, p.dts)
  }

  /** A statement matches a pattern if every part that asks for something finds it there. */
  ghost predicate Matches(w: World, s: Statement, p: Pattern) {
    && TermsMatch(w, s, p) && RangeMatches(w, s, p.ranges, p.rangesOp)
    && ContextMatches(w, s, p.contexts)
  }

  /** Every list of the pattern is a list of alternatives. */
  predicate AllAlternatives(p: Pattern) {
    && p.subjects.op == Any && p.predicates.op == Any && p.objects.op == Any
    && p.langs.op == Any && p.dts.op == Any && p.contexts.op == Any
  }

  lemma EntryAt<T(!new)>(list: seq<T>, x: T) returns (i: nat)
    requires x in list
    ensures i < |list| && list[i] == x
  {
    i :| 0 <= i < |list| && list[i] == x;
  }

  /** Asking for entries is asking for their keys. */
  lemma AsksKeys<T(!new)>(w: World, s: Statement, e: Entries<T>, keys: seq<Key>, holds: T -> bool)
    requires |keys| == |e.list| && forall i :: 0 <= i < |keys| ==> (keys[i] in Keys(w, s) <==> holds(e.list[i]))
    ensures Asks(e, holds) <==> (keys != [] ==> Wants(w, s, e.op, keys))
  {
    hide Keys;
    if e.op == Any {
      if k :| k in keys && k in Keys(w, s) {
        var i := EntryAt(keys, k);
        assert e.list[i] in e.list;
      }
      if x :| x in e.list && holds(x) {
        var i := EntryAt(e.list, x);
        assert keys[i] in keys;
      }
    } else {
      forall x | HasAll(w, s, keys) && x in e.list
        ensures holds(x)
      {
        var i := EntryAt(e.list, x);
        assert keys[i] in keys;
      }
      forall k | (forall x :: x in e.list ==> holds(x)) && k in keys
        ensures k in Keys(w, s)
      {
        var i := EntryAt(keys, k);
        assert e.list[i] in e.list;
      }
    }
  }

  /** What each part of the pattern asks of a statement, in terms of its keys. */
  lemma ListsMatch(w: World, s: Statement, p: Pattern)
    ensures var ks := SubjectKeys(w, p.subjects.list);
      SubjectMatches(w, s, p.subjects) <==> (ks != [] ==> Wants(w, s, p.subjects.op, ks))
    ensures var ks := PredicateKeys(w, p.predicates.list);
      PredicateMatches(w, s, p.predicates) <==> (ks != [] ==> Wants(w, s, p.predicates.op, ks))
    ensures var ks := ObjectKeys(w, p.objects.list);
      ObjectMatches(w, s, p.objects) <==> (ks != [] ==> Wants(w, s, p.objects.op, ks))
    ensures var ks := LanguageKeys(w, p.langs.list);
      LanguageMatches(w, s, p.langs) <==> (ks != [] ==> Wants(w, s, p.langs.op, ks))
    ensures var ks := DatatypeKeys(p.dts.list);
      DatatypeMatches(s, p.dts) <==> (ks != [] ==> Wants(w, s, p.dts.op, ks))
    ensures var ks := ContextKeys(w, p.contexts.list);
      ContextMatches(w, s, p.contexts) <==> (ks != [] ==> Wants(w, s, p.contexts.op, ks))
  {
    NodeKeysIn(w, s);
    TextKeysIn(w, s);
    hide Keys, Wants, Asks;
    AsksKeys(w, s, p.subjects, SubjectKeys(w, p.subjects.list), n => w.nodeHash(n) == w.nodeHash(s.subj));
    AsksKeys(w, s, p.predicates, PredicateKeys(w, p.predicates.list), n => w.nodeHash(n) == w.nodeHash(s.pred));
    AsksKeys(w, s, p.objects, ObjectKeys(w, p.objects.list), n => w.nodeHash(n) == w.nodeHash(s.obj));
    AsksKeys(w, s, p.langs, LanguageKeys(w, p.langs.list),
             t => s.obj.Literal? && s.obj.lang != [] && w.fold(t) == w.fold(s.obj.lang));
    AsksKeys(w, s, p.dts, DatatypeKeys(p.dts.list), t => s.obj.Literal? && s.obj.dataType == Some(t) && t != []);
    AsksKeys(w, s, p.contexts, ContextKeys(w, p.contexts.list),
             n => s.context.Some? && w.nodeHash(n) == w.nodeHash(s.context.value));
  }

  lemma TextKeysIn(w: World, s: Statement)
    ensures forall t :: Language(t) in Keys(w, s) <==> s.obj.Literal? && s.obj.lang != [] && t == w.fold(s.obj.lang)
    ensures forall t :: Datatype(t) in Keys(w, s) <==> s.obj.Literal? && s.obj.dataType == Some(t) && t != []
  {
  }

  /** The statements a result so far lets through. */
  ghost function Let(nodes: map<nat, Statement>, acc: Option<set<nat>>): set<nat> {
    match acc
    case None => nodes.Keys
    case Some(s) => s
  }

  /** One list lets through the statements that pass it. */
  lemma OneList(c: Codec, w: World, tables: map<Key, Bytes>, nodes: map<nat, Statement>,
                acc: Option<set<nat>>, keys: seq<Key>, op: Operator)
    requires Exact(c, w, tables, nodes) && WellStored(c, tables) && Let(nodes, acc) <= nodes.Keys
    ensures var acc' := Meets(c, tables, acc, keys, op);
      && Let(nodes, acc') <= nodes.Keys
      && forall id :: id in nodes ==>
        (id in Let(nodes, acc') <==>
          id in Let(nodes, acc) && (keys != [] ==> Passes(w, tables, nodes, nodes[id], op, keys)))
  {
    hide Exact, Passes, Fold, WellStored;
    FoldIs(c, w, tables, nodes, op, keys);
  }

  lemma OneRange(w: World, nodes: map<nat, Statement>, acc: Option<set<nat>>, texts: seq<Bytes>, op: nat)
    requires Let(nodes, acc) <= nodes.Keys && (texts != [] ==> Bounds(w, texts, op).Some?)
    ensures var acc' := MeetsRange(w, nodes, acc, texts, op);
      && Let(nodes, acc') <= nodes.Keys
      && forall id :: id in nodes ==>
        (id in Let(nodes, acc') <==> id in Let(nodes, acc) && RangeMatches(w, nodes[id], texts, op))
  {
    hide ValueInRange, Bounds, RangeMatches;
    forall id | id in nodes && texts != []
      ensures RangeMatches(w, nodes[id], texts, op) <==>
        ValueInRange(w, nodes[id], op, Bounds(w, texts, op).value.0, Bounds(w, texts, op).value.1)
    {
      RangeMatchesIs(w, nodes[id], texts, op);
    }
    NoRangeAsked(w, nodes, op);
  }

  lemma NoRangeAsked(w: World, nodes: map<nat, Statement>, op: nat)
    ensures forall id :: id in nodes ==> RangeMatches(w, nodes[id], [], op)
  {
  }

  /** A statement passes the parts of a pattern before its range. */
  ghost predicate TermsPass(w: World, tables: map<Key, Bytes>, nodes: map<nat, Statement>, s: Statement, p: Pattern) {
    var k1, k2 := SubjectKeys(w, p.subjects.list), PredicateKeys(w, p.predicates.list);
    var k3, k4 := ObjectKeys(w, p.objects.list), LanguageKeys(w, p.langs.list);
    var k5 := DatatypeKeys(p.dts.list);
    && (k1 != [] ==> Passes(w, tables, nodes, s, p.subjects.op, k1))
    && (k2 != [] ==> Passes(w, tables, nodes, s, p.predicates.op, k2))
    && (k3 != [] ==> Passes(w, tables, nodes, s, p.objects.op, k3))
    && (k4 != [] ==> Passes(w, tables, nodes, s, p.langs.op, k4))
    && (k5 != [] ==> Passes(w, tables, nodes, s, p.dts.op, k5))
  }

  ghost predicate PatternPasses(w: World, tables: map<Key, Bytes>, nodes: map<nat, Statement>, s: Statement,
                                p: Pattern) {
    var ks := ContextKeys(w, p.contexts.list);
    && TermsPass(w, tables, nodes, s, p) && RangeMatches(w, s, p.ranges, p.rangesOp)
    && (ks != [] ==> Passes(w, tables, nodes, s, p.contexts.op, ks))
  }

  lemma TermsFilter(c: Codec, w: World, tables: map<Key, Bytes>, nodes: map<nat, Statement>, p: Pattern)
    requires Exact(c, w, tables, nodes) && WellStored(c, tables)
    ensures var found := Let(nodes, BeforeRange(c, w, tables, p));
      && found <= nodes.Keys
      && forall id :: id in nodes ==> (id in found <==> TermsPass(w, tables, nodes, nodes[id], p))
  {
    hide Exact, WellStored, Passes, Meets, Let;
    hide LanguageKeys, SubjectKeys, PredicateKeys, ObjectKeys, DatatypeKeys;
    var k1, k2 := SubjectKeys(w, p.subjects.list), PredicateKeys(w, p.predicates.list);
    var k3, k4 := ObjectKeys(w, p.objects.list), LanguageKeys(w, p.langs.list);
    var k5 := DatatypeKeys(p.dts.list);
    LetEverything(nodes);
    OneList(c, w, tables, nodes, None, k1, p.subjects.op);
    var a1 := Meets(c, tables, None, k1, p.subjects.op);
    OneList(c, w, tables, nodes, a1, k2, p.predicates.op);
    var a2 := Meets(c, tables, a1, k2, p.predicates.op);
    OneList(c, w, tables, nodes, a2, k3, p.objects.op);
    var a3 := Meets(c, tables, a2, k3, p.objects.op);
    OneList(c, w, tables, nodes, a3, k4, p.langs.op);
    var a4 := Meets(c, tables, a3, k4, p.langs.op);
    OneList(c, w, tables, nodes, a4, k5, p.dts.op);
  }

  lemma LetEverything(nodes: map<nat, Statement>)
    ensures Let(nodes, None) == nodes.Keys
  {
  }

  /** The answer, whatever lists the pattern is made of. */
  lemma AnswerIsPasses(c: Codec, w: World, tables: map<Key, Bytes>, nodes: map<nat, Statement>, p: Pattern)
    requires Exact(c, w, tables, nodes) && WellStored(c, tables)
    requires p.ranges != [] ==> Bounds(w, p.ranges, p.rangesOp).Some?
    ensures Answer(c, w, tables, nodes, p) == set id | id in nodes && PatternPasses(w, tables, nodes, nodes[id], p)
  {
    hide Exact, WellStored, Passes, Meets, Let, BeforeRange, MeetsRange, ContextKeys, Bounds, RangeMatches, TermsPass;
    TermsFilter(c, w, tables, nodes, p);
    var a5 := BeforeRange(c, w, tables, p);
    OneRange(w, nodes, a5, p.ranges, p.rangesOp);
    OneList(c, w, tables, nodes, MeetsRange(w, nodes, a5, p.ranges, p.rangesOp), ContextKeys(w, p.contexts.list),
            p.contexts.op);
    AnswerIsLet(c, w, tables, nodes, p);
  }

  lemma AnswerIsLet(c: Codec, w: World, tables: map<Key, Bytes>, nodes: map<nat, Statement>, p: Pattern)
    ensures Answer(c, w, tables, nodes, p) == Let(nodes, Found(c, w, tables, nodes, p))
  {
  }

  /** A list is one of alternatives, or of requirements that are answered right. */
  ghost predicate RightList(w: World, tables: map<Key, Bytes>, nodes: map<nat, Statement>, op: Operator,
                            keys: seq<Key>) {
    op == All && keys != [] ==> AnsweredRight(w, tables, nodes, keys)
  }

  ghost predicate RightLists(w: World, tables: map<Key, Bytes>, nodes: map<nat, Statement>, p: Pattern) {
    && RightList(w, tables, nodes, p.subjects.op, SubjectKeys(w, p.subjects.list))
    && RightList(w, tables, nodes, p.predicates.op, PredicateKeys(w, p.predicates.list))
    && RightList(w, tables, nodes, p.objects.op, ObjectKeys(w, p.objects.list))
    && RightList(w, tables, nodes, p.langs.op, LanguageKeys(w, p.langs.list))
    && RightList(w, tables, nodes, p.dts.op, DatatypeKeys(p.dts.list))
    && RightList(w, tables, nodes, p.contexts.op, ContextKeys(w, p.contexts.list))
  }

  lemma RightListPasses(c: Codec, w: World, tables: map<Key, Bytes>, nodes: map<nat, Statement>,
                        op: Operator, keys: seq<Key>, id: nat)
    requires Exact(c, w, tables, nodes) && WellStored(c, tables) && id in nodes
    ensures (keys != [] ==> Wants(w, nodes[id], op, keys)) ==>
      (keys != [] ==> Passes(w, tables, nodes, nodes[id], op, keys))
    ensures RightList(w, tables, nodes, op, keys) ==>
      (keys != [] ==> Passes(w, tables, nodes, nodes[id], op, keys)) ==>
        (keys != [] ==> Wants(w, nodes[id], op, keys))
  {
    hide Exact, WellStored, Passes, Wants, AnsweredRight;
    if keys != [] {
      PassesWhen(c, w, tables, nodes, op, keys, id);
    }
  }

  /** A live statement that matches passes, and where all lists are answered right no other does. */
  lemma MatchesPass(c: Codec, w: World, tables: map<Key, Bytes>, nodes: map<nat, Statement>, p: Pattern, id: nat)
    requires Exact(c, w, tables, nodes) && WellStored(c, tables) && id in nodes
    ensures Matches(w, nodes[id], p) ==> PatternPasses(w, tables, nodes, nodes[id], p)
    ensures RightLists(w, tables, nodes, p) ==>
      (PatternPasses(w, tables, nodes, nodes[id], p) ==> Matches(w, nodes[id], p))
  {
    hide Exact, WellStored, Passes, Wants, RightList, RangeMatches;
    ListsMatch(w, nodes[id], p);
    hide SubjectKeys, PredicateKeys, ObjectKeys, LanguageKeys, DatatypeKeys, ContextKeys;
    hide SubjectMatches, PredicateMatches, ObjectMatches, LanguageMatches, DatatypeMatches, ContextMatches;
    RightListPasses(c, w, tables, nodes, p.subjects.op, SubjectKeys(w, p.subjects.list), id);
    RightListPasses(c, w, tables, nodes, p.predicates.op, PredicateKeys(w, p.predicates.list), id);
    RightListPasses(c, w, tables, nodes, p.objects.op, ObjectKeys(w, p.objects.list), id);
    RightListPasses(c, w, tables, nodes, p.langs.op, LanguageKeys(w, p.langs.list), id);
    RightListPasses(c, w, tables, nodes, p.dts.op, DatatypeKeys(p.dts.list), id);
    RightListPasses(c, w, tables, nodes, p.contexts.op, ContextKeys(w, p.contexts.list), id);
  }

  /** The answer holds every live statement that matches the pattern; if its lists of requirements
      are answered right, as lists of alternatives always are, it holds nothing else. */
  lemma AnswerIsFilter(c: Codec, w: World, tables: map<Key, Bytes>, nodes: map<nat, Statement>, p: Pattern)
    requires Exact(c, w, tables, nodes) && WellStored(c, tables)
    requires p.ranges != [] ==> Bounds(w, p.ranges, p.rangesOp).Some?
    ensures (set id | id in nodes && Matches(w, nodes[id], p)) <= Answer(c, w, tables, nodes, p) <= nodes.Keys
    ensures AllAlternatives(p) ==> RightLists(w, tables, nodes, p)
    ensures RightLists(w, tables, nodes, p) ==>
      Answer(c, w, tables, nodes, p) == set id | id in nodes && Matches(w, nodes[id], p)
  {
    hide Exact, WellStored, Matches, PatternPasses, Answer, Bounds;
    hide SubjectKeys, PredicateKeys, ObjectKeys, LanguageKeys, DatatypeKeys, ContextKeys;
    AnswerIsPasses(c, w, tables, nodes, p);
    forall id | id in nodes
      ensures Matches(w, nodes[id], p) ==> PatternPasses(w, tables, nodes, nodes[id], p)
      ensures RightLists(w, tables, nodes, p) ==>
        (PatternPasses(w, tables, nodes, nodes[id], p) ==> Matches(w, nodes[id], p))
    {
      MatchesPass(c, w, tables, nodes, p, id);
    }
  }
}
