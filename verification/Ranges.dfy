/** Searching by value: scans over the integer, double and date tables in value order. */
module Ranges {
  import opened ByteString
  import opened BitVectors
  import opened Iterators
  import opened Options
  import opened Statements
  import opened TripleStore
  import opened Queries

  // --- the ordered keys of a table ---

  /** The keys of the table that a value belongs to. */
  ghost function Table(tables: map<Key, Bytes>, v: Key): set<Key> {
    set k | k in tables && SameTable(k, v)
  }

  /** The keys of a table in front of a cursor; all of them when it is past the end. */
  ghost function Passed(tables: map<Key, Bytes>, v: Key, cursor: Option<Key>): set<Key> {
    set k | k in tables && SameTable(k, v) && (cursor.Some? ==> Before(k, cursor.value))
  }

  /** A cursor that stands on a key of the table, or past the end. */
  predicate OnTable(tables: map<Key, Bytes>, v: Key, cursor: Option<Key>) {
    cursor.Some? ==> cursor.value in tables && SameTable(cursor.value, v)
  }

  /** The smallest of some keys of one table. */
  method Least(ks: set<Key>, v: Key) returns (k: Option<Key>)
    requires forall j :: j in ks ==> SameTable(j, v)
    ensures k.None? <==> ks == {}
    ensures k.Some? ==> k.value in ks && forall j :: j in ks ==> !Before(j, k.value)
  {
    k := None;
    var rest := ks;
    while rest != {}
      invariant rest <= ks
      invariant k.None? <==> rest == ks
      invariant k.Some? ==> k.value in ks && forall j :: j in ks - rest ==> !Before(j, k.value)
      decreases |rest|
    {
      var j :| j in rest;
      if k.None? {
        k := Some(j);
        BeforeIsTotal(j, j);
      } else if Before(j, k.value) {
        forall i | i in ks - rest
          ensures !Before(i, j)
        {
          if Before(i, j) {
            BeforeIsTransitive(i, j, k.value);
          }
        }
        BeforeIsTotal(j, j);
        k := Some(j);
      }
      rest := rest - {j};
    }
  }

  /** The backend's first: the smallest key of a table. */
  method FirstKey(st: Store, v: Key) returns (k: Option<Key>)
    ensures OnTable(st.tables, v, k) && Passed(st.tables, v, k) == {}
  {
    var ks := set j | j in st.tables.Keys && SameTable(j, v);
    k := Least(ks, v);
    forall j | j in st.tables && SameTable(j, v)
      ensures k.Some? && !Before(j, k.value)
    {
      assert j in ks;
    }
  }

  /** The backend's next: the smallest key after the given one. */
  method NextKey(st: Store, v: Key, cur: Key) returns (k: Option<Key>)
    requires OnTable(st.tables, v, Some(cur))
    ensures OnTable(st.tables, v, k)
    ensures Passed(st.tables, v, k) == Passed(st.tables, v, Some(cur)) + {cur}
  {
    var ks := set j | j in st.tables.Keys && SameTable(j, v) && Before(cur, j);
    k := Least(ks, v);
    forall j | j in st.tables && SameTable(j, v)
      ensures (k.Some? ==> Before(j, k.value)) <==> Before(j, cur) || j == cur
    {
      BeforeIsTotal(j, cur);
      if Before(cur, j) {
        assert j in ks;
      } else if k.Some? && Before(j, cur) {
        BeforeIsTransitive(j, cur, k.value);
      }
    }
  }

  /** The backend's from: the smallest key that is not before the given value. */
  method FromKey(st: Store, v: Key) returns (k: Option<Key>)
    ensures OnTable(st.tables, v, k)
    ensures Passed(st.tables, v, k) == Passed(st.tables, v, Some(v))
  {
    var ks := set j | j in st.tables.Keys && SameTable(j, v) && !Before(j, v);
    k := Least(ks, v);
    forall j | j in st.tables && SameTable(j, v)
      ensures (k.Some? ==> Before(j, k.value)) <==> Before(j, v)
    {
      if !Before(j, v) {
        assert j in ks;
      } else if k.Some? {
        BeforeIsTotal(k.value, v);
        if Before(v, k.value) {
          BeforeIsTransitive(j, v, k.value);
        }
      }
    }
  }

  // --- what a scan collects ---

  ghost function UnionOf(c: Codec, tables: map<Key, Bytes>, ks: set<Key>): set<nat> {
    set k, id | k in ks && id in Posting(c, tables, k) :: id
  }

  lemma UnionMore(c: Codec, tables: map<Key, Bytes>, ks: set<Key>, key: Key)
    requires key in tables
    ensures Merged(c, tables, Any, UnionOf(c, tables, ks), key) == UnionOf(c, tables, ks + {key})
    ensures UnionOf(c, tables, {}) == {}
  {
    hide Posting;
    assert UnionOf(c, tables, ks + {key}) == UnionOf(c, tables, ks) + Posting(c, tables, key);
  }

  /** The keys below a bound, with the bound itself if it is included. */
  ghost function Under(tables: map<Key, Bytes>, bound: Key, included: bool): set<Key> {
    set k | k in tables && SameTable(k, bound) && (Before(k, bound) || (included && k == bound))
  }

  /** The keys above a bound, with the bound itself if it is included. */
  ghost function Over(tables: map<Key, Bytes>, bound: Key, included: bool): set<Key> {
    set k | k in tables && SameTable(k, bound) && (Before(bound, k) || (included && k == bound))
  }

  /** Where the scan up to a bound may stop. */
  lemma UnderIs(tables: map<Key, Bytes>, bound: Key, included: bool, cursor: Option<Key>)
    requires OnTable(tables, bound, cursor)
    requires forall k :: k in Passed(tables, bound, cursor) ==> Before(k, bound)
    ensures cursor.None? || Before(bound, cursor.value) || (cursor.value == bound && !included)
      ==> Passed(tables, bound, cursor) == Under(tables, bound, included)
    ensures cursor == Some(bound) && included ==>
      Passed(tables, bound, cursor) + {bound} == Under(tables, bound, included)
  {
    forall k | k in tables && SameTable(k, bound)
      ensures k == bound ==> !Before(k, bound)
      ensures cursor.Some? && Before(bound, cursor.value) && (Before(k, bound) || k == bound) ==>
        Before(k, cursor.value)
      ensures cursor.None? ==> k in Passed(tables, bound, cursor)
    {
      BeforeIsTotal(k, bound);
      if cursor.Some? && Before(bound, cursor.value) && Before(k, bound) {
        BeforeIsTransitive(k, bound, cursor.value);
      }
    }
  }

  /** The next key of the scan joins what was collected. */
  method Collect(st: Store, key: Key, size: nat, bits1: array<bv8>, bits2: array<bv8>, ghost ks: set<Key>)
    returns (size': nat)
    requires st.Valid() && bits1.Length == BYTES + 1 && bits2.Length == BYTES + 1 && key in st.tables
    requires bits1 != bits2 && st.bitsDecode != bits1 && st.bitsDecode != bits2
    requires size <= BYTES && (size == 0 <==> Ids(bits2[..size]) == {})
    requires Ids(bits2[..size]) == UnionOf(st.codec, st.tables, ks)
    modifies st.bitsDecode, bits1, bits2
    ensures size' <= BYTES && (size' == 0 <==> Ids(bits2[..size']) == {})
    ensures Ids(bits2[..size']) == UnionOf(st.codec, st.tables, ks + {key})
  {
    hide Ids, Exact, Numbered, Workable, WellStored, Merged, UnionOf;
    UnionMore(st.codec, st.tables, ks, key);
    size' := Merge(st, key, Any, size, bits1, bits2);
  }

  /** Everything from the first key up to a bound: operators 1 and 2, and the upper half of 7 to 10. */
  method ScanUnder(st: Store, bound: Key, included: bool, bits1: array<bv8>, bits2: array<bv8>) returns (size: nat)
    requires st.Valid() && bits1.Length == BYTES + 1 && bits2.Length == BYTES + 1
    requires bits1 != bits2 && st.bitsDecode != bits1 && st.bitsDecode != bits2
    modifies st.bitsDecode, bits1, bits2
    ensures size <= BYTES && (size == 0 <==> Ids(bits2[..size]) == {})
    ensures Ids(bits2[..size]) == UnionOf(st.codec, st.tables, Under(st.tables, bound, included))
  {
    hide Ids, Exact, Numbered, Workable, WellStored, UnionOf, Under;
    size := 0;
    NoIds(bits2[..0]);
    var key := FirstKey(st, bound);
    UnionMoreNothing(st.codec, st.tables);
    while key.Some?
      invariant OnTable(st.tables, bound, key)
      invariant size <= BYTES && (size == 0 <==> Ids(bits2[..size]) == {})
      invariant Ids(bits2[..size]) == UnionOf(st.codec, st.tables, Passed(st.tables, bound, key))
      invariant forall k :: k in Passed(st.tables, bound, key) ==> Before(k, bound)
      decreases |Table(st.tables, bound) - Passed(st.tables, bound, key)|
    {
      var last := false;
      UnderIs(st.tables, bound, included, key);
      if key.value == bound {
        if included {
          last := true;
        } else {
          return;
        }
      } else if Before(bound, key.value) {
        return;
      }
      BeforeIsTotal(key.value, bound);
      size := Collect(st, key.value, size, bits1, bits2, Passed(st.tables, bound, key));
      if last {
        return;
      }
      ghost var was := key;
      key := NextKey(st, bound, key.value);
      Onwards(st.tables, bound, was.value, key);
    }
    UnderIs(st.tables, bound, included, key);
  }

  lemma UnionMoreNothing(c: Codec, tables: map<Key, Bytes>)
    ensures UnionOf(c, tables, {}) == {}
  {
  }

  /** A scan gets on. */
  lemma Onwards(tables: map<Key, Bytes>, v: Key, cur: Key, next: Option<Key>)
    requires OnTable(tables, v, Some(cur))
    requires Passed(tables, v, next) == Passed(tables, v, Some(cur)) + {cur}
    ensures |Table(tables, v) - Passed(tables, v, next)| < |Table(tables, v) - Passed(tables, v, Some(cur))|
  {
    BeforeIsTotal(cur, cur);
    var rest := Table(tables, v) - Passed(tables, v, Some(cur));
    assert cur in rest;
    assert Table(tables, v) - Passed(tables, v, next) == rest - {cur};
  }

  lemma OverStart(tables: map<Key, Bytes>, bound: Key, included: bool)
    ensures Passed(tables, bound, Some(bound)) * Over(tables, bound, included) == {}
    ensures Over(tables, bound, included) <= Passed(tables, bound, None)
  {
    forall k | k in tables && SameTable(k, bound)
      ensures !(Before(k, bound) && Before(bound, k)) && !(k == bound && Before(k, bound))
    {
      BeforeIsTotal(k, bound);
    }
  }

  /** A key that is not in front of the bound is above it, or the bound itself. */
  lemma OverNext(tables: map<Key, Bytes>, bound: Key, included: bool, cur: Key, next: Option<Key>)
    requires OnTable(tables, bound, Some(cur))
    requires Passed(tables, bound, Some(bound)) <= Passed(tables, bound, Some(cur))
    requires Passed(tables, bound, next) == Passed(tables, bound, Some(cur)) + {cur}
    ensures var over := Over(tables, bound, included);
      Passed(tables, bound, next) * over ==
        Passed(tables, bound, Some(cur)) * over + if cur == bound && !included then {} else {cur}
  {
    BeforeIsTotal(cur, bound);
    BeforeIsTotal(cur, cur);
    assert Before(cur, bound) ==> cur in Passed(tables, bound, Some(bound));
  }

  /** Everything from a bound on: operators 5 and 6, and the lower half of 7 to 10. */
  method ScanOver(st: Store, bound: Key, included: bool, bits1: array<bv8>, bits2: array<bv8>) returns (size: nat)
    requires st.Valid() && bits1.Length == BYTES + 1 && bits2.Length == BYTES + 1
    requires bits1 != bits2 && st.bitsDecode != bits1 && st.bitsDecode != bits2
    modifies st.bitsDecode, bits1, bits2
    ensures size <= BYTES && (size == 0 <==> Ids(bits2[..size]) == {})
    ensures Ids(bits2[..size]) == UnionOf(st.codec, st.tables, Over(st.tables, bound, included))
  {
    hide Ids, Exact, Numbered, Workable, WellStored, UnionOf, Over, Passed, Table, SameTable, Before;
    ghost var over := Over(st.tables, bound, included);
    size := 0;
    NoIds(bits2[..0]);
    UnionMoreNothing(st.codec, st.tables);
    OverStart(st.tables, bound, included);
    var key := FromKey(st, bound);
    while key.Some?
      invariant OnTable(st.tables, bound, key)
      invariant size <= BYTES && (size == 0 <==> Ids(bits2[..size]) == {})
      invariant Passed(st.tables, bound, Some(bound)) <= Passed(st.tables, bound, key)
      invariant Ids(bits2[..size]) == UnionOf(st.codec, st.tables, Passed(st.tables, bound, key) * over)
      decreases |Table(st.tables, bound) - Passed(st.tables, bound, key)|
    {
      var cur := key.value;
      ghost var ks := Passed(st.tables, bound, key) * over;
      if cur != bound || included {
        size := Collect(st, cur, size, bits1, bits2, ks);
      }
      key := NextKey(st, bound, cur);
      Onwards(st.tables, bound, cur, key);
      OverNext(st.tables, bound, included, cur, key);
      assert ks + {} == ks;
    }
    assert Passed(st.tables, bound, None) * over == over;
  }

  /** Everything but one value: operator 4. */
  method ScanExcept(st: Store, v: Key, bits1: array<bv8>, bits2: array<bv8>) returns (size: nat)
    requires st.Valid() && bits1.Length == BYTES + 1 && bits2.Length == BYTES + 1
    requires bits1 != bits2 && st.bitsDecode != bits1 && st.bitsDecode != bits2
    modifies st.bitsDecode, bits1, bits2
    ensures size <= BYTES && (size == 0 <==> Ids(bits2[..size]) == {})
    ensures Ids(bits2[..size]) == UnionOf(st.codec, st.tables, Table(st.tables, v) - {v})
  {
    hide Ids, Exact, Numbered, Workable, WellStored, UnionOf, Passed, Table, SameTable, Before;
    size := 0;
    NoIds(bits2[..0]);
    UnionMoreNothing(st.codec, st.tables);
    var key := FirstKey(st, v);
    assert Passed(st.tables, v, key) - {v} == {};
    while key.Some?
      invariant OnTable(st.tables, v, key)
      invariant size <= BYTES && (size == 0 <==> Ids(bits2[..size]) == {})
      invariant Ids(bits2[..size]) == UnionOf(st.codec, st.tables, Passed(st.tables, v, key) - {v})
      decreases |Table(st.tables, v) - Passed(st.tables, v, key)|
    {
      var cur := key.value;
      ghost var ks := Passed(st.tables, v, key) - {v};
      if cur != v {
        size := Collect(st, cur, size, bits1, bits2, ks);
      }
      key := NextKey(st, v, cur);
      Onwards(st.tables, v, cur, key);
      assert Passed(st.tables, v, key) - {v} == ks + if cur != v then {cur} else {};
      assert ks + {} == ks;
    }
    AllPassed(st.tables, v);
  }

  lemma AllPassed(tables: map<Key, Bytes>, v: Key)
    ensures Passed(tables, v, None) == Table(tables, v)
  {
  }

  // --- range queries ---

  /** The value a range is given by: an integer if it can be read as one, else a double, else a date. */
  function ValueOf(w: World, text: Bytes): (r: Option<Key>)
    ensures r.Some? ==> SameTable(r.value, r.value)
  {
    if w.integer(text).Some? then Some(Integer(w.integer(text).value))
    else if w.double(text).Some? then Some(Double(w.double(text).value))
    else if w.date(text).Some? then Some(Date(w.date(text).value))
    else None
  }

  /** The second value of a range has to be of the first one's kind. */
  function SecondOf(w: World, first: Key, text: Bytes): (r: Option<Key>)
    requires SameTable(first, first)
    ensures r.Some? ==> SameTable(r.value, first)
  {
    match first
    case Integer(_) => if w.integer(text).Some? then Some(Integer(w.integer(text).value)) else None
    case Double(_) => if w.double(text).Some? then Some(Double(w.double(text).value)) else None
    case Date(_) => if w.date(text).Some? then Some(Date(w.date(text).value)) else None
  }

  /** The ten operators on a value x. */
  predicate InRange(op: nat, x: Key, a: Key, b: Key) {
    match op
    case 1 => Before(x, a)
    case 2 => Before(x, a) || x == a
    case 3 => x == a
    case 4 => x != a
    case 5 => Before(a, x) || x == a
    case 6 => Before(a, x)
    case 7 => Before(a, x) && Before(x, b)
    case 8 => (Before(a, x) || x == a) && Before(x, b)
    case 9 => (Before(a, x) || x == a) && (Before(x, b) || x == b)
    case 10 => Before(a, x) && (Before(x, b) || x == b)
    case _ => false
  }

  ghost predicate ValueInRange(w: World, s: Statement, op: nat, a: Key, b: Key) {
    exists x :: x in Keys(w, s) && SameTable(x, a) && InRange(op, x, a, b)
  }

  // --- what the operators mean, on the values of a literal ---

  predicate IntegerInRange(op: nat, x: int, a: int, b: int) {
    match op
    case 1 => x < a
    case 2 => x <= a
    case 3 => x == a
    case 4 => x != a
    case 5 => x >= a
    case 6 => x > a
    case 7 => a < x < b
    case 8 => a <= x < b
    case 9 => a <= x <= b
    case 10 => a < x <= b
    case _ => false
  }

  predicate DoubleInRange(op: nat, x: real, a: real, b: real) {
    match op
    case 1 => x < a
    case 2 => x <= a
    case 3 => x == a
    case 4 => x != a
    case 5 => x >= a
    case 6 => x > a
    case 7 => a < x < b
    case 8 => a <= x < b
    case 9 => a <= x <= b
    case 10 => a < x <= b
    case _ => false
  }

  /** Dates are compared as they are written down. */
  predicate DateInRange(op: nat, x: Bytes, a: Bytes, b: Bytes) {
    match op
    case 1 => Precedes(x, a)
    case 2 => Precedes(x, a) || x == a
    case 3 => x == a
    case 4 => x != a
    case 5 => Precedes(a, x) || x == a
    case 6 => Precedes(a, x)
    case 7 => Precedes(a, x) && Precedes(x, b)
    case 8 => (Precedes(a, x) || x == a) && Precedes(x, b)
    case 9 => (Precedes(a, x) || x == a) && (Precedes(x, b) || x == b)
    case 10 => Precedes(a, x) && (Precedes(x, b) || x == b)
    case _ => false
  }

  lemma InRangeMeans(op: nat, x: Key, a: Key, b: Key)
    requires SameTable(x, a) && SameTable(b, a)
    ensures x.Integer? ==> (InRange(op, x, a, b) <==> IntegerInRange(op, x.i, a.i, b.i))
    ensures x.Double? ==> (InRange(op, x, a, b) <==> DoubleInRange(op, x.r, a.r, b.r))
    ensures x.Date? ==> (InRange(op, x, a, b) <==> DateInRange(op, x.d, a.d, b.d))
  {
    if x.Date? {
      LessIsPrecedes(x.d, a.d);
      LessIsPrecedes(a.d, x.d);
      LessIsPrecedes(x.d, b.d);
      hide Less, Precedes;
    }
  }

  /** A statement is in a range of integers if its object is a literal that reads as an integer in the
      range; in one of doubles if it reads as such a double and not as an integer; in one of dates
      if it is dated and reads as such a date. */
  lemma ValueInRangeMeans(w: World, s: Statement, op: nat, a: Key, b: Key)
    requires SameTable(b, a)
    ensures ValueInRange(w, s, op, a, b) <==> match a
      case Integer(i) =>
        s.obj.Literal? && w.integer(s.obj.text).Some? && IntegerInRange(op, w.integer(s.obj.text).value, i, b.i)
      case Double(r) =>
        s.obj.Literal? && w.integer(s.obj.text) == None && w.double(s.obj.text).Some?
          && DoubleInRange(op, w.double(s.obj.text).value, r, b.r)
      case Date(d) =>
        Dated(s.obj) && w.date(s.obj.text).Some? && DateInRange(op, w.date(s.obj.text).value, d, b.d)
  {
    NumberKeysIn(w, s);
    DateKeysIn(w, s);
    hide Keys, InRange, IntegerInRange, DoubleInRange, DateInRange, Dated;
    forall x | SameTable(x, a)
      ensures x.Integer? ==> (InRange(op, x, a, b) <==> IntegerInRange(op, x.i, a.i, b.i))
      ensures x.Double? ==> (InRange(op, x, a, b) <==> DoubleInRange(op, x.r, a.r, b.r))
      ensures x.Date? ==> (InRange(op, x, a, b) <==> DateInRange(op, x.d, a.d, b.d))
    {
      InRangeMeans(op, x, a, b);
    }
    match a
    case Integer(_) =>
      if s.obj.Literal? && w.integer(s.obj.text).Some? {
        assert Integer(w.integer(s.obj.text).value) in Keys(w, s);
      }
    case Double(_) =>
      if s.obj.Literal? && w.integer(s.obj.text) == None && w.double(s.obj.text).Some? {
        assert Double(w.double(s.obj.text).value) in Keys(w, s);
      }
    case Date(_) =>
      if s.obj.Literal? && Dated(s.obj) && w.date(s.obj.text).Some? {
        assert Date(w.date(s.obj.text).value) in Keys(w, s);
      }
  }

  /** The statements whose value is in the range. */
  ghost function WithValue(w: World, nodes: map<nat, Statement>, op: nat, a: Key, b: Key): set<nat> {
    set id | id in nodes && ValueInRange(w, nodes[id], op, a, b)
  }

  /** A statement has at most one value in each table. */
  lemma OneValue(w: World, s: Statement, x: Key, y: Key)
    requires x in Keys(w, s) && y in Keys(w, s) && SameTable(x, y)
    ensures x == y
  {
  }

  /** The keys of the table that are in a one-sided range. */
  ghost function Selected(tables: map<Key, Bytes>, op: nat, a: Key): set<Key> {
    set k | k in tables && SameTable(k, a) && InRange(op, k, a, a)
  }

  lemma SelectedIs(tables: map<Key, Bytes>, a: Key)
    requires SameTable(a, a)
    ensures Selected(tables, 1, a) == Under(tables, a, false) && Selected(tables, 2, a) == Under(tables, a, true)
    ensures Selected(tables, 3, a) == if a in tables then {a} else {}
    ensures Selected(tables, 4, a) == Table(tables, a) - {a}
    ensures Selected(tables, 5, a) == Over(tables, a, true) && Selected(tables, 6, a) == Over(tables, a, false)
  {
  }

  /** The union of the selected postings are the statements whose value is in the range. */
  lemma SelectedIsExact(c: Codec, w: World, tables: map<Key, Bytes>, nodes: map<nat, Statement>, op: nat, a: Key)
    requires Exact(c, w, tables, nodes) && op <= 6
    ensures UnionOf(c, tables, Selected(tables, op, a)) == WithValue(w, nodes, op, a, a)
  {
    hide Keys, Exact, InRange, SameTable;
    var u, v := UnionOf(c, tables, Selected(tables, op, a)), WithValue(w, nodes, op, a, a);
    forall id | id in u
      ensures id in v
    {
      var k :| k in Selected(tables, op, a) && id in Posting(c, tables, k);
      PostingIs(c, w, tables, nodes, k);
    }
    forall id | id in v
      ensures id in u
    {
      var x :| x in Keys(w, nodes[id]) && SameTable(x, a) && InRange(op, x, a, a);
      PostingIs(c, w, tables, nodes, x);
      assert x in Selected(tables, op, a);
    }
  }

  /** The operator of the lower half of a two-sided range, and of its upper half. */
  function LowerHalf(op: nat): nat {
    if op == 7 || op == 10 then 6 else 5
  }

  function UpperHalf(op: nat): nat {
    if op == 9 || op == 10 then 2 else 1
  }

  /** A two-sided range is the intersection of its halves. */
  lemma TwoHalves(w: World, nodes: map<nat, Statement>, op: nat, a: Key, b: Key)
    requires 7 <= op <= 10 && SameTable(b, a)
    ensures WithValue(w, nodes, op, a, b) ==
      WithValue(w, nodes, LowerHalf(op), a, a) * WithValue(w, nodes, UpperHalf(op), b, b)
  {
    hide Keys;
    forall id | id in nodes
      ensures ValueInRange(w, nodes[id], op, a, b) <==>
        ValueInRange(w, nodes[id], LowerHalf(op), a, a) && ValueInRange(w, nodes[id], UpperHalf(op), b, b)
    {
      Halves(w, nodes[id], op, a, b);
    }
  }

  lemma Halves(w: World, s: Statement, op: nat, a: Key, b: Key)
    requires 7 <= op <= 10 && SameTable(b, a)
    ensures ValueInRange(w, s, op, a, b) <==>
      ValueInRange(w, s, LowerHalf(op), a, a) && ValueInRange(w, s, UpperHalf(op), b, b)
  {
    hide Keys;
    if ValueInRange(w, s, LowerHalf(op), a, a) && ValueInRange(w, s, UpperHalf(op), b, b) {
      var x :| x in Keys(w, s) && SameTable(x, a) && InRange(LowerHalf(op), x, a, a);
      var y :| y in Keys(w, s) && SameTable(y, b) && InRange(UpperHalf(op), y, b, b);
      OneValue(w, s, x, y);
    }
  }
}
