/** The triple store: every live statement is posted under each of its keys, as one bit of a
    compressed vector. */
module TripleStore {
  import opened ByteString
  import opened BitVectors
  import opened Iterators
  import opened Options
  import opened Statements

  /** The most statements a store ever numbers. */
  const MAXRECORDS := 0x20_0000

  /** A pair of coding functions. */
  datatype Codec = Codec(encode: Vector -> Bytes, decode: Bytes -> Vector)

  /** No vector is coded as nothing, and what comes back has room in the buffers. */
  ghost predicate Workable(c: Codec) {
    forall v: Vector :: v != [] && |v| <= BYTES ==> c.encode(v) != [] && |c.decode(c.encode(v))| <= BYTES
  }

  /** The ids of a vector come back. */
  ghost predicate Restores(c: Codec, v: Vector) {
    Ids(c.decode(c.encode(v))) == Ids(v)
  }

  /** The coder brings back a set of ids, whatever vector it is in. */
  ghost predicate Serves(c: Codec, ids: set<nat>) {
    forall v :: v != [] && |v| <= BYTES && Ids(v) == ids ==> Restores(c, v)
  }

  /** The ids posted under a key. */
  ghost function Posting(c: Codec, tables: map<Key, Bytes>, key: Key): set<nat> {
    if key in tables then Ids(c.decode(tables[key])) else {}
  }

  /** The live statements that have the key. */
  ghost function Matching(w: World, nodes: map<nat, Statement>, key: Key): set<nat> {
    set id | id in nodes && key in Keys(w, nodes[id])
  }

  function Lookup(tables: map<Key, Bytes>, key: Key): Option<Bytes> {
    if key in tables then Some(tables[key]) else None
  }

  /** The vector behind some stored bytes, if there are any. */
  function VectorIn(c: Codec, data: Option<Bytes>): Vector {
    match data
    case None => []
    case Some(b) => c.decode(b)
  }

  function VectorOf(c: Codec, tables: map<Key, Bytes>, key: Key): Vector {
    VectorIn(c, Lookup(tables, key))
  }

  /** A stored vector fits and is not empty. */
  ghost predicate StoredWell(c: Codec, tables: map<Key, Bytes>, key: Key) {
    key in tables ==> |c.decode(tables[key])| <= BYTES && Posting(c, tables, key) != {}
  }

  ghost predicate WellStored(c: Codec, tables: map<Key, Bytes>) {
    forall key :: StoredWell(c, tables, key)
  }

  lemma StoredWellAt(c: Codec, tables: map<Key, Bytes>, key: Key)
    requires WellStored(c, tables)
    ensures StoredWell(c, tables, key) && |VectorOf(c, tables, key)| <= BYTES
    ensures Posting(c, tables, key) == Ids(VectorOf(c, tables, key))
  {
    NoIds([]);
  }

  /** Every table says exactly which live statements have each key. */
  ghost predicate Exact(c: Codec, w: World, tables: map<Key, Bytes>, nodes: map<nat, Statement>) {
    forall key :: Posting(c, tables, key) == Matching(w, nodes, key)
  }

  // --- what insert does to the tables ---

  /** The vector that insert stores under a key. */
  function Widened(c: Codec, tables: map<Key, Bytes>, id: nat, key: Key): Vector {
    WithBit(VectorOf(c, tables, key), id, true)
  }

  /** These keys have their new vectors, in coded form, and no other is touched. */
  ghost predicate AddedUnder(c: Codec, before: map<Key, Bytes>, after: map<Key, Bytes>, id: nat, keys: set<Key>) {
    forall key :: Lookup(after, key) ==
      if key in keys then Some(c.encode(Widened(c, before, id, key))) else Lookup(before, key)
  }

  lemma AddedMore(c: Codec, before: map<Key, Bytes>, tables: map<Key, Bytes>, id: nat, keys: set<Key>, key: Key)
    requires AddedUnder(c, before, tables, id, keys) && key !in keys
    ensures Lookup(tables, key) == Lookup(before, key)
    ensures AddedUnder(c, before, tables[key := c.encode(Widened(c, before, id, key))], id, keys + {key})
  {
    hide Widened;
    assert Lookup(tables, key) == Lookup(before, key);
    var after := tables[key := c.encode(Widened(c, before, id, key))];
    forall k
      ensures Lookup(after, k) ==
        if k in keys + {key} then Some(c.encode(Widened(c, before, id, k))) else Lookup(before, k)
    {
      assert Lookup(after, k) == if k == key then Some(c.encode(Widened(c, before, id, key))) else Lookup(tables, k);
    }
  }

  lemma Coded(c: Codec, v: Vector)
    requires Workable(c) && v != [] && |v| <= BYTES
    ensures c.encode(v) != [] && |c.decode(c.encode(v))| <= BYTES
  {
  }

  lemma WidenedIs(c: Codec, tables: map<Key, Bytes>, id: nat, key: Key)
    requires StoredWell(c, tables, key) && id < MAXRECORDS
    ensures var v := Widened(c, tables, id, key);
      v != [] && |v| <= BYTES && Ids(v) == Posting(c, tables, key) + {id}
  {
    hide Ids;
    NoIds([]);
    WithBitIds(VectorOf(c, tables, key), id, true);
  }

  /** The posting gets the new id exactly if the coder brings back the new vector. */
  lemma AddedIs(c: Codec, before: map<Key, Bytes>, after: map<Key, Bytes>, id: nat, key: Key)
    requires Workable(c) && id < MAXRECORDS && StoredWell(c, before, key)
    requires Lookup(after, key) == Some(c.encode(Widened(c, before, id, key)))
    ensures Posting(c, after, key) == Posting(c, before, key) + {id} <==> Restores(c, Widened(c, before, id, key))
    ensures Restores(c, Widened(c, before, id, key)) ==> StoredWell(c, after, key)
  {
    hide Ids, Widened;
    WidenedIs(c, before, id, key);
  }

  /** The coder brings back every vector that posting a statement stores. */
  ghost predicate Postable(c: Codec, w: World, tables: map<Key, Bytes>, id: nat, s: Statement) {
    forall key :: key in Keys(w, s) ==> Restores(c, Widened(c, tables, id, key))
  }

  /** Posting a new statement under all its keys keeps every table exact exactly if the coder brings
      back the new vectors, which are known before. */
  lemma Posted(c: Codec, w: World, before: map<Key, Bytes>, after: map<Key, Bytes>, nodes: map<nat, Statement>,
               id: nat, s: Statement)
    requires Workable(c) && WellStored(c, before) && Exact(c, w, before, nodes) && id !in nodes && id < MAXRECORDS
    requires AddedUnder(c, before, after, id, Keys(w, s))
    ensures Exact(c, w, after, nodes[id := s]) <==> Postable(c, w, before, id, s)
    ensures Postable(c, w, before, id, s) ==> WellStored(c, after)
  {
    hide Posting, Keys, Workable, StoredWell, Restores, Widened, Lookup;
    forall key
      ensures Posting(c, after, key) == Matching(w, nodes[id := s], key) <==>
        (key in Keys(w, s) ==> Restores(c, Widened(c, before, id, key)))
      ensures Postable(c, w, before, id, s) ==> StoredWell(c, after, key)
    {
      assert Posting(c, before, key) == Matching(w, nodes, key);
      StoredWellAt(c, before, key);
      if key in Keys(w, s) {
        AddedIs(c, before, after, id, key);
      } else {
        SameIs(c, before, after, key);
      }
    }
  }

  lemma SameIs(c: Codec, before: map<Key, Bytes>, after: map<Key, Bytes>, key: Key)
    requires Lookup(after, key) == Lookup(before, key)
    ensures Posting(c, after, key) == Posting(c, before, key)
    ensures StoredWell(c, after, key) <==> StoredWell(c, before, key)
  {
  }

  // --- what remove does to the tables ---

  /** Where caches stand before the tables: the numbers and the digests whose records are in a cache
      alone, and for every key with a record in the cache, what the backend has under it. */
  datatype Caches = Caches(nodes: set<nat>, statements: set<nat>, behind: map<Key, Option<Bytes>>)

  /** A store that was opened without caches. */
  const UNCACHED := Caches({}, {}, map[])

  /** The tables that remove reads and writes past the cache. */
  predicate Bypassed(key: Key) {
    key.Context? || key.Language? || key.Datatype? || key.Integer? || key.Double? || key.Date?
  }

  /** What the backend has under a key; a key without a cached record is seen as the backend has it. */
  function Backend(tables: map<Key, Bytes>, behind: map<Key, Option<Bytes>>, key: Key): Option<Bytes> {
    if key in behind then behind[key] else Lookup(tables, key)
  }

  /** Past the cache of such a key, what is stored is not seen. */
  predicate Shadowed(behind: map<Key, Option<Bytes>>, key: Key) {
    Bypassed(key) && key in behind
  }

  /** The vector that remove starts from, and what is left of it. */
  function Read(c: Codec, tables: map<Key, Bytes>, behind: map<Key, Option<Bytes>>, key: Key): Vector {
    VectorIn(c, if Bypassed(key) then Backend(tables, behind, key) else Lookup(tables, key))
  }

  function Cleared(c: Codec, tables: map<Key, Bytes>, behind: map<Key, Option<Bytes>>, id: nat, key: Key): Vector {
    Shortened(WithBit(Read(c, tables, behind, key), id, false))
  }

  /** What is seen under a key once an id was taken off it. */
  function Left(c: Codec, tables: map<Key, Bytes>, behind: map<Key, Option<Bytes>>, id: nat, key: Key): Option<Bytes> {
    var v := Cleared(c, tables, behind, id, key);
    if v == [] then None
    else if Shadowed(behind, key) then Lookup(tables, key)
    else Some(c.encode(v))
  }

  /** Nothing is left, so the key is deleted, and the backend does not have it. */
  ghost predicate Fails(c: Codec, tables: map<Key, Bytes>, behind: map<Key, Option<Bytes>>, id: nat, key: Key) {
    Cleared(c, tables, behind, id, key) == [] && Backend(tables, behind, key) == None
  }

  ghost predicate NoneFails(c: Codec, tables: map<Key, Bytes>, behind: map<Key, Option<Bytes>>, id: nat,
                            keys: set<Key>) {
    forall key :: key in keys ==> !Fails(c, tables, behind, id, key)
  }

  /** The id was taken off these keys, and no other is touched. */
  ghost predicate TakenOffUnder(c: Codec, before: map<Key, Bytes>, after: map<Key, Bytes>,
                                behind: map<Key, Option<Bytes>>, id: nat, keys: set<Key>) {
    forall key :: Lookup(after, key) == if key in keys then Left(c, before, behind, id, key) else Lookup(before, key)
  }

  /** The id was taken off some of these keys. */
  ghost predicate PartlyTakenOff(c: Codec, before: map<Key, Bytes>, after: map<Key, Bytes>,
                                 behind: map<Key, Option<Bytes>>, id: nat, keys: set<Key>) {
    exists done :: done <= keys && TakenOffUnder(c, before, after, behind, id, done)
  }

  /** The vectors read from the backend fit. */
  ghost predicate BackendFits(c: Codec, behind: map<Key, Option<Bytes>>) {
    forall key :: key in behind ==> |VectorIn(c, behind[key])| <= BYTES
  }

  lemma Untouched(c: Codec, tables: map<Key, Bytes>, behind: map<Key, Option<Bytes>>, id: nat)
    ensures AddedUnder(c, tables, tables, id, {}) && TakenOffUnder(c, tables, tables, behind, id, {})
  {
  }

  lemma TakenOffMore(c: Codec, before: map<Key, Bytes>, tables: map<Key, Bytes>, after: map<Key, Bytes>,
                     behind: map<Key, Option<Bytes>>, id: nat, keys: set<Key>, key: Key)
    requires TakenOffUnder(c, before, tables, behind, id, keys) && key !in keys
    requires Lookup(after, key) == Left(c, before, behind, id, key)
    requires forall k :: k != key ==> Lookup(after, k) == Lookup(tables, k)
    ensures TakenOffUnder(c, before, after, behind, id, keys + {key})
  {
    hide Left, Lookup;
  }

  lemma NotYetOff(c: Codec, before: map<Key, Bytes>, tables: map<Key, Bytes>, behind: map<Key, Option<Bytes>>,
                  id: nat, keys: set<Key>, key: Key)
    requires TakenOffUnder(c, before, tables, behind, id, keys) && key !in keys
    ensures Lookup(tables, key) == Lookup(before, key)
    ensures Read(c, tables, behind, key) == Read(c, before, behind, key)
    ensures Backend(tables, behind, key) == Backend(before, behind, key)
  {
    hide Left, Lookup;
  }

  /** What is seen under the key is then right: the rest of the vector comes back, or, where it was
      stored past a cached record, that record had no more to lose. */
  ghost predicate Right(c: Codec, tables: map<Key, Bytes>, behind: map<Key, Option<Bytes>>, id: nat, key: Key) {
    var v := Cleared(c, tables, behind, id, key);
    if !Shadowed(behind, key) then v == [] || Restores(c, v)
    else if v == [] then Posting(c, tables, key) <= {id}
    else id !in Posting(c, tables, key)
  }

  lemma ReadIs(c: Codec, tables: map<Key, Bytes>, behind: map<Key, Option<Bytes>>, key: Key)
    requires WellStored(c, tables) && BackendFits(c, behind)
    ensures |Read(c, tables, behind, key)| <= BYTES
    ensures !Shadowed(behind, key) ==> Ids(Read(c, tables, behind, key)) == Posting(c, tables, key)
  {
    StoredWellAt(c, tables, key);
  }

  lemma ClearedIs(c: Codec, tables: map<Key, Bytes>, behind: map<Key, Option<Bytes>>, id: nat, key: Key)
    requires WellStored(c, tables) && BackendFits(c, behind) && id < MAXRECORDS
    ensures var v := Cleared(c, tables, behind, id, key);
      && |v| <= BYTES && Ids(v) == Ids(Read(c, tables, behind, key)) - {id} && (v == [] <==> Ids(v) == {})
  {
    hide Ids, Read, Short;
    ReadIs(c, tables, behind, key);
    var u := WithBit(Read(c, tables, behind, key), id, false);
    WithBitIds(Read(c, tables, behind, key), id, false);
    ShortenedIs(u);
    ShortIsEmpty(Shortened(u));
  }

  lemma TakenOffIs(c: Codec, before: map<Key, Bytes>, after: map<Key, Bytes>, behind: map<Key, Option<Bytes>>,
                   id: nat, key: Key)
    requires Workable(c) && WellStored(c, before) && BackendFits(c, behind) && id < MAXRECORDS
    requires Lookup(after, key) == Left(c, before, behind, id, key)
    ensures Posting(c, after, key) == Posting(c, before, key) - {id} <==> Right(c, before, behind, id, key)
    ensures Right(c, before, behind, id, key) ==> StoredWell(c, after, key)
  {
    hide Ids, Read, Cleared, WellStored, BackendFits;
    StoredWellAt(c, before, key);
    ReadIs(c, before, behind, key);
    ClearedIs(c, before, behind, id, key);
  }

  /** Taking the number of a statement off some keys keeps the tables exact exactly if each of them is
      right, and they are all the keys of the statement that had the number. */
  lemma Unposted(c: Codec, w: World, before: map<Key, Bytes>, after: map<Key, Bytes>, nodes: map<nat, Statement>,
                 behind: map<Key, Option<Bytes>>, id: nat, keys: set<Key>)
    requires Workable(c) && WellStored(c, before) && BackendFits(c, behind) && id < MAXRECORDS
    requires Exact(c, w, before, nodes) && id in nodes && TakenOffUnder(c, before, after, behind, id, keys)
    ensures Exact(c, w, after, nodes - {id}) <==>
      Keys(w, nodes[id]) <= keys && forall key :: key in keys ==> Right(c, before, behind, id, key)
    ensures (forall key :: key in keys ==> Right(c, before, behind, id, key)) ==> WellStored(c, after)
  {
    hide Posting, Keys, StoredWell, Left, Lookup, Right, Workable, BackendFits;
    forall key
      ensures Posting(c, after, key) == Matching(w, nodes - {id}, key) <==>
        if key in keys then Right(c, before, behind, id, key) else key !in Keys(w, nodes[id])
      ensures (key in keys ==> Right(c, before, behind, id, key)) ==> StoredWell(c, after, key)
    {
      assert Posting(c, before, key) == Matching(w, nodes, key);
      StoredWellAt(c, before, key);
      assert Matching(w, nodes - {id}, key) == Matching(w, nodes, key) - {id};
      assert id in Matching(w, nodes, key) <==> key in Keys(w, nodes[id]);
      if key in keys {
        TakenOffIs(c, before, after, behind, id, key);
      } else {
        SameIs(c, before, after, key);
      }
    }
  }

  lemma NoneFailsMore(c: Codec, tables: map<Key, Bytes>, behind: map<Key, Option<Bytes>>, id: nat,
                      keys: set<Key>, more: set<Key>)
    ensures NoneFails(c, tables, behind, id, keys + more) <==>
      NoneFails(c, tables, behind, id, keys) && NoneFails(c, tables, behind, id, more)
    ensures NoneFails(c, tables, behind, id, {})
  {
    hide Fails;
  }

  lemma FailsAt(c: Codec, tables: map<Key, Bytes>, behind: map<Key, Option<Bytes>>, id: nat, keys: set<Key>, key: Key)
    requires key in keys && Fails(c, tables, behind, id, key)
    ensures !NoneFails(c, tables, behind, id, keys)
  {
  }

  // --- the same of a live statement, in terms of what is live ---

  /** The backend lacks a key that would be deleted: one that remove reads there, or one that no
      other statement has. */
  ghost predicate Refused(w: World, nodes: map<nat, Statement>, behind: map<Key, Option<Bytes>>, id: nat, key: Key) {
    key in behind && behind[key] == None && (Bypassed(key) || Matching(w, nodes, key) == {id})
  }

  /** The backend's vector is changed, and the cached record goes on saying what it said. */
  ghost predicate LeftStale(c: Codec, w: World, nodes: map<nat, Statement>, behind: map<Key, Option<Bytes>>,
                            id: nat, key: Key) {
    Shadowed(behind, key) && !(Ids(VectorIn(c, behind[key])) <= {id} && Matching(w, nodes, key) == {id})
  }

  lemma FailsWhen(c: Codec, w: World, tables: map<Key, Bytes>, nodes: map<nat, Statement>,
                  behind: map<Key, Option<Bytes>>, id: nat, key: Key)
    requires WellStored(c, tables) && Exact(c, w, tables, nodes) && BackendFits(c, behind)
    requires id in nodes && id < MAXRECORDS && key in Keys(w, nodes[id])
    ensures Fails(c, tables, behind, id, key) <==> Refused(w, nodes, behind, id, key)
  {
    hide Keys, Ids, Cleared, WellStored, BackendFits;
    ReadIs(c, tables, behind, key);
    ClearedIs(c, tables, behind, id, key);
    assert Posting(c, tables, key) == Matching(w, nodes, key);
    assert id in Matching(w, nodes, key);
    NoIds([]);
  }

  lemma RightWhen(c: Codec, w: World, tables: map<Key, Bytes>, nodes: map<nat, Statement>,
                  behind: map<Key, Option<Bytes>>, id: nat, key: Key)
    requires WellStored(c, tables) && Exact(c, w, tables, nodes) && BackendFits(c, behind)
    requires id in nodes && id < MAXRECORDS && key in Keys(w, nodes[id])
    ensures Shadowed(behind, key) ==>
      (Right(c, tables, behind, id, key) <==> !LeftStale(c, w, nodes, behind, id, key))
    ensures !Shadowed(behind, key) && (Matching(w, nodes, key) == {id} || Serves(c, Matching(w, nodes, key) - {id})) ==>
      Right(c, tables, behind, id, key)
  {
    hide Keys, Ids, Cleared, WellStored, BackendFits, Restores;
    ReadIs(c, tables, behind, key);
    ClearedIs(c, tables, behind, id, key);
    assert Posting(c, tables, key) == Matching(w, nodes, key);
    assert id in Matching(w, nodes, key);
  }

  /** A key that two live statements share, only in the cache: taking one of them off it fails if it is
      the key of a context, a language, a datatype, an integer, a double or a date, and the other is
      gone from the table as well. */
  lemma SharedKeyExample(c: Codec, w: World, before: map<Key, Bytes>, after: map<Key, Bytes>,
                         nodes: map<nat, Statement>, key: Key, id: nat, other: nat)
    requires WellStored(c, before) && Exact(c, w, before, nodes)
    requires id in nodes && other in nodes && id < MAXRECORDS && id != other
    requires key in Keys(w, nodes[id]) && key in Keys(w, nodes[other])
    requires TakenOffUnder(c, before, after, map[key := None], id, {key})
    ensures Fails(c, before, map[key := None], id, key) <==>
      key.Context? || key.Language? || key.Datatype? || key.Integer? || key.Double? || key.Date?
    ensures Fails(c, before, map[key := None], id, key) ==>
      other in Matching(w, nodes - {id}, key) && Posting(c, after, key) == {}
  {
    hide Keys, Ids;
    var behind: map<Key, Option<Bytes>> := map[key := None];
    FailsWhen(c, w, before, nodes, behind, id, key);
    assert other in Matching(w, nodes, key);
    assert Lookup(after, key) == Left(c, before, behind, id, key);
  }

  /** The coder brings back the ids under every key. */
  ghost predicate Served(c: Codec, w: World, nodes: map<nat, Statement>) {
    forall key :: Matching(w, nodes, key) == {} || Serves(c, Matching(w, nodes, key))
  }

  /** What a served store can take: a statement that leaves it served. */
  lemma ServedPut(c: Codec, w: World, tables: map<Key, Bytes>, nodes: map<nat, Statement>, id: nat, s: Statement)
    requires WellStored(c, tables) && Exact(c, w, tables, nodes) && id !in nodes && id < MAXRECORDS
    requires Served(c, w, nodes[id := s])
    ensures Postable(c, w, tables, id, s)
  {
    hide Ids, Keys, Widened, Restores, WellStored;
    forall key | key in Keys(w, s)
      ensures Restores(c, Widened(c, tables, id, key))
    {
      StoredWellAt(c, tables, key);
      WidenedIs(c, tables, id, key);
      assert Posting(c, tables, key) == Matching(w, nodes, key);
      assert Matching(w, nodes[id := s], key) == Matching(w, nodes, key) + {id};
    }
  }

  lemma ServedDrop(c: Codec, w: World, tables: map<Key, Bytes>, nodes: map<nat, Statement>,
                   behind: map<Key, Option<Bytes>>, id: nat)
    requires WellStored(c, tables) && Exact(c, w, tables, nodes) && BackendFits(c, behind)
    requires id in nodes && id < MAXRECORDS && Served(c, w, nodes - {id})
    ensures forall key :: key in Keys(w, nodes[id]) && !Shadowed(behind, key) ==> Right(c, tables, behind, id, key)
  {
    hide Keys, Right, WellStored, Exact, BackendFits, Serves;
    forall key | key in Keys(w, nodes[id]) && !Shadowed(behind, key)
      ensures Right(c, tables, behind, id, key)
    {
      assert Matching(w, nodes - {id}, key) == Matching(w, nodes, key) - {id};
      assert id in Matching(w, nodes, key);
      RightWhen(c, w, tables, nodes, behind, id, key);
      assert Matching(w, nodes, key) - {id} == {} ==> Matching(w, nodes, key) == {id};
    }
  }

  /** Statement digests and ids of live statements correspond one to one. */
  ghost predicate Numbered(w: World, counter: nat, nodes: map<nat, Statement>, statements: map<nat, nat>) {
    && (forall id :: id in nodes ==> id < counter)
    && (forall id :: id in nodes ==> w.statementHash(nodes[id]) in statements)
    && (forall id :: id in nodes ==> statements[w.statementHash(nodes[id])] == id)
    && (forall h :: h in statements ==> statements[h] in nodes && w.statementHash(nodes[statements[h]]) == h)
  }

  lemma NumberSkipped(w: World, counter: nat, nodes: map<nat, Statement>, statements: map<nat, nat>)
    requires Numbered(w, counter, nodes, statements)
    ensures Numbered(w, counter + 1, nodes, statements) && counter !in nodes
  {
  }

  lemma NumberedMore(w: World, counter: nat, nodes: map<nat, Statement>, statements: map<nat, nat>, s: Statement)
    requires Numbered(w, counter, nodes, statements) && w.statementHash(s) !in statements
    ensures Numbered(w, counter + 1, nodes[counter := s], statements[w.statementHash(s) := counter])
  {
  }

  lemma NumberedLess(w: World, counter: nat, nodes: map<nat, Statement>, statements: map<nat, nat>, h: nat)
    requires Numbered(w, counter, nodes, statements) && h in statements
    ensures statements[h] in nodes && statements[h] < counter
    ensures Numbered(w, counter, nodes - {statements[h]}, statements - {h})
  {
  }

  lemma OneLess(nodes: map<nat, Statement>, id: nat)
    requires id in nodes
    ensures |nodes - {id}| == |nodes| - 1
  {
    assert nodes == (nodes - {id})[id := nodes[id]];
  }

  class Store {
    const handle: int
    const world: World
    const codec: Codec
    const bitsDecode: array<bv8>
    var counter: nat
    var removed: nat
    /** Numbers given to statements that were then refused. */
    ghost var lost: nat
    var nodes: map<nat, Statement>
    var statements: map<nat, nat>
    var tables: map<Key, Bytes>

    ghost predicate Ready()
      reads this
    {
      Workable(codec) && bitsDecode.Length == BYTES + 1
    }

    ghost predicate Valid()
      reads this
    {
      && Ready() && Numbered(world, counter, nodes, statements)
      && counter <= MAXRECORDS && counter == |nodes| + removed + lost
      && WellStored(codec, tables) && Exact(codec, world, tables, nodes)
    }

    /** A new, empty store. */
    constructor (handle: int, world: World, codec: Codec)
      requires Workable(codec)
      ensures Valid() && nodes == map[] && counter == 0 && removed == 0 && lost == 0
      ensures fresh(bitsDecode) && this.world == world && this.codec == codec
    {
      this.handle, this.world, this.codec := handle, world, codec;
      bitsDecode := new bv8[BYTES + 1];
      counter, removed, lost := 0, 0, 0;
      nodes, statements, tables := map[], map[], map[];
    }

    /** Fetch the vector of a key into bitsDecode; its length is zero if there is none. */
    method Fetch(key: Key) returns (outsize: nat)
      requires Ready() && |VectorOf(codec, tables, key)| <= BYTES
      modifies bitsDecode
      ensures outsize == |VectorOf(codec, tables, key)|
      ensures bitsDecode[..outsize] == VectorOf(codec, tables, key)
    {
      outsize := 0;
      if key in tables {
        outsize := Decode(tables[key], bitsDecode);
      }
    }

    /** fetch_compressed: the same past the cache. */
    method FetchPast(key: Key, behind: map<Key, Option<Bytes>>) returns (outsize: nat)
      requires Ready() && |VectorIn(codec, Backend(tables, behind, key))| <= BYTES
      modifies bitsDecode
      ensures outsize == |VectorIn(codec, Backend(tables, behind, key))|
      ensures bitsDecode[..outsize] == VectorIn(codec, Backend(tables, behind, key))
    {
      outsize := 0;
      var data := Backend(tables, behind, key);
      if data.Some? {
        outsize := Decode(data.value, bitsDecode);
      }
    }

    /** func_decode: write the vector behind the stored bytes into a buffer. */
    method Decode(data: Bytes, buffer: array<bv8>) returns (outsize: nat)
      requires |codec.decode(data)| <= buffer.Length
      modifies buffer
      ensures outsize == |codec.decode(data)| && buffer[..outsize] == codec.decode(data)
    {
      var v := codec.decode(data);
      outsize := |v|;
      for i := 0 to outsize
        invariant buffer[..i] == v[..i]
      {
        buffer[i] := v[i];
        assert buffer[..i + 1] == buffer[..i] + [v[i]];
      }
    }

    /** Post a statement under one key, as every block of rdfstore_insert does for its table. */
    method Post(key: Key, id: nat, ghost before: map<Key, Bytes>, ghost done: set<Key>)
      requires Ready() && id < MAXRECORDS && WellStored(codec, before)
      requires AddedUnder(codec, before, tables, id, done) && key !in done
      modifies this`tables, bitsDecode
      ensures AddedUnder(codec, before, tables, id, done + {key})
    {
      hide Ids, WellStored, Posting, StoredWell, AddedUnder, Workable, WithBit;
      StoredWellAt(codec, before, key);
      AddedMore(codec, before, tables, id, done, key);
      WidenedIs(codec, before, id, key);
      Coded(codec, Widened(codec, before, id, key));
      var outsize := Fetch(key);
      var change: bool;
      outsize, change := SetMask(outsize, bitsDecode, id, true, BYTES);
      var data := codec.encode(bitsDecode[..outsize]);
      if |data| > 0 {
        tables := tables[key := data];
      }
    }

    /** Take a statement off one key; the key goes with its last id. It fails if deleting the key
        answers not found. */
    method Unpost(key: Key, id: nat, behind: map<Key, Option<Bytes>>, ghost before: map<Key, Bytes>,
                  ghost done: set<Key>)
      returns (ok: bool)
      requires Ready() && id < MAXRECORDS && WellStored(codec, before) && BackendFits(codec, behind)
      requires TakenOffUnder(codec, before, tables, behind, id, done) && key !in done
      modifies this`tables, bitsDecode
      ensures TakenOffUnder(codec, before, tables, behind, id, done + {key})
      ensures ok <==> !Fails(codec, before, behind, id, key)
    {
      hide Ids, WellStored, Short, StoredWell, Posting, TakenOffUnder, BackendFits, Workable, Shortened, WithBit;
      StoredWellAt(codec, before, key);
      ReadIs(codec, before, behind, key);
      NotYetOff(codec, before, tables, behind, id, done, key);
      ClearedIs(codec, before, behind, id, key);
      ghost var was := tables;
      ok := true;
      var outsize: nat;
      if Bypassed(key) {
        outsize := FetchPast(key, behind);
      } else {
        outsize := Fetch(key);
      }
      var change: bool;
      outsize, change := SetMask(outsize, bitsDecode, id, false, BYTES);
      outsize := Shorten(outsize, bitsDecode);
      if outsize > 0 {
        Coded(codec, bitsDecode[..outsize]);
        var data := codec.encode(bitsDecode[..outsize]);
        if |data| > 0 && !Shadowed(behind, key) {
          tables := tables[key := data];
        }
      } else {
        ok := Backend(tables, behind, key).Some?;
        tables := tables - {key};
      }
      TakenOffMore(codec, before, was, tables, behind, id, done, key);
    }

    /** The keys that come from a literal object. */
    method PostLiteral(o: Node, id: nat, ghost before: map<Key, Bytes>)
      requires Ready() && id < MAXRECORDS && WellStored(codec, before) && AddedUnder(codec, before, tables, id, {})
      modifies this`tables, bitsDecode
      ensures AddedUnder(codec, before, tables, id, LiteralKeys(world, o))
    {
      hide AddedUnder, WellStored, Workable;
      if o.Literal? {
        ghost var done: set<Key> := {};
        if o.lang != [] {
          Post(Language(world.fold(o.lang)), id, before, done);
          done := done + {Language(world.fold(o.lang))};
        }
        if o.dataType.Some? && o.dataType.value != [] {
          Post(Datatype(o.dataType.value), id, before, done);
          done := done + {Datatype(o.dataType.value)};
          if o.dataType.value == XSD_DATE || o.dataType.value == XSD_DATETIME {
            var date := world.date(o.text);
            if date.Some? {
              Post(Date(date.value), id, before, done);
              done := done + {Date(date.value)};
            }
          }
        }
        DatesAreTyped(world, o);
        var integer := world.integer(o.text);
        if integer.Some? {
          Post(Integer(integer.value), id, before, done);
          done := done + {Integer(integer.value)};
        } else {
          var double := world.double(o.text);
          if double.Some? {
            Post(Double(double.value), id, before, done);
            done := done + {Double(double.value)};
          }
        }
        assert done == LiteralKeys(world, o);
      }
    }

    /** The keys of the nodes, after those of a literal object. */
    method PostNodes(s: Statement, id: nat, ghost before: map<Key, Bytes>, ghost done: set<Key>)
      requires Ready() && id < MAXRECORDS && WellStored(codec, before) && AddedUnder(codec, before, tables, id, done)
      requires NodeKeys(world, s) !! done
      modifies this`tables, bitsDecode
      ensures AddedUnder(codec, before, tables, id, done + NodeKeys(world, s))
    {
      hide AddedUnder, WellStored, Workable;
      ghost var d := done;
      Post(Subject(world.nodeHash(s.subj)), id, before, d);
      d := d + {Subject(world.nodeHash(s.subj))};
      Post(Predicate(world.nodeHash(s.pred)), id, before, d);
      d := d + {Predicate(world.nodeHash(s.pred))};
      Post(Object(world.nodeHash(s.obj)), id, before, d);
      d := d + {Object(world.nodeHash(s.obj))};
      if s.context.Some? {
        Post(Context(world.nodeHash(s.context.value)), id, before, d);
        d := d + {Context(world.nodeHash(s.context.value))};
      }
      assert d == done + NodeKeys(world, s);
    }

    /** Record a new statement and post it under all its keys. */
    method PostAll(s: Statement, id: nat)
      requires Ready() && id < MAXRECORDS && WellStored(codec, tables)
      modifies this`nodes, this`tables, bitsDecode
      ensures nodes == old(nodes)[id := s]
      ensures AddedUnder(codec, old(tables), tables, id, Keys(world, s))
    {
      hide AddedUnder, WellStored, Workable;
      Untouched(codec, tables, map[], id);
      nodes := nodes[id := s];
      NodesAreNotLiterals(world, s);
      PostLiteral(s.obj, id, old(tables));
      PostNodes(s, id, old(tables), LiteralKeys(world, s.obj));
      assert LiteralKeys(world, s.obj) + NodeKeys(world, s) == Keys(world, s);
    }

    /** insert: 0 for a new statement, 1 for one the store has, -1 if it is full or refuses the
        literal. A refused literal has used up its number. The store stays valid exactly if the
        coder brings back the new vectors. */
    method Insert(s: Statement) returns (code: int)
      requires Valid()
      modifies this`counter, this`lost, this`nodes, this`statements, this`tables, bitsDecode
      ensures code == if world.statementHash(s) in old(statements) then 1
        else if old(counter) == 2097152 || !WellTyped(s.obj) then -1 else 0
      ensures nodes == if code == 0 then old(nodes)[old(counter) := s] else old(nodes)
      ensures statements ==
        if code == 0 then old(statements)[world.statementHash(s) := old(counter)] else old(statements)
      ensures counter == if code == 1 || old(counter) == MAXRECORDS then old(counter) else old(counter) + 1
      ensures lost == old(lost) + (counter - old(counter)) - (|nodes| - |old(nodes)|)
      ensures if code != 0 then tables == old(tables)
        else AddedUnder(codec, old(tables), tables, old(counter), Keys(world, s))
      ensures Valid() <==> (code == 0 ==> Postable(codec, world, old(tables), old(counter), s))
    {
      hide AddedUnder, Exact, WellStored, Workable, Numbered, Keys, Postable;
      NumberSkipped(world, counter, nodes, statements);
      var hc := world.statementHash(s);
      if hc in statements {
        return 1;
      }
      counter := counter + 1;
      var id := counter;
      if id > MAXRECORDS {
        counter := counter - 1;
        return -1;
      }
      id := id - 1;
      if s.obj.Literal? {
        var xml := s.obj.dataType.Some? && s.obj.dataType.value == XML_LITERAL;
        if s.obj.parseLiteral && s.obj.dataType.Some? && !xml {
          lost := lost + 1;
          return -1;
        } else if xml && !s.obj.parseLiteral {
          lost := lost + 1;
          return -1;
        }
      }
      NumberedMore(world, id, nodes, statements, s);
      PostAll(s, id);
      Posted(codec, world, old(tables), tables, old(nodes), id, s);
      statements := statements[hc := id];
      code := 0;
    }

    /** Take a statement off the keys of its nodes; the caller gives up where a deletion fails. */
    method UnpostNodes(s: Statement, id: nat, behind: map<Key, Option<Bytes>>, ghost before: map<Key, Bytes>)
      returns (ok: bool, ghost done: set<Key>)
      requires Ready() && id < MAXRECORDS && WellStored(codec, before) && BackendFits(codec, behind)
      requires TakenOffUnder(codec, before, tables, behind, id, {})
      modifies this`tables, bitsDecode
      ensures TakenOffUnder(codec, before, tables, behind, id, done)
      ensures if ok then done == NodeKeys(world, s) else done <= NodeKeys(world, s)
      ensures ok <==> NoneFails(codec, before, behind, id, NodeKeys(world, s))
    {
      hide TakenOffUnder, WellStored, BackendFits, Workable, Fails, NoneFails;
      done := {};
      NoneFailsMore(codec, before, behind, id, {}, {});
      ghost var all := NodeKeys(world, s);
      ok, done := UnpostOne(Subject(world.nodeHash(s.subj)), id, behind, before, done, all);
      if !ok { return; }
      ok, done := UnpostOne(Predicate(world.nodeHash(s.pred)), id, behind, before, done, all);
      if !ok { return; }
      ok, done := UnpostOne(Object(world.nodeHash(s.obj)), id, behind, before, done, all);
      if !ok { return; }
      if s.context.Some? {
        ok, done := UnpostOne(Context(world.nodeHash(s.context.value)), id, behind, before, done, all);
        if !ok { return; }
      }
      assert done == all;
    }

    /** One more of the keys of a statement. */
    method UnpostOne(key: Key, id: nat, behind: map<Key, Option<Bytes>>, ghost before: map<Key, Bytes>,
                     ghost done: set<Key>, ghost all: set<Key>)
      returns (ok: bool, ghost done': set<Key>)
      requires Ready() && id < MAXRECORDS && WellStored(codec, before) && BackendFits(codec, behind)
      requires TakenOffUnder(codec, before, tables, behind, id, done) && key !in done && key in all
      requires NoneFails(codec, before, behind, id, done)
      modifies this`tables, bitsDecode
      ensures done' == done + {key} && TakenOffUnder(codec, before, tables, behind, id, done')
      ensures ok ==> NoneFails(codec, before, behind, id, done')
      ensures !ok ==> !NoneFails(codec, before, behind, id, all)
    {
      hide TakenOffUnder, WellStored, BackendFits, Workable, Fails;
      ok := Unpost(key, id, behind, before, done);
      done' := done + {key};
      if !ok {
        FailsAt(codec, before, behind, id, all, key);
      }
    }

    /** Take a statement off the keys of its literal object. */
    method UnpostLiteral(o: Node, id: nat, behind: map<Key, Option<Bytes>>, ghost before: map<Key, Bytes>,
                         ghost from: set<Key>)
      returns (ok: bool, ghost done: set<Key>)
      requires Ready() && id < MAXRECORDS && WellStored(codec, before) && BackendFits(codec, behind)
      requires TakenOffUnder(codec, before, tables, behind, id, from) && LiteralKeys(world, o) !! from
      requires NoneFails(codec, before, behind, id, from)
      modifies this`tables, bitsDecode
      ensures TakenOffUnder(codec, before, tables, behind, id, done)
      ensures if ok then done == from + LiteralKeys(world, o) else done <= from + LiteralKeys(world, o)
      ensures ok <==> NoneFails(codec, before, behind, id, from + LiteralKeys(world, o))
    {
      hide TakenOffUnder, WellStored, BackendFits, Workable, Fails, NoneFails;
      ghost var all := from + LiteralKeys(world, o);
      done := from;
      ok := true;
      if o.Literal? {
        if o.lang != [] {
          ok, done := UnpostOne(Language(world.fold(o.lang)), id, behind, before, done, all);
          if !ok { return; }
        }
        if o.dataType.Some? && o.dataType.value != [] {
          ok, done := UnpostOne(Datatype(o.dataType.value), id, behind, before, done, all);
          if !ok { return; }
          if o.dataType.value == XSD_DATE || o.dataType.value == XSD_DATETIME {
            var date := world.date(o.text);
            if date.Some? {
              ok, done := UnpostOne(Date(date.value), id, behind, before, done, all);
              if !ok { return; }
            }
          }
        }
        DatesAreTyped(world, o);
        var integer := world.integer(o.text);
        if integer.Some? {
          ok, done := UnpostOne(Integer(integer.value), id, behind, before, done, all);
          if !ok { return; }
        } else {
          var double := world.double(o.text);
          if double.Some? {
            ok, done := UnpostOne(Double(double.value), id, behind, before, done, all);
            if !ok { return; }
          }
        }
      }
      assert done == all;
    }

    /** Take a statement off all its keys, until a deletion fails. */
    method UnpostAll(s: Statement, id: nat, behind: map<Key, Option<Bytes>>) returns (ok: bool, ghost done: set<Key>)
      requires Ready() && id < MAXRECORDS && WellStored(codec, tables) && BackendFits(codec, behind)
      modifies this`tables, bitsDecode
      ensures TakenOffUnder(codec, old(tables), tables, behind, id, done)
      ensures if ok then done == Keys(world, s) else done <= Keys(world, s)
      ensures ok <==> NoneFails(codec, old(tables), behind, id, Keys(world, s))
    {
      hide TakenOffUnder, WellStored, BackendFits, Workable, Fails, NoneFails;
      Untouched(codec, tables, behind, id);
      NodesAreNotLiterals(world, s);
      NoneFailsMore(codec, tables, behind, id, NodeKeys(world, s), LiteralKeys(world, s.obj));
      assert Keys(world, s) == NodeKeys(world, s) + LiteralKeys(world, s.obj);
      hide Keys, NodeKeys, LiteralKeys;
      ok, done := UnpostNodes(s, id, behind, old(tables));
      if !ok {
        return;
      }
      ok, done := UnpostLiteral(s.obj, id, behind, old(tables), done);
    }

    /** The deletions that remove makes of the statement's record and of its keys all answer that
        something was there. */
    ghost predicate AllDeleted(s: Statement, id: nat, caches: Caches)
      reads this
    {
      id !in caches.nodes && NoneFails(codec, tables, caches.behind, id, Keys(world, s))
    }

    /** All keys of the statement are then right, and the live statement with the number has no others. */
    ghost predicate AllRight(s: Statement, id: nat, caches: Caches)
      reads this
    {
      && id in nodes && Keys(world, nodes[id]) <= Keys(world, s)
      && forall key :: key in Keys(world, s) ==> Right(codec, tables, caches.behind, id, key)
    }

    /** What remove does once it has the number under the digest. */
    method Withdraw(s: Statement, hc: nat, id: nat, caches: Caches) returns (code: int)
      requires Valid() && BackendFits(codec, caches.behind) && hc in statements && statements[hc] == id
      modifies this`removed, this`nodes, this`statements, this`tables, bitsDecode
      ensures nodes == old(nodes) - {id}
      ensures code == 0 <==> hc !in caches.statements && old(AllDeleted(s, id, caches))
      ensures if old(AllDeleted(s, id, caches)) then
          statements == old(statements) - {hc} && removed == old(removed) + 1
            && TakenOffUnder(codec, old(tables), tables, caches.behind, id, Keys(world, s))
        else
          statements == old(statements) && removed == old(removed)
            && PartlyTakenOff(codec, old(tables), tables, caches.behind, id, Keys(world, s))
      ensures Valid() <==> old(AllDeleted(s, id, caches)) && old(AllRight(s, id, caches))
    {
      hide TakenOffUnder, Exact, WellStored, Workable, Keys, NoneFails, BackendFits, Right;
      NumberedLess(world, counter, nodes, statements, hc);
      nodes := nodes - {id};
      if id in caches.nodes {
        Untouched(codec, tables, caches.behind, id);
        return 1;
      }
      OneLess(old(nodes), id);
      var ok: bool;
      ghost var done: set<Key>;
      ok, done := UnpostAll(s, id, caches.behind);
      Unposted(codec, world, old(tables), tables, old(nodes), caches.behind, id, done);
      if !ok {
        return 1;
      }
      removed := removed + 1;
      statements := statements - {hc};
      code := if hc in caches.statements then 1 else 0;
    }

    /** remove: 0 for a statement that was there, 1 otherwise, and 1 as well where a deletion answers
        not found. That leaves a store that is not valid any more, unless it is the last deletion,
        of the statement's digest. Nor is the store valid if a key is not right afterwards. */
    method Remove(s: Statement, caches: Caches) returns (code: int)
      requires Valid() && BackendFits(codec, caches.behind)
      modifies this`removed, this`nodes, this`statements, this`tables, bitsDecode
      ensures code == 0 <==>
        (world.statementHash(s) in old(statements) && world.statementHash(s) !in caches.statements
          && old(AllDeleted(s, statements[world.statementHash(s)], caches)))
      ensures world.statementHash(s) !in old(statements) ==>
        nodes == old(nodes) && statements == old(statements) && tables == old(tables) && removed == old(removed)
      ensures world.statementHash(s) in old(statements) ==>
        nodes == old(nodes) - {old(statements)[world.statementHash(s)]}
      ensures world.statementHash(s) in old(statements) ==>
        var id := old(statements)[world.statementHash(s)];
        if old(AllDeleted(s, id, caches)) then
          statements == old(statements) - {world.statementHash(s)} && removed == old(removed) + 1
            && TakenOffUnder(codec, old(tables), tables, caches.behind, id, Keys(world, s))
        else
          statements == old(statements) && removed == old(removed)
            && PartlyTakenOff(codec, old(tables), tables, caches.behind, id, Keys(world, s))
      ensures Valid() <==> world.statementHash(s) in old(statements) ==>
        var id := old(statements)[world.statementHash(s)];
        old(AllDeleted(s, id, caches)) && old(AllRight(s, id, caches))
    {
      hide TakenOffUnder, PartlyTakenOff, Valid, AllDeleted, AllRight, Keys, BackendFits;
      var hc := world.statementHash(s);
      if hc !in statements {
        return 1;
      }
      code := Withdraw(s, hc, statements[hc], caches);
    }

    /** contains: 0 if a live statement has the digest, 1 if none has. */
    method Contains(s: Statement) returns (code: int)
      requires Valid()
      ensures code ==
        if exists id :: id in nodes && world.statementHash(nodes[id]) == world.statementHash(s) then 0 else 1
    {
      code := if world.statementHash(s) in statements then 0 else 1;
    }

    /** size: the counters' difference, which counts refused literals as well. */
    method Size() returns (size: int)
      requires Valid()
      ensures size == |nodes| + lost
    {
      size := counter - removed;
    }

    /** elements: a cursor over all live statements. */
    method Elements() returns (cursor: Iterator)
      requires Valid()
      ensures fresh(cursor) && fresh(cursor.ids) && cursor.store == handle && cursor.Over(nodes.Keys)
    {
      hide Ids, Exact, WellStored, Workable, Iterator.Over, Iterator.InStep, Lower;
      cursor := new Iterator(handle);
      var todo := statements.Keys;
      ghost var done: set<nat> := {};
      while todo != {}
        invariant todo <= statements.Keys && fresh(cursor) && fresh(cursor.ids)
        invariant cursor.Valid() && cursor.pos == 0 && cursor.stCounter == 0 && cursor.Content() == done
        invariant forall h :: h in statements.Keys - todo ==> statements[h] in done
        invariant forall id :: id in done ==> id in nodes && world.statementHash(nodes[id]) !in todo
        decreases |todo|
      {
        var h :| h in todo;
        var id := statements[h];
        assert id !in done;
        Enter(cursor, id);
        done := done + {id};
        todo := todo - {h};
      }
      assert done == nodes.Keys;
      StartOver(cursor);
    }
  }

  /** Enter one more id into a cursor. */
  method Enter(cursor: Iterator, id: nat)
    requires cursor.Valid() && id < MAXRECORDS && id !in cursor.Content()
    modifies cursor`size, cursor`idsSize, cursor.ids
    ensures cursor.Valid() && cursor.Content() == old(cursor.Content()) + {id}
  {
    hide Ids;
    var grown, change := SetMask(cursor.idsSize, cursor.ids, id, true, BYTES);
    cursor.idsSize := grown;
    cursor.size := cursor.size + 1;
  }

  lemma StartOver(cursor: Iterator)
    requires cursor.Valid() && cursor.pos == 0 && cursor.stCounter == 0
    ensures cursor.Over(cursor.Content())
  {
    LowerNothing(cursor.Content());
  }

  lemma NodesAreNotLiterals(w: World, s: Statement)
    ensures Keys(w, s) - NodeKeys(w, s) == LiteralKeys(w, s.obj) && NodeKeys(w, s) <= Keys(w, s)
  {
  }

  /** A date has a datatype, which is not the empty string. */
  lemma DatesAreTyped(w: World, o: Node)
    requires o.Literal?
    ensures DateKeys(w, o) != {} ==> o.dataType.Some? && o.dataType.value != []
  {
    assert |XSD_DATE| > 0 && |XSD_DATETIME| > 0;
  }

  lemma NoIds(v: Vector)
    ensures v == [] ==> Ids(v) == {}
  {
    IdsHas(v);
    if v == [] {
      assert forall i :: i !in Ids(v);
    }
  }
}
