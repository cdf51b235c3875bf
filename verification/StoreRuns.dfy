/** A store over a run of inserts and removes is the set of statements put in and not taken out. */
module StoreRuns {
  import opened ByteString
  import opened Iterators
  import opened Options
  import opened Statements
  import opened TripleStore
  import opened Searching

  /** A removal is made while the caches of the store's tables, if there are any, stand in some way. */
  datatype Change = Put(st: Statement) | Drop(st: Statement, caches: Caches)

  /** The set of statements a run leaves, started from a given one. */
  function After(live: set<Statement>, changes: seq<Change>): set<Statement> {
    if changes == [] then live
    else
      var last := changes[|changes| - 1];
      var before := After(live, changes[..|changes| - 1]);
      match last
      case Put(s) => if WellTyped(s.obj) then before + {s} else before
      case Drop(s, _) => before - {s}
  }

  /** No two of the statements share a digest. */
  ghost predicate Apart(w: World, ss: set<Statement>) {
    forall a, b :: a in ss && b in ss && w.statementHash(a) == w.statementHash(b) ==> a == b
  }

  function Mentioned(changes: seq<Change>): set<Statement> {
    set c | c in changes :: c.st
  }

  /** Under its digest a statement is there or nothing is. */
  lemma LiveByDigest(w: World, counter: nat, nodes: map<nat, Statement>, statements: map<nat, nat>, s: Statement)
    requires Numbered(w, counter, nodes, statements) && Apart(w, nodes.Values + {s})
    ensures w.statementHash(s) in statements <==> s in nodes.Values
    ensures w.statementHash(s) in statements ==> nodes[statements[w.statementHash(s)]] == s
  {
    if w.statementHash(s) in statements {
      assert nodes[statements[w.statementHash(s)]] in nodes.Values;
    }
    if s in nodes.Values {
      var id :| id in nodes && nodes[id] == s;
    }
  }

  /** The numbers given out so far, and the live statements by number. */
  datatype Ledger = Ledger(counter: nat, nodes: map<nat, Statement>)

  /** What one change does to the numbers: a new statement gets the next one, and a refused one
      uses it up. */
  function Entered(l: Ledger, change: Change): Ledger {
    match change
    case Put(s) =>
      if s in l.nodes.Values || l.counter == MAXRECORDS then l
      else Ledger(l.counter + 1, if WellTyped(s.obj) then l.nodes[l.counter := s] else l.nodes)
    case Drop(s, _) => l.(nodes := map id | id in l.nodes && l.nodes[id] != s :: l.nodes[id])
  }

  function Entries(l: Ledger, changes: seq<Change>): Ledger {
    if changes == [] then l else Entered(Entries(l, changes[..|changes| - 1]), changes[|changes| - 1])
  }

  /** Later in a run a number means what it meant, or nothing for good. */
  ghost predicate Continues(l: Ledger, l': Ledger) {
    && l.counter <= l'.counter
    && forall id :: id < l.counter && id in l'.nodes ==> id in l.nodes && l'.nodes[id] == l.nodes[id]
  }

  /** No number is ever used twice: between any two points of a run, a number given out before the first
      has its old statement or none, and one that is gone does not come back. */
  lemma {:induction false} NumbersStay(l: Ledger, changes: seq<Change>, i: nat, j: nat)
    requires i <= j <= |changes|
    ensures Continues(Entries(l, changes[..i]), Entries(l, changes[..j]))
    decreases j
  {
    if i < j {
      NumbersStay(l, changes, i, j - 1);
      assert changes[..j][..j - 1] == changes[..j - 1];
    }
  }

  lemma PutValues(nodes: map<nat, Statement>, id: nat, s: Statement)
    requires id !in nodes
    ensures nodes[id := s].Values == nodes.Values + {s}
  {
    var nodes' := nodes[id := s];
    assert s == nodes'[id];
    forall t | t in nodes.Values
      ensures t in nodes'.Values
    {
      var i :| i in nodes && nodes[i] == t;
      assert nodes'[i] == t;
    }
  }

  lemma DropValues(l: Ledger, s: Statement, caches: Caches)
    ensures var nodes' := Entered(l, Drop(s, caches)).nodes;
      nodes'.Values == l.nodes.Values - {s} && (s !in l.nodes.Values ==> nodes' == l.nodes)
  {
    var nodes' := Entered(l, Drop(s, caches)).nodes;
    forall t | t in l.nodes.Values && t != s
      ensures t in nodes'.Values
    {
      var i :| i in l.nodes && l.nodes[i] == t;
      assert nodes'[i] == t;
    }
    forall id | id in l.nodes
      ensures l.nodes[id] in l.nodes.Values
    {
    }
  }

  /** A live statement has one number. */
  lemma DropOne(w: World, l: Ledger, statements: map<nat, nat>, s: Statement, caches: Caches, id: nat)
    requires Numbered(w, l.counter, l.nodes, statements) && id in l.nodes && l.nodes[id] == s
    ensures Entered(l, Drop(s, caches)).nodes == l.nodes - {id}
    ensures statements[w.statementHash(s)] == id
  {
  }

  /** Insert a statement into the set. The store stays valid exactly if the coder brings back the
      new vectors. */
  method ApplyPut(st: Store, s: Statement) returns (code: int)
    requires st.Valid() && Apart(st.world, st.nodes.Values + {s})
    modifies st`counter, st`lost, st`nodes, st`statements, st`tables, st.bitsDecode
    ensures st.Valid() <==> (code == 0 ==> Postable(st.codec, st.world, old(st.tables), old(st.counter), s))
    ensures Ledger(st.counter, st.nodes) == Entered(old(Ledger(st.counter, st.nodes)), Put(s))
    ensures code ==
      if s in old(st.nodes.Values) then 1 else if old(st.counter) == MAXRECORDS || !WellTyped(s.obj) then -1 else 0
    ensures st.nodes.Values == if code == 0 then old(st.nodes.Values) + {s} else old(st.nodes.Values)
  {
    hide Exact, WellStored, Workable, Numbered, Apart, AddedUnder, Postable, Keys;
    LiveByDigest(st.world, st.counter, st.nodes, st.statements, s);
    NumberSkipped(st.world, st.counter, st.nodes, st.statements);
    PutValues(st.nodes, st.counter, s);
    code := st.Insert(s);
  }

  /** Every deletion that removing a statement takes finds something in the backend. */
  ghost predicate Answered(w: World, nodes: map<nat, Statement>, id: nat, caches: Caches)
    requires id in nodes
  {
    id !in caches.nodes && forall key :: key in Keys(w, nodes[id]) ==> !Refused(w, nodes, caches.behind, id, key)
  }

  /** No cached record goes on naming the statement. */
  ghost predicate NothingStale(c: Codec, w: World, nodes: map<nat, Statement>, id: nat, caches: Caches)
    requires id in nodes
  {
    forall key :: key in Keys(w, nodes[id]) ==> !LeftStale(c, w, nodes, caches.behind, id, key)
  }

  /** The coder brings back what is left of every vector that is stored where it is read. */
  ghost predicate Takeable(c: Codec, w: World, tables: map<Key, Bytes>, nodes: map<nat, Statement>, id: nat,
                           caches: Caches)
    requires id in nodes
  {
    forall key :: key in Keys(w, nodes[id]) && !Shadowed(caches.behind, key) ==>
      Right(c, tables, caches.behind, id, key)
  }

  /** These conditions, on what is live and what the caches hold, are those of the tables. */
  lemma AnsweredWhen(c: Codec, w: World, tables: map<Key, Bytes>, nodes: map<nat, Statement>, id: nat, caches: Caches)
    requires WellStored(c, tables) && Exact(c, w, tables, nodes) && BackendFits(c, caches.behind)
    requires id in nodes && id < MAXRECORDS
    ensures Answered(w, nodes, id, caches) <==>
      id !in caches.nodes && NoneFails(c, tables, caches.behind, id, Keys(w, nodes[id]))
    ensures NothingStale(c, w, nodes, id, caches) && Takeable(c, w, tables, nodes, id, caches) <==>
      forall key :: key in Keys(w, nodes[id]) ==> Right(c, tables, caches.behind, id, key)
  {
    hide Exact, WellStored, BackendFits, Keys, Fails, Refused, Right, LeftStale, Shadowed;
    forall key | key in Keys(w, nodes[id])
      ensures Fails(c, tables, caches.behind, id, key) <==> Refused(w, nodes, caches.behind, id, key)
      ensures Shadowed(caches.behind, key) ==>
        (Right(c, tables, caches.behind, id, key) <==> !LeftStale(c, w, nodes, caches.behind, id, key))
      ensures !Shadowed(caches.behind, key) ==> !LeftStale(c, w, nodes, caches.behind, id, key)
    {
      FailsWhen(c, w, tables, nodes, caches.behind, id, key);
      RightWhen(c, w, tables, nodes, caches.behind, id, key);
      OnlyShadowed(c, w, nodes, caches.behind, id, key);
    }
  }

  lemma OnlyShadowed(c: Codec, w: World, nodes: map<nat, Statement>, behind: map<Key, Option<Bytes>>, id: nat, key: Key)
    ensures LeftStale(c, w, nodes, behind, id, key) ==> Shadowed(behind, key)
  {
  }

  /** Without caches every deletion is answered and nothing is stale. */
  lemma NoCaches(c: Codec, w: World, nodes: map<nat, Statement>, id: nat)
    requires id in nodes
    ensures BackendFits(c, UNCACHED.behind)
    ensures Answered(w, nodes, id, UNCACHED) && NothingStale(c, w, nodes, id, UNCACHED)
  {
    hide Keys;
  }

  /** The number under a statement's digest. */
  ghost function NumberOf(st: Store, s: Statement): nat
    reads st
  {
    if st.world.statementHash(s) in st.statements then st.statements[st.world.statementHash(s)] else 0
  }

  /** Remove a statement from the set. It succeeds exactly if every deletion is answered, and leaves a
      valid store exactly if, but for the deletion of the digest, it does, nothing cached is stale
      and the coder brings back the rest. */
  method ApplyDrop(st: Store, s: Statement, caches: Caches) returns (code: int)
    requires st.Valid() && Apart(st.world, st.nodes.Values + {s}) && BackendFits(st.codec, caches.behind)
    modifies st`removed, st`nodes, st`statements, st`tables, st.bitsDecode
    ensures s in old(st.nodes.Values) ==> old(NumberOf(st, s)) in old(st.nodes)
    ensures code == 0 <==>
      (s in old(st.nodes.Values) && st.world.statementHash(s) !in caches.statements
        && Answered(st.world, old(st.nodes), old(NumberOf(st, s)), caches))
    ensures st.Valid() <==>
      (s in old(st.nodes.Values) ==>
        Answered(st.world, old(st.nodes), old(NumberOf(st, s)), caches)
          && NothingStale(st.codec, st.world, old(st.nodes), old(NumberOf(st, s)), caches)
          && Takeable(st.codec, st.world, old(st.tables), old(st.nodes), old(NumberOf(st, s)), caches))
    ensures st.nodes == Entered(old(Ledger(st.counter, st.nodes)), Drop(s, caches)).nodes
    ensures st.nodes.Values == old(st.nodes.Values) - {s}
  {
    hide Exact, WellStored, Workable, Numbered, Apart, TakenOffUnder, Keys, NoneFails, Answered, NothingStale;
    hide PartlyTakenOff;
    hide Takeable, BackendFits, Right, Entered;
    LiveByDigest(st.world, st.counter, st.nodes, st.statements, s);
    DropValues(Ledger(st.counter, st.nodes), s, caches);
    if s in st.nodes.Values {
      ghost var id := st.statements[st.world.statementHash(s)];
      NumberedLess(st.world, st.counter, st.nodes, st.statements, st.world.statementHash(s));
      DropOne(st.world, Ledger(st.counter, st.nodes), st.statements, s, caches, id);
      AnsweredWhen(st.codec, st.world, st.tables, st.nodes, id, caches);
    }
    code := st.Remove(s, caches);
  }

  lemma AfterNext(live: set<Statement>, changes: seq<Change>, i: nat)
    requires i < |changes|
    ensures After(live, changes[..i + 1]) == match changes[i]
      case Put(s) => if WellTyped(s.obj) then After(live, changes[..i]) + {s} else After(live, changes[..i])
      case Drop(s, _) => After(live, changes[..i]) - {s}
  {
    assert changes[..i + 1][..i] == changes[..i];
  }

  lemma EnteredNext(l: Ledger, changes: seq<Change>, i: nat)
    requires i < |changes|
    ensures Entries(l, changes[..i + 1]) == Entered(Entries(l, changes[..i]), changes[i])
    ensures Entered(l, changes[i]).counter <= l.counter + 1
  {
    assert changes[..i + 1][..i] == changes[..i];
  }

  /** A point of a run the code gets past: what is live is served by the coder, and where a statement
      is dropped the caches answer for it and hold nothing that gets stale. */
  ghost predicate Passable(c: Codec, w: World, l: Ledger, change: Change) {
    && Served(c, w, Entered(l, change).nodes)
    && (change.Drop? ==>
      && BackendFits(c, change.caches.behind)
      && forall id :: id in l.nodes && l.nodes[id] == change.st ==>
        Answered(w, l.nodes, id, change.caches) && NothingStale(c, w, l.nodes, id, change.caches))
  }

  ghost predicate AllPassable(c: Codec, w: World, l: Ledger, changes: seq<Change>) {
    forall i :: 0 <= i < |changes| ==> Passable(c, w, Entries(l, changes[..i]), changes[i])
  }

  /** No new statement meets a store that has given out all its numbers. */
  ghost predicate NeverFull(l: Ledger, changes: seq<Change>) {
    forall i :: 0 <= i < |changes| && changes[i].Put? && Entries(l, changes[..i]).counter == MAXRECORDS ==>
      changes[i].st in Entries(l, changes[..i]).nodes.Values || !WellTyped(changes[i].st.obj)
  }

  ghost predicate BelowCounter(l: Ledger) {
    forall id :: id in l.nodes ==> id < l.counter
  }

  /** Only statements that were there or are mentioned are ever live, and numbers are below the counter. */
  lemma {:induction false} EntriesMentioned(l: Ledger, changes: seq<Change>, i: nat)
    requires i <= |changes| && BelowCounter(l)
    ensures BelowCounter(Entries(l, changes[..i]))
    ensures Entries(l, changes[..i]).nodes.Values <= l.nodes.Values + Mentioned(changes)
  {
    hide Mentioned;
    if i > 0 {
      var before := Entries(l, changes[..i - 1]);
      EntriesMentioned(l, changes, i - 1);
      EnteredNext(l, changes, i - 1);
      MentionedAt(changes, i - 1);
      PutValues(before.nodes, before.counter, changes[i - 1].st);
      DropValues(before, changes[i - 1].st, UNCACHED);
    } else {
      assert changes[..0] == [];
    }
  }

  lemma MentionedAt(changes: seq<Change>, i: nat)
    requires i < |changes|
    ensures changes[i].st in Mentioned(changes)
  {
  }

  /** As long as no new statement meets a full store, what is live is the set the run leaves. */
  lemma {:induction false} EntriesAfter(l: Ledger, changes: seq<Change>, i: nat)
    requires i <= |changes| && BelowCounter(l) && NeverFull(l, changes)
    ensures Entries(l, changes[..i]).nodes.Values == After(l.nodes.Values, changes[..i])
  {
    hide Mentioned;
    if i > 0 {
      var before := Entries(l, changes[..i - 1]);
      EntriesAfter(l, changes, i - 1);
      EntriesMentioned(l, changes, i - 1);
      EnteredNext(l, changes, i - 1);
      AfterNext(l.nodes.Values, changes, i - 1);
      PutValues(before.nodes, before.counter, changes[i - 1].st);
      DropValues(before, changes[i - 1].st, UNCACHED);
      AllTyped(l, changes, i - 1);
    } else {
      assert changes[..0] == [];
    }
  }

  lemma AllTyped(l: Ledger, changes: seq<Change>, i: nat)
    requires i < |changes| && NeverFull(l, changes)
    ensures changes[i].Put? && Entries(l, changes[..i]).counter == MAXRECORDS ==>
      changes[i].st in Entries(l, changes[..i]).nodes.Values || !WellTyped(changes[i].st.obj)
  {
  }

  /** A whole run, if no two statements in it share a digest and the code gets past every point of it:
      the store is what the run leaves, with the numbers the run gives out. */
  method Run(st: Store, changes: seq<Change>)
    requires st.Valid() && Apart(st.world, st.nodes.Values + Mentioned(changes))
    requires AllPassable(st.codec, st.world, Ledger(st.counter, st.nodes), changes)
    modifies st`counter, st`removed, st`lost, st`nodes, st`statements, st`tables, st.bitsDecode
    ensures st.Valid() && Ledger(st.counter, st.nodes) == Entries(old(Ledger(st.counter, st.nodes)), changes)
    ensures Continues(old(Ledger(st.counter, st.nodes)), Ledger(st.counter, st.nodes))
    ensures NeverFull(old(Ledger(st.counter, st.nodes)), changes) ==>
      st.nodes.Values == After(old(st.nodes.Values), changes)
  {
    hide Exact, WellStored, Workable, Numbered, Apart, Mentioned, Entered, After, Entries, Continues, Passable;
    hide NeverFull, BelowCounter;
    ghost var live, l := st.nodes.Values, Ledger(st.counter, st.nodes);
    StoreBelow(st);
    NothingYet(live, l);
    assert changes[..0] == [];
    for i := 0 to |changes|
      invariant st.Valid() && Ledger(st.counter, st.nodes) == Entries(l, changes[..i])
    {
      EntriesMentioned(l, changes, i);
      EnteredNext(l, changes, i);
      Fewer(st.world, live + Mentioned(changes), st.nodes.Values, changes, i);
      Step(st, changes[i]);
    }
    assert changes[..|changes|] == changes;
    NumbersStay(l, changes, 0, |changes|);
    if NeverFull(l, changes) {
      EntriesAfter(l, changes, |changes|);
    }
  }

  lemma StoreBelow(st: Store)
    requires st.Valid()
    ensures BelowCounter(Ledger(st.counter, st.nodes))
  {
    hide Exact, WellStored, Workable;
  }

  lemma NothingYet(live: set<Statement>, l: Ledger)
    ensures After(live, []) == live && Entries(l, []) == l
  {
  }

  /** One change of a run. */
  method Step(st: Store, change: Change)
    requires st.Valid() && Apart(st.world, st.nodes.Values + {change.st})
    requires Passable(st.codec, st.world, Ledger(st.counter, st.nodes), change)
    modifies st`counter, st`removed, st`lost, st`nodes, st`statements, st`tables, st.bitsDecode
    ensures st.Valid() && Ledger(st.counter, st.nodes) == Entered(old(Ledger(st.counter, st.nodes)), change)
  {
    hide Exact, WellStored, Workable, Numbered, Served, Apart, Answered, NothingStale, Takeable, Postable, BackendFits;
    ghost var l := Ledger(st.counter, st.nodes);
    StoreIs(st);
    var code: int;
    match change {
      case Put(s) =>
        if s !in st.nodes.Values && st.counter < MAXRECORDS && WellTyped(s.obj) {
          ServedPut(st.codec, st.world, st.tables, st.nodes, st.counter, s);
        }
        code := ApplyPut(st, s);
      case Drop(s, caches) =>
        if s in st.nodes.Values {
          LiveByDigest(st.world, st.counter, st.nodes, st.statements, s);
          NumberedLess(st.world, st.counter, st.nodes, st.statements, st.world.statementHash(s));
          DropOne(st.world, l, st.statements, s, caches, NumberOf(st, s));
          TakeableWhen(st.codec, st.world, st.tables, st.nodes, NumberOf(st, s), caches);
        }
        code := ApplyDrop(st, s, caches);
    }
  }

  lemma StoreIs(st: Store)
    requires st.Valid()
    ensures WellStored(st.codec, st.tables) && Exact(st.codec, st.world, st.tables, st.nodes)
    ensures Numbered(st.world, st.counter, st.nodes, st.statements) && st.counter <= MAXRECORDS
    ensures st.counter !in st.nodes
  {
    NumberSkipped(st.world, st.counter, st.nodes, st.statements);
  }

  lemma TakeableWhen(c: Codec, w: World, tables: map<Key, Bytes>, nodes: map<nat, Statement>, id: nat, caches: Caches)
    requires WellStored(c, tables) && Exact(c, w, tables, nodes) && BackendFits(c, caches.behind)
    requires id in nodes && id < MAXRECORDS && Served(c, w, nodes - {id})
    ensures Takeable(c, w, tables, nodes, id, caches)
  {
    hide Exact, WellStored, BackendFits, Keys, Right, Shadowed, Served;
    ServedDrop(c, w, tables, nodes, caches.behind, id);
  }

  lemma Fewer(w: World, all: set<Statement>, some: set<Statement>, changes: seq<Change>, i: nat)
    requires Apart(w, all) && some <= all && Mentioned(changes) <= all && i < |changes|
    ensures Apart(w, some + {changes[i].st})
  {
    assert changes[i].st in Mentioned(changes);
  }

  /** The statements behind some ids. */
  ghost function Named(nodes: map<nat, Statement>, ids: set<nat>): set<Statement>
    requires ids <= nodes.Keys
  {
    set id | id in ids :: nodes[id]
  }

  ghost function Filtered(w: World, live: set<Statement>, p: Pattern): set<Statement> {
    set s | s in live && Matches(w, s, p)
  }

  /** An empty store. */
  const NOTHING := Ledger(0, map[])

  /** Searching after a run finds every statement the run leaves that matches, and nothing else where
      lists of requirements are answered right. */
  method RunAndSearch(world: World, codec: Codec, changes: seq<Change>, p: Pattern)
    returns (st: Store, results: Iterator?)
    requires Workable(codec) && Apart(world, Mentioned(changes)) && AllPassable(codec, world, NOTHING, changes)
    requires p.ranges != [] ==> Bounds(world, p.ranges, p.rangesOp).Some?
    ensures fresh(st) && st.Valid() && Ledger(st.counter, st.nodes) == Entries(NOTHING, changes)
    ensures NeverFull(NOTHING, changes) ==> st.nodes.Values == After({}, changes)
    ensures results == null <==> GivesUp(st.codec, world, st.tables, p)
    ensures results != null ==> results.Valid() && results.Content() <= st.nodes.Keys
    ensures results != null ==> Filtered(world, st.nodes.Values, p) <= Named(st.nodes, results.Content())
    ensures results != null && (AllAlternatives(p) || RightLists(world, st.tables, st.nodes, p)) ==>
      Named(st.nodes, results.Content()) == Filtered(world, st.nodes.Values, p)
  {
    hide Exact, WellStored, Workable, Numbered, Apart, Mentioned, Matches, GivesUp, Bounds, Answer, Named;
    hide Filtered, RightLists, Entries, Continues, AllPassable, NeverFull, After;
    st := new Store(0, world, codec);
    assert st.nodes.Values == {};
    assert st.nodes.Values + Mentioned(changes) == Mentioned(changes);
    Run(st, changes);
    AnswerNamed(st.codec, world, st.tables, st.nodes, p);
    results := Search(st, p);
  }

  lemma AnswerNamed(c: Codec, w: World, tables: map<Key, Bytes>, nodes: map<nat, Statement>, p: Pattern)
    requires Exact(c, w, tables, nodes) && WellStored(c, tables)
    requires p.ranges != [] ==> Bounds(w, p.ranges, p.rangesOp).Some?
    ensures Answer(c, w, tables, nodes, p) <= nodes.Keys
    ensures Filtered(w, nodes.Values, p) <= Named(nodes, Answer(c, w, tables, nodes, p))
    ensures AllAlternatives(p) || RightLists(w, tables, nodes, p) ==>
      Named(nodes, Answer(c, w, tables, nodes, p)) == Filtered(w, nodes.Values, p)
  {
    hide Matches, Exact, Answer, Bounds, RightLists, WellStored;
    AnswerIsFilter(c, w, tables, nodes, p);
    var ids := Answer(c, w, tables, nodes, p);
    forall s | s in Filtered(w, nodes.Values, p)
      ensures s in Named(nodes, ids)
    {
      var id :| id in nodes && nodes[id] == s;
      assert id in ids;
    }
  }
}
