/** The description of a resource: its statements, those of the blank nodes they point to, and
    so on, within a context and up to a number of levels. */
module FetchObject {
  import opened ByteString
  import opened BitVectors
  import opened Iterators
  import opened Options
  import opened Statements
  import opened TripleStore
  import opened Queries

  const DEEPNESS := 20

  /** What the description is made of: the live statements, and the ids of the context if there is one. */
  datatype Graph = Graph(w: World, nodes: map<nat, Statement>, context: Option<set<nat>>)

  /** The statements about a node. */
  ghost function About(g: Graph, n: Node): set<nat> {
    set id | id in g.nodes && g.w.nodeHash(g.nodes[id].subj) == g.w.nodeHash(n)
      && (g.context.Some? ==> id in g.context.value)
  }

  /** A statement leads on to the statements about its object, if that is a blank node. */
  ghost predicate LeadsOn(g: Graph, id: nat) {
    id in g.nodes && g.nodes[id].obj.BNode?
  }

  /** Everything within k levels of a node. */
  ghost function Within(g: Graph, n: Node, k: nat): set<nat>
    decreases k, 0
  {
    if k == 0 then {} else About(g, n) + Beyond(g, About(g, n), k - 1)
  }

  /** Everything within k levels of what some statements lead on to. */
  ghost function Beyond(g: Graph, ids: set<nat>, k: nat): set<nat>
    decreases k, 2
  {
    set id, next | id in ids && next in Behind(g, id, k) :: next
  }

  ghost function Behind(g: Graph, id: nat, k: nat): set<nat>
    decreases k, 1
  {
    if LeadsOn(g, id) then Within(g, g.nodes[id].obj, k) else {}
  }

  /** A way from a node through some statements: the first is about the node, and each of the others is
      about the object of the one before it, which is a blank node. */
  ghost predicate Trail(g: Graph, n: Node, path: seq<nat>)
    decreases |path|
  {
    && path != [] && path[0] in g.nodes && path[0] in About(g, n)
    && (|path| > 1 ==> g.nodes[path[0]].obj.BNode? && Trail(g, g.nodes[path[0]].obj, path[1..]))
  }

  ghost predicate TrailTo(g: Graph, n: Node, k: nat, id: nat) {
    exists path :: Trail(g, n, path) && |path| <= k && path[|path| - 1] == id
  }

  lemma {:induction false} TrailIsWithin(g: Graph, n: Node, k: nat, path: seq<nat>)
    requires Trail(g, n, path) && |path| <= k
    ensures path[|path| - 1] in Within(g, n, k)
    decreases k
  {
    hide About;
    if |path| > 1 {
      TrailIsWithin(g, g.nodes[path[0]].obj, k - 1, path[1..]);
      WithinNext(g, n, k, path[0]);
    } else {
      AboutIsWithin(g, n, k);
    }
  }

  /** Within k levels are the statements at the end of a trail of at most k statements. */
  lemma {:induction false} WithinIsTrails(g: Graph, n: Node, k: nat)
    ensures forall id :: id in Within(g, n, k) <==> TrailTo(g, n, k, id)
    decreases k
  {
    AboutIsLive(g, n);
    hide About;
    forall id | id in Within(g, n, k)
      ensures TrailTo(g, n, k, id)
    {
      if id in About(g, n) {
        assert Trail(g, n, [id]);
      } else {
        assert k > 0 && id in Beyond(g, About(g, n), k - 1);
        var via :| via in About(g, n) && id in Behind(g, via, k - 1);
        WithinIsTrails(g, g.nodes[via].obj, k - 1);
        assert TrailTo(g, g.nodes[via].obj, k - 1, id);
        TrailLonger(g, n, via, k, id);
      }
    }
    forall id | TrailTo(g, n, k, id)
      ensures id in Within(g, n, k)
    {
      var path :| Trail(g, n, path) && |path| <= k && path[|path| - 1] == id;
      TrailIsWithin(g, n, k, path);
    }
  }

  lemma TrailLonger(g: Graph, n: Node, via: nat, k: nat, id: nat)
    requires via in g.nodes && via in About(g, n) && g.nodes[via].obj.BNode?
    requires k > 0 && TrailTo(g, g.nodes[via].obj, k - 1, id)
    ensures TrailTo(g, n, k, id)
  {
    var path :| Trail(g, g.nodes[via].obj, path) && |path| <= k - 1 && path[|path| - 1] == id;
    var all := [via] + path;
    assert all[1..] == path;
    assert Trail(g, n, all);
  }

  /** No chain of blank nodes from here takes more than k levels. */
  ghost predicate Shallow(g: Graph, n: Node, k: nat)
    decreases k
  {
    k > 0 && forall id :: id in About(g, n) && LeadsOn(g, id) ==> Shallow(g, g.nodes[id].obj, k - 1)
  }

  /** Whatever the statements of a set lead on to is in the other. */
  ghost predicate Closed(g: Graph, s: set<nat>, t: set<nat>) {
    forall id :: id in s && LeadsOn(g, id) ==> About(g, g.nodes[id].obj) <= t
  }

  /** Nothing within reach is missing. */
  ghost predicate Complete(g: Graph, n: Node, out: set<nat>) {
    forall k: nat :: Within(g, n, k) <= out
  }

  /** A closed set that holds what is about a node holds everything reachable from it. */
  lemma {:induction false} ClosedHoldsAll(g: Graph, n: Node, k: nat, s: set<nat>)
    requires Closed(g, s, s) && About(g, n) <= s
    ensures Within(g, n, k) <= s
    decreases k
  {
    hide About;
    if k > 0 {
      forall next | next in Beyond(g, About(g, n), k - 1)
        ensures next in s
      {
        var id :| id in About(g, n) && next in Behind(g, id, k - 1);
        ClosedHoldsAll(g, g.nodes[id].obj, k - 1, s);
      }
    }
  }

  lemma WithinNext(g: Graph, n: Node, k: nat, id: nat)
    requires k > 0 && id in About(g, n) && LeadsOn(g, id)
    ensures Within(g, g.nodes[id].obj, k - 1) <= Within(g, n, k)
    ensures Shallow(g, n, k) ==> Shallow(g, g.nodes[id].obj, k - 1)
  {
    hide About;
    forall next | next in Within(g, g.nodes[id].obj, k - 1)
      ensures next in Within(g, n, k)
    {
      assert next in Behind(g, id, k - 1);
    }
  }

  lemma AboutIsWithin(g: Graph, n: Node, k: nat)
    requires k > 0
    ensures About(g, n) <= Within(g, n, k)
  {
    hide About;
  }

  /** What a statement within k levels leads on to is within one level more. */
  lemma {:induction false} WithinOneMore(g: Graph, n: Node, k: nat, id: nat)
    requires id in Within(g, n, k) && LeadsOn(g, id)
    ensures About(g, g.nodes[id].obj) <= Within(g, n, k + 1)
    decreases k
  {
    hide About;
    if id in About(g, n) {
      AboutIsWithin(g, g.nodes[id].obj, k);
      WithinNext(g, n, k + 1, id);
    } else {
      var via :| via in About(g, n) && id in Behind(g, via, k - 1);
      WithinOneMore(g, g.nodes[via].obj, k - 1, id);
      WithinNext(g, n, k + 1, via);
    }
  }

  /** The posting vector of a subject, cut down to the context. */
  lemma AboutIs(c: Codec, w: World, tables: map<Key, Bytes>, nodes: map<nat, Statement>,
                context: Option<set<nat>>, n: Node)
    requires Exact(c, w, tables, nodes)
    ensures var p := Posting(c, tables, Subject(w.nodeHash(n)));
      About(Graph(w, nodes, context), n) == if context.Some? then p * context.value else p
  {
    hide Keys, Exact, Posting;
    PostingIs(c, w, tables, nodes, Subject(w.nodeHash(n)));
    forall id | id in nodes
      ensures Subject(w.nodeHash(n)) in Keys(w, nodes[id]) <==> w.nodeHash(nodes[id].subj) == w.nodeHash(n)
    {
      NodeKeysIn(w, nodes[id]);
    }
  }

  // --- the result of the recursion ---

  /** A call for a node, down to k levels: what is about the node and not in the result yet is
      followed, statement by statement, and then added. */
  ghost function Fetched(g: Graph, n: Node, k: nat, out: set<nat>): set<nat>
    decreases k, MAXRECORDS + 1
  {
    if k == 0 then out
    else
      var sub := About(g, n) - out;
      Followed(g, sub, MAXRECORDS, k, out) + sub
  }

  /** The result after the statements of sub below p were followed, in the order of their numbers. */
  ghost function Followed(g: Graph, sub: set<nat>, p: nat, k: nat, out: set<nat>): set<nat>
    requires k > 0 && p <= MAXRECORDS
    decreases k, p
  {
    if p == 0 then out
    else
      var was := Followed(g, sub, p - 1, k, out);
      if p - 1 in sub then Led(g, p - 1, k, was) else was
  }

  /** Following one statement. */
  ghost function Led(g: Graph, id: nat, k: nat, out: set<nat>): set<nat>
    requires k > 0
    decreases k, 0
  {
    if LeadsOn(g, id) then Fetched(g, g.nodes[id].obj, k - 1, out) else out
  }

  lemma FollowedNext(g: Graph, sub: set<nat>, p: nat, k: nat, out: set<nat>)
    requires k > 0 && p < MAXRECORDS
    ensures Followed(g, sub, 0, k, out) == out
    ensures var was := Followed(g, sub, p, k, out);
      Followed(g, sub, p + 1, k, out) == if p in sub then Led(g, p, k, was) else was
  {
  }

  /** Where sub has nothing, nothing is followed. */
  lemma {:induction false} FollowedSkips(g: Graph, sub: set<nat>, p: nat, q: nat, k: nat, out: set<nat>)
    requires k > 0 && p <= q <= MAXRECORDS && Lower(sub, p) == Lower(sub, q)
    ensures Followed(g, sub, q, k, out) == Followed(g, sub, p, k, out)
    decreases q
  {
    if p < q {
      assert q - 1 in Lower(sub, q) <==> q - 1 in sub;
      assert Lower(sub, p) <= Lower(sub, q - 1) <= Lower(sub, q);
      FollowedSkips(g, sub, p, q - 1, k, out);
      hide Led;
      FollowedNext(g, sub, q - 1, k, out);
    }
  }

  /** The numbers a store gives out. */
  ghost predicate Numbers(g: Graph) {
    forall id :: id in g.nodes ==> id < MAXRECORDS
  }

  /** The result while the statements about n are worked off, down to k levels: nothing but what is
      within reach was added, and if nothing runs into the cap, the finished part is closed. */
  ghost predicate Described(g: Graph, n: Node, k: nat, before: set<nat>, now: set<nat>, done: set<nat>) {
    && before <= now <= before + Within(g, n, k)
    && (Shallow(g, n, k) && Closed(g, before, before) ==> Closed(g, now, now) && Closed(g, done, now))
  }

  /** What a finished call has done. */
  ghost predicate Finished(g: Graph, n: Node, k: nat, before: set<nat>, now: set<nat>) {
    && before <= now <= before + Within(g, n, k)
    && (Shallow(g, n, k) && Closed(g, before, before) ==> Closed(g, now, now) && About(g, n) <= now)
  }

  lemma DescribedStart(g: Graph, n: Node, k: nat, before: set<nat>)
    ensures Described(g, n, k, before, before, {})
    ensures Finished(g, n, 0, before, before)
  {
  }

  /** A finished call for one statement. */
  lemma DescribedStep(g: Graph, n: Node, k: nat, before: set<nat>, was: set<nat>, done: set<nat>, id: nat,
                      now: set<nat>)
    requires Described(g, n, k, before, was, done) && k > 0 && id in About(g, n)
    requires if LeadsOn(g, id) then Finished(g, g.nodes[id].obj, k - 1, was, now) else now == was
    ensures Described(g, n, k, before, now, done + {id})
  {
    hide About, Within, Shallow;
    if LeadsOn(g, id) {
      WithinNext(g, n, k, id);
    }
  }

  lemma DescribedEnd(g: Graph, n: Node, k: nat, before: set<nat>, was: set<nat>, done: set<nat>)
    requires Described(g, n, k, before, was, done) && k > 0 && done == About(g, n) - before
    ensures Finished(g, n, k, before, was + done)
  {
    AboutIsWithin(g, n, k);
    hide About, Within, Shallow;
  }

  /** Following the statements about a node. */
  lemma {:induction false} FollowedIs(g: Graph, n: Node, sub: set<nat>, p: nat, k: nat, before: set<nat>)
    requires Numbers(g) && k > 0 && p <= MAXRECORDS && sub <= About(g, n)
    ensures Described(g, n, k, before, Followed(g, sub, p, k, before), Lower(sub, p))
    decreases k, p
  {
    hide About, Described, Finished;
    if p == 0 {
      LowerNothing(sub);
      DescribedStart(g, n, k, before);
    } else {
      var was := Followed(g, sub, p - 1, k, before);
      FollowedIs(g, n, sub, p - 1, k, before);
      if p - 1 in sub {
        LeadsItself(sub, p - 1);
        LowerStep(sub, p - 1, p - 1);
        if LeadsOn(g, p - 1) {
          FetchedIs(g, g.nodes[p - 1].obj, k - 1, was);
        }
        DescribedStep(g, n, k, before, was, Lower(sub, p - 1), p - 1, Led(g, p - 1, k, was));
      } else {
        LowerSkips(sub, p - 1);
      }
    }
  }

  /** A finished call has added nothing that is not within reach, and where no chain runs into the
      cap it leaves a closed result closed. */
  lemma {:induction false} FetchedIs(g: Graph, n: Node, k: nat, before: set<nat>)
    requires Numbers(g)
    ensures Finished(g, n, k, before, Fetched(g, n, k, before))
    decreases k, MAXRECORDS + 1
  {
    hide About, Described, Finished, Followed;
    DescribedStart(g, n, k, before);
    if k > 0 {
      var sub := About(g, n) - before;
      FollowedIs(g, n, sub, MAXRECORDS, k, before);
      AboutIsLive(g, n);
      LowerAll(sub, MAXRECORDS);
      DescribedEnd(g, n, k, before, Followed(g, sub, MAXRECORDS, k, before), sub);
    }
  }

  // --- the recursion ---

  /** What a call is given: the context vector, and a result that shares no memory with it. */
  ghost predicate Given(st: Store, context: array<bv8>, contextSize: nat, level: nat, out: Iterator, g: Graph)
    reads st, context
  {
    && st.Valid() && g.w == st.world && g.nodes == st.nodes && level <= DEEPNESS
    && st.bitsDecode != out.ids && context != st.bitsDecode && context != out.ids
    && contextSize <= BYTES && contextSize <= context.Length
    && g.context == if contextSize > 0 then Some(Ids(context[..contextSize])) else None
  }

  lemma GivenIs(st: Store, context: array<bv8>, contextSize: nat, level: nat, out: Iterator, g: Graph)
    requires Given(st, context, contextSize, level, out, g)
    ensures st.Valid() && g.w == st.world && g.nodes == st.nodes && level <= DEEPNESS
    ensures st.bitsDecode != out.ids && context != st.bitsDecode && context != out.ids
    ensures contextSize <= BYTES && contextSize <= context.Length
    ensures g.context == if contextSize > 0 then Some(Ids(context[..contextSize])) else None
    ensures level < DEEPNESS ==> Given(st, context, contextSize, level + 1, out, g)
  {
  }

  /** A scan of its own. */
  predicate Apart(st: Store, context: array<bv8>, out: Iterator, sub: Iterator) {
    sub != out && sub.ids != out.ids && sub.ids != st.bitsDecode && sub.ids != context
  }

  lemma FinishedOver(sub: Iterator)
    requires sub.Valid() && sub.InStep() && sub.pos == 0
    ensures sub.Over(sub.Content())
  {
  }

  lemma Rearranged(p: set<nat>, o: set<nat>, context: Option<set<nat>>)
    ensures context.Some? ==> (p - o) * context.value == p * context.value - o
  {
  }

  /** The statements about a node that are not in out yet. */
  method Unvisited(st: Store, resource: Node, context: array<bv8>, contextSize: nat, level: nat, out: Iterator,
                   ghost g: Graph)
    returns (sub: Iterator)
    requires Given(st, context, contextSize, level, out, g) && out.Valid()
    modifies st.bitsDecode
    ensures fresh(sub) && fresh(sub.ids) && Apart(st, context, out, sub) && sub.Valid()
    ensures sub.Over(About(g, resource) - out.Content())
  {
    hide Ids, Exact, Numbered, WellStored, Workable, Short, About, Posting, Given, StoredWell, VectorOf;
    hide Iterator.Over, Lower;
    GivenIs(st, context, contextSize, level, out, g);
    AboutIs(st.codec, st.world, st.tables, st.nodes, g.context, resource);
    StoredWellAt(st.codec, st.tables, Subject(st.world.nodeHash(resource)));
    sub := new Iterator(st.handle);
    var outsize := st.Fetch(Subject(st.world.nodeHash(resource)));
    sub.idsSize := Exor(outsize, st.bitsDecode, out.idsSize, out.ids, sub.ids);
    Rearranged(Posting(st.codec, st.tables, Subject(st.world.nodeHash(resource))), out.Content(), g.context);
    if contextSize > 0 {
      sub.idsSize := And(sub.idsSize, sub.ids, contextSize, context, st.bitsDecode);
      CopyBits(st.bitsDecode, sub.ids, sub.idsSize);
    }
    sub.Finish();
    FinishedOver(sub);
  }

  /** Add the processed statements to the result. */
  method AddTo(st: Store, context: array<bv8>, contextSize: nat, level: nat, out: Iterator, sub: Iterator,
               ghost g: Graph)
    requires Given(st, context, contextSize, level, out, g) && out.Valid()
    requires sub.Valid() && Apart(st, context, out, sub)
    modifies st.bitsDecode, out`size, out`idsSize, out`pos, out.ids
    ensures out.Valid() && out.Content() == old(out.Content()) + sub.Content()
  {
    hide Ids, Exact, Numbered, WellStored, Workable, Short, Given;
    GivenIs(st, context, contextSize, level, out, g);
    out.idsSize := Or(out.idsSize, out.ids, sub.idsSize, sub.ids, st.bitsDecode);
    CopyBits(st.bitsDecode, out.ids, out.idsSize);
    out.CountIds();
  }

  /** Between a position and the next id there is nothing. */
  lemma LowerToNext(s: set<nat>, n: nat, r: nat)
    requires Leads(s, n, r)
    ensures Lower(s, r) == Lower(s, n) && Lower(s, r + 1) == Lower(s, r) + {r} && r in s && r >= n
  {
  }

  /** Where a scan of some statements stands: at the current one, or at the end. */
  ghost predicate Scanned(sub: Iterator, nodes: map<nat, Statement>, s: set<nat>, cur: Option<Statement>, at: nat)
    reads sub, sub.ids
  {
    && sub.Valid() && sub.InStep() && sub.Content() == s && sub.pos / 8 <= BYTES && at <= MAXRECORDS
    && (cur.None? ==> at == MAXRECORDS)
    && (cur.Some? ==> sub.pos == at + 1 <= MAXRECORDS && at in s && at in nodes && cur.value == nodes[at])
  }

  lemma ScannedIs(sub: Iterator, nodes: map<nat, Statement>, s: set<nat>, cur: Option<Statement>, at: nat)
    requires Scanned(sub, nodes, s, cur, at)
    ensures sub.Valid() && sub.InStep() && sub.Content() == s && sub.pos / 8 <= BYTES && at <= MAXRECORDS
    ensures cur.None? ==> at == MAXRECORDS
    ensures cur.Some? ==> sub.pos == at + 1 <= MAXRECORDS && at in s && at in nodes && cur.value == nodes[at]
  {
  }

  /** Go on to the next statement of the scan. */
  method Advance(sub: Iterator, nodes: map<nat, Statement>, ghost s: set<nat>)
    returns (cur: Option<Statement>, ghost at: nat)
    requires sub.Valid() && sub.InStep() && sub.Content() == s && sub.pos <= MAXRECORDS && s <= nodes.Keys
    modifies sub`pos, sub`stCounter
    ensures Scanned(sub, nodes, s, cur, at)
    ensures at >= old(sub.pos) && Lower(s, at) == Lower(s, old(sub.pos))
  {
    hide Ids, Lower, Leads;
    ghost var n := sub.pos;
    AllLower(s, n);
    SomeLeft(s, n);
    Bounded(sub.ids[..sub.idsSize]);
    LowerAll(s, MAXRECORDS);
    cur := sub.Each(nodes);
    if cur.Some? {
      at := sub.pos - 1;
      LowerToNext(s, n, at);
    } else {
      at := MAXRECORDS;
    }
  }

  /** Follow one statement if its object is a blank node. */
  method Follow(st: Store, s: Statement, context: array<bv8>, contextSize: nat, level: nat, out: Iterator,
                ghost g: Graph, ghost id: nat)
    returns (code: int)
    requires Given(st, context, contextSize, level, out, g) && level < DEEPNESS && out.Valid()
    requires id in st.nodes && st.nodes[id] == s
    modifies st.bitsDecode, out`size, out`idsSize, out`pos, out.ids
    ensures code == 0
    ensures out.Valid() && out.Content() == Led(g, id, DEEPNESS - level, old(out.Content()))
    decreases DEEPNESS - level, 0
  {
    hide Fetched, Given, Store.Valid;
    GivenIs(st, context, contextSize, level, out, g);
    code := 0;
    if s.obj.BNode? {
      code := Recurse(st, s.obj, context, contextSize, level + 1, out, g);
    }
  }

  /** Follow the current statement of a scan and go on to the next. */
  method FollowNext(st: Store, sub: Iterator, cur: Option<Statement>, context: array<bv8>, contextSize: nat,
                    level: nat, out: Iterator, ghost g: Graph, ghost before: set<nat>, ghost at: nat)
    returns (code: int, next: Option<Statement>, ghost at': nat)
    requires Given(st, context, contextSize, level, out, g) && level < DEEPNESS && cur.Some?
    requires sub.Valid() && out.Valid() && sub.Content() <= st.nodes.Keys
    requires Scanned(sub, st.nodes, sub.Content(), cur, at)
    requires at <= MAXRECORDS && out.Content() == Followed(g, sub.Content(), at, DEEPNESS - level, before)
    requires Apart(st, context, out, sub)
    modifies st.bitsDecode, out`size, out`idsSize, out`pos, out.ids, sub`pos, sub`stCounter
    ensures code == 0 && Given(st, context, contextSize, level, out, g)
    ensures out.Valid() && sub.Valid() && sub.Content() == old(sub.Content())
    ensures Scanned(sub, st.nodes, sub.Content(), next, at') && at < at' <= MAXRECORDS
    ensures out.Content() == Followed(g, sub.Content(), at', DEEPNESS - level, before)
    decreases DEEPNESS - level, 1
  {
    hide Ids, Lower, Followed, Led, Given, Scanned, Store.Valid, Iterator.InStep;
    ghost var s := sub.Content();
    GivenIs(st, context, contextSize, level, out, g);
    ScannedIs(sub, st.nodes, s, cur, at);
    code := Follow(st, cur.value, context, contextSize, level, out, g, at);
    FollowedNext(g, s, at, DEEPNESS - level, before);
    next, at' := Advance(sub, st.nodes, s);
    ScannedIs(sub, st.nodes, s, next, at');
    FollowedSkips(g, s, at + 1, at', DEEPNESS - level, before);
  }

  lemma OverIs(sub: Iterator, s: set<nat>)
    requires sub.Valid() && sub.Over(s)
    ensures sub.InStep() && sub.pos == 0 && sub.Content() == s
  {
  }

  /** Follow every statement of a scan. */
  method FollowAll(st: Store, sub: Iterator, context: array<bv8>, contextSize: nat, level: nat,
                   out: Iterator, ghost g: Graph)
    returns (code: int)
    requires Given(st, context, contextSize, level, out, g) && level < DEEPNESS
    requires sub.Valid() && out.Valid() && sub.Over(sub.Content()) && sub.Content() <= st.nodes.Keys
    requires Apart(st, context, out, sub)
    modifies st.bitsDecode, out`size, out`idsSize, out`pos, out.ids, sub`pos, sub`stCounter
    ensures code == 0
    ensures out.Valid() && sub.Valid() && sub.Content() == old(sub.Content())
    ensures out.Content() == Followed(g, sub.Content(), MAXRECORDS, DEEPNESS - level, old(out.Content()))
    decreases DEEPNESS - level, 2
  {
    hide Ids, Lower, Followed, Given, Scanned, Apart, Store.Valid, Iterator.InStep, Iterator.Over;
    ghost var before, s, k := out.Content(), sub.Content(), DEEPNESS - level;
    OverIs(sub, s);
    FollowedNext(g, s, 0, k, before);
    var cur: Option<Statement>;
    ghost var at: nat;
    cur, at := Advance(sub, st.nodes, s);
    ScannedIs(sub, st.nodes, s, cur, at);
    FollowedSkips(g, s, 0, at, k, before);
    code := 0;
    while cur.Some?
      invariant sub.Valid() && sub.Content() == s && out.Valid() && code == 0 && at <= MAXRECORDS
      invariant Scanned(sub, st.nodes, s, cur, at)
      invariant Given(st, context, contextSize, level, out, g)
      invariant out.Content() == Followed(g, s, at, k, before)
      decreases MAXRECORDS - at
    {
      code, cur, at := FollowNext(st, sub, cur, context, contextSize, level, out, g, before, at);
      if code == -1 {
        return;
      }
    }
    ScannedIs(sub, st.nodes, s, cur, at);
  }

  /** _rdfstore_recursive_fetch_object, which stops at the level cap. */
  method Recurse(st: Store, resource: Node, context: array<bv8>, contextSize: nat, level: nat, out: Iterator,
                 ghost g: Graph)
    returns (code: int)
    requires Given(st, context, contextSize, level, out, g) && out.Valid()
    modifies st.bitsDecode, out`size, out`idsSize, out`pos, out.ids
    ensures code == 0
    ensures out.Valid() && out.Content() == Fetched(g, resource, DEEPNESS - level, old(out.Content()))
    decreases DEEPNESS - level, 3
  {
    hide Ids, About, Followed, Given, Apart, Store.Valid, Iterator.InStep;
    GivenIs(st, context, contextSize, level, out, g);
    if level == DEEPNESS {
      return 0;
    }
    AboutIsLive(g, resource);
    var sub := Unvisited(st, resource, context, contextSize, level, out, g);
    code := FollowAll(st, sub, context, contextSize, level, out, g);
    if code == -1 {
      return;
    }
    AddTo(st, context, contextSize, level, out, sub, g);
  }

  lemma AboutIsLive(g: Graph, n: Node)
    ensures About(g, n) <= g.nodes.Keys
  {
  }

  /** The statements made in a context. */
  ghost function InContext(w: World, nodes: map<nat, Statement>, n: Node): set<nat> {
    set id | id in nodes && nodes[id].context.Some? && w.nodeHash(nodes[id].context.value) == w.nodeHash(n)
  }

  lemma ContextIs(c: Codec, w: World, tables: map<Key, Bytes>, nodes: map<nat, Statement>, n: Node)
    requires Exact(c, w, tables, nodes)
    ensures Posting(c, tables, Context(w.nodeHash(n))) == InContext(w, nodes, n)
  {
    hide Keys, Exact, Posting;
    PostingIs(c, w, tables, nodes, Context(w.nodeHash(n)));
    forall id | id in nodes
      ensures Context(w.nodeHash(n)) in Keys(w, nodes[id]) <==>
        nodes[id].context.Some? && w.nodeHash(nodes[id].context.value) == w.nodeHash(n)
    {
      NodeKeysIn(w, nodes[id]);
    }
  }

  /** The graph a description is taken from. */
  ghost function GraphOf(w: World, nodes: map<nat, Statement>, context: Option<Node>): Graph {
    Graph(w, nodes, if context.Some? then Some(InContext(w, nodes, context.value)) else None)
  }

  lemma NothingAbout(g: Graph, n: Node, k: nat)
    requires g.context == Some({})
    ensures Within(g, n, k) == {} && Fetched(g, n, k, {}) == {}
  {
    hide Led;
    assert About(g, n) == {};
    if k > 0 {
      FollowedSkips(g, {}, 0, MAXRECORDS, k, {});
      FollowedNext(g, {}, 0, k, {});
      assert About(g, n) - {} == {};
    }
  }

  /** From an empty start a finished call gives what is within reach, and all of it if nothing ran
      into the cap. */
  lemma {:induction false} FinishedIsAll(g: Graph, n: Node, now: set<nat>)
    requires Finished(g, n, DEEPNESS, {}, now)
    ensures now <= Within(g, n, DEEPNESS)
    ensures Shallow(g, n, DEEPNESS) ==> now == Within(g, n, DEEPNESS) && Complete(g, n, now)
  {
    hide Within, Shallow, About;
    if Shallow(g, n, DEEPNESS) {
      forall k: nat
        ensures Within(g, n, k) <= now
      {
        ClosedHoldsAll(g, n, k, now);
      }
    }
  }

  lemma CompleteIsClosed(g: Graph, n: Node, k: nat, out: set<nat>)
    requires Complete(g, n, out) && out <= Within(g, n, k)
    ensures Closed(g, out, out)
  {
    hide About, Within;
    forall id | id in out && LeadsOn(g, id)
      ensures About(g, g.nodes[id].obj) <= out
    {
      WithinOneMore(g, n, k, id);
      assert Within(g, n, k + 1) <= out;
    }
  }

  /** A result holds everything within reach exactly if it is closed. */
  lemma CompleteWhenClosed(g: Graph, n: Node)
    requires Numbers(g)
    ensures Complete(g, n, Fetched(g, n, DEEPNESS, {})) <==>
      Closed(g, Fetched(g, n, DEEPNESS, {}), Fetched(g, n, DEEPNESS, {}))
  {
    hide About, Within, Fetched, Shallow, Closed;
    var out := Fetched(g, n, DEEPNESS, {});
    FetchedIs(g, n, DEEPNESS, {});
    if Complete(g, n, out) {
      CompleteIsClosed(g, n, DEEPNESS, out);
    }
    if Closed(g, out, out) {
      HoldsItsOwn(g, n, DEEPNESS, {});
      forall k: nat
        ensures Within(g, n, k) <= out
      {
        ClosedHoldsAll(g, n, k, out);
      }
    }
  }

  lemma {:induction false} HoldsItsOwn(g: Graph, n: Node, k: nat, before: set<nat>)
    requires k > 0 && Numbers(g)
    ensures About(g, n) <= Fetched(g, n, k, before)
  {
    hide About, Described;
    var sub := About(g, n) - before;
    FollowedIs(g, n, sub, MAXRECORDS, k, before);
    DescribedHolds(g, n, k, before, Followed(g, sub, MAXRECORDS, k, before), Lower(sub, MAXRECORDS));
  }

  lemma DescribedHolds(g: Graph, n: Node, k: nat, before: set<nat>, now: set<nat>, done: set<nat>)
    requires Described(g, n, k, before, now, done)
    ensures before <= now
  {
  }

  /** Nothing that was found is lost on the way. */
  lemma {:induction false} FollowedGrows(g: Graph, sub: set<nat>, p: nat, q: nat, k: nat, out: set<nat>)
    requires Numbers(g) && k > 0 && p <= q <= MAXRECORDS
    ensures Followed(g, sub, p, k, out) <= Followed(g, sub, q, k, out)
    decreases q
  {
    hide About, Fetched, Within;
    if p < q {
      FollowedGrows(g, sub, p, q - 1, k, out);
      FollowedNext(g, sub, q - 1, k, out);
      if q - 1 in sub && LeadsOn(g, q - 1) {
        FetchedIs(g, g.nodes[q - 1].obj, k - 1, Followed(g, sub, q - 1, k, out));
      }
    }
  }

  /** Whatever the graph, the statements about a node and those about its blank objects are found. */
  lemma FirstLevels(g: Graph, n: Node, k: nat, id: nat)
    requires Numbers(g) && k > 1 && id in About(g, n)
    ensures id in Fetched(g, n, k, {})
    ensures g.nodes[id].obj.BNode? ==> About(g, g.nodes[id].obj) <= Fetched(g, n, k, {})
  {
    HoldsItsOwn(g, n, k, {});
    AboutIsLive(g, n);
    hide About, Followed;
    if g.nodes[id].obj.BNode? {
      var sub := About(g, n);
      assert sub - {} == sub;
      var was := Followed(g, sub, id, k, {});
      FollowedNext(g, sub, id, k, {});
      HoldsItsOwn(g, g.nodes[id].obj, k - 1, was);
      FollowedGrows(g, sub, id + 1, MAXRECORDS, k, {});
    }
  }

  /** Where no object is blank, nothing is followed. */
  lemma NothingToFollow(g: Graph, n: Node, k: nat)
    requires Numbers(g) && k > 0 && forall id :: id in About(g, n) ==> !g.nodes[id].obj.BNode?
    ensures Within(g, n, k) == About(g, n) && Fetched(g, n, k, {}) == About(g, n)
  {
    WithinIsTrails(g, n, k);
    forall id | id in Within(g, n, k)
      ensures id in About(g, n)
    {
      var path :| Trail(g, n, path) && |path| <= k && path[|path| - 1] == id;
    }
    AboutIsWithin(g, n, k);
    FetchedIs(g, n, k, {});
    HoldsItsOwn(g, n, k, {});
    hide About, Within, Fetched;
  }

  /** What a description promises, on the statements themselves. */
  ghost predicate Describes(g: Graph, n: Node, out: set<nat>) {
    && (forall id :: id in out ==> TrailTo(g, n, 20, id))
    && (forall id :: id in About(g, n) ==> id in out && (g.nodes[id].obj.BNode? ==> About(g, g.nodes[id].obj) <= out))
    && ((forall id :: id in About(g, n) ==> !g.nodes[id].obj.BNode?) ==> out == About(g, n))
  }

  lemma FetchedDescribes(g: Graph, n: Node)
    requires Numbers(g)
    ensures Describes(g, n, Fetched(g, n, DEEPNESS, {}))
  {
    AboutIsLive(g, n);
    hide About, Within, Fetched, Trail;
    FetchedIs(g, n, DEEPNESS, {});
    WithinIsTrails(g, n, DEEPNESS);
    forall id | id in About(g, n)
      ensures id in Fetched(g, n, DEEPNESS, {})
      ensures g.nodes[id].obj.BNode? ==> About(g, g.nodes[id].obj) <= Fetched(g, n, DEEPNESS, {})
    {
      FirstLevels(g, n, DEEPNESS, id);
    }
    if forall id :: id in About(g, n) ==> !g.nodes[id].obj.BNode? {
      NothingToFollow(g, n, DEEPNESS);
    }
  }

  lemma StoreNumbers(st: Store, context: Option<Node>)
    requires st.Valid()
    ensures Numbers(GraphOf(st.world, st.nodes, context))
  {
    hide Exact, WellStored, Workable;
  }

  /** fetch_object: the result of the recursion from an empty start. It holds only statements at the end
      of a trail of up to twenty, those about the resource and about its blank objects, and all
      within reach where no chain of blank nodes takes more than twenty levels. */
  method Describe(st: Store, resource: Node, context: Option<Node>) returns (results: Iterator?)
    requires st.Valid()
    modifies st.bitsDecode
    ensures results == null <==> resource.Literal?
    ensures results != null ==> fresh(results) && fresh(results.ids) && results.Valid()
    ensures results != null ==>
      results.Content() == Fetched(GraphOf(st.world, st.nodes, context), resource, 20, {})
    ensures results != null ==> Describes(GraphOf(st.world, st.nodes, context), resource, results.Content())
    ensures results != null && Shallow(GraphOf(st.world, st.nodes, context), resource, 20) ==>
      Complete(GraphOf(st.world, st.nodes, context), resource, results.Content())
  {
    hide Ids, Exact, Numbered, WellStored, Workable, Within, Shallow, Finished, Posting;
    hide Fetched, Numbers, StoredWell, Describes;
    ghost var g := GraphOf(st.world, st.nodes, context);
    if resource.Literal? {
      return null;
    }
    StoreNumbers(st, context);
    var bits := new bv8[BYTES + 1];
    var contextSize := 0;
    if context.Some? {
      ContextIs(st.codec, st.world, st.tables, st.nodes, context.value);
      StoredWellAt(st.codec, st.tables, Context(st.world.nodeHash(context.value)));
      contextSize := st.Fetch(Context(st.world.nodeHash(context.value)));
      CopyBits(st.bitsDecode, bits, contextSize);
      NoIds(bits[..contextSize]);
    }
    results := new Iterator(st.handle);
    if context.Some? && contextSize == 0 {
      forall k: nat
        ensures Within(g, resource, k) == {} && Fetched(g, resource, k, {}) == {}
      {
        NothingAbout(g, resource, k);
      }
      FetchedDescribes(g, resource);
      return;
    }
    var code := Recurse(st, resource, bits, contextSize, 0, results, g);
    FetchedIs(g, resource, DEEPNESS, {});
    FetchedDescribes(g, resource);
    FinishedIsAll(g, resource, results.Content());
    if code == -1 {
      return null;
    }
  }

  // --- what the recursion loses ---

  /** Scans of one statement and of two. */
  lemma FollowsOne(g: Graph, i: nat, k: nat, out: set<nat>)
    requires k > 0 && i < MAXRECORDS
    ensures Followed(g, {i}, MAXRECORDS, k, out) == Led(g, i, k, out)
  {
    hide Led;
    FollowedNext(g, {i}, 0, k, out);
    FollowedSkips(g, {i}, 0, i, k, out);
    FollowedNext(g, {i}, i, k, out);
    FollowedSkips(g, {i}, i + 1, MAXRECORDS, k, out);
  }

  lemma FollowsTwo(g: Graph, i: nat, j: nat, k: nat, out: set<nat>)
    requires k > 0 && i < j < MAXRECORDS
    ensures Followed(g, {i, j}, MAXRECORDS, k, out) == Led(g, j, k, Led(g, i, k, out))
  {
    hide Led;
    FollowedNext(g, {i, j}, 0, k, out);
    FollowedSkips(g, {i, j}, 0, i, k, out);
    FollowedNext(g, {i, j}, i, k, out);
    FollowedSkips(g, {i, j}, i + 1, j, k, out);
    FollowedNext(g, {i, j}, j, k, out);
    FollowedSkips(g, {i, j}, j + 1, MAXRECORDS, k, out);
  }

  /** Five statements about blank nodes a, b, c and d: b refers to itself and to c. */
  ghost predicate SmallCycle(g: Graph, a: Node, b: Node, c: Node, d: Node) {
    && b.BNode? && c.BNode? && d.BNode? && g.nodes.Keys == {0, 1, 2, 3, 4}
    && g.nodes[0].obj == b && g.nodes[1].obj == b && g.nodes[2].obj == c && g.nodes[3].obj == d
    && !g.nodes[4].obj.BNode?
    && About(g, a) == {0} && About(g, b) == {1, 2} && About(g, c) == {3} && About(g, d) == {4}
  }

  /** A description of b has gone round the cycle before it gets to c, and meets the cap there. */
  lemma {:induction false} CycleFetched(g: Graph, a: Node, b: Node, c: Node, d: Node, k: nat)
    requires SmallCycle(g, a, b, c, d) && k > 0
    ensures Fetched(g, b, k, {}) == if k == 1 then {1, 2} else {1, 2, 3}
  {
    hide About, Followed;
    var was := Fetched(g, b, k - 1, {});
    assert {1, 2} - {} == {1, 2};
    FollowsTwo(g, 1, 2, k, {});
    assert Led(g, 1, k, {}) == was;
    assert Fetched(g, b, k, {}) == Fetched(g, c, k - 1, was) + {1, 2};
    if k > 1 {
      CycleFetched(g, a, b, c, d, k - 1);
      if k == 2 {
        assert {3} - was == {3};
        FollowsOne(g, 3, 1, was);
        assert Fetched(g, c, 1, was) == Led(g, 3, 1, was) + {3} == was + {3};
      } else {
        assert {3} - was == {};
        FollowedNext(g, {}, 0, k - 1, was);
        FollowedSkips(g, {}, 0, MAXRECORDS, k - 1, was);
        assert Fetched(g, c, k - 1, was) == was;
      }
    }
  }

  lemma CycleReaches(g: Graph, a: Node, b: Node, c: Node, d: Node)
    requires SmallCycle(g, a, b, c, d)
    ensures 4 in Within(g, a, 4)
  {
    hide About, Within, Shallow;
    AboutIsWithin(g, d, 1);
    WithinNext(g, c, 2, 3);
    WithinNext(g, b, 3, 2);
    WithinNext(g, a, 4, 0);
  }

  /** The statement about d is within four levels of a, and a description of a misses it. */
  lemma CycleLoses(g: Graph, a: Node, b: Node, c: Node, d: Node)
    requires SmallCycle(g, a, b, c, d)
    ensures 4 in Within(g, a, 4)
    ensures Fetched(g, a, 20, {}) == {0, 1, 2, 3}
  {
    hide About, Followed, Within;
    CycleReaches(g, a, b, c, d);
    assert {0} - {} == {0};
    FollowsOne(g, 0, DEEPNESS, {});
    CycleFetched(g, a, b, c, d, DEEPNESS - 1);
    assert Led(g, 0, DEEPNESS, {}) == {1, 2, 3};
  }

  /** There is such a graph over any four blank nodes with different digests. */
  lemma CycleExists(w: World, a: Node, b: Node, c: Node, d: Node, p: Node, x: Node)
    requires b.BNode? && c.BNode? && d.BNode? && !x.BNode?
    requires w.nodeHash(a) != w.nodeHash(b) && w.nodeHash(a) != w.nodeHash(c) && w.nodeHash(a) != w.nodeHash(d)
    requires w.nodeHash(b) != w.nodeHash(c) && w.nodeHash(b) != w.nodeHash(d) && w.nodeHash(c) != w.nodeHash(d)
    ensures var nodes := map[0 := Statement(a, p, b, None), 1 := Statement(b, p, b, None),
        2 := Statement(b, p, c, None), 3 := Statement(c, p, d, None), 4 := Statement(d, p, x, None)];
      SmallCycle(Graph(w, nodes, None), a, b, c, d)
  {
  }
}
