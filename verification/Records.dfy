/** The record a statement is stored as: seven lengths, a byte of types, and the texts one after
    the other. */
module Records {
  import opened ByteString
  import opened Options
  import opened Runs
  import opened Statements

  /** A statement as it is handed to the store: with its own name, and marked as reified or not. */
  datatype Full = Full(st: Statement, node: Option<Bytes>, reified: bool)

  const HEADER := 29

  // --- writing ---

  function Identifier(n: Node): Bytes {
    match n
    case Resource(i) => i
    case BNode(i) => i
    case Literal(_, _, _, _) => []
  }

  function Text(o: Node): Bytes {
    match o
    case Resource(i) => i
    case BNode(i) => i
    case Literal(t, _, _, _) => t
  }

  function Lang(o: Node): Bytes {
    if o.Literal? then o.lang else []
  }

  function TypeUri(o: Node): Bytes {
    if o.Literal? && o.dataType.Some? then o.dataType.value else []
  }

  function ContextId(s: Statement): Bytes {
    if s.context.Some? then Identifier(s.context.value) else []
  }

  function NodeId(f: Full): Bytes {
    if f.node.Some? then f.node.value else []
  }

  function Flag(on: bool, bit: nat): nat {
    if on then bit else 0
  }

  function Mask(f: Full): (m: byte) {
    Flag(f.st.obj.Literal?, 1) + Flag(f.st.subj.BNode?, 2) + Flag(f.st.pred.BNode?, 4) + Flag(f.st.obj.BNode?, 8)
    + Flag(f.st.context.Some? && f.st.context.value.BNode?, 16) + Flag(f.reified, 32)
  }

  /** The texts, in the order they are written. */
  function Texts(f: Full): (ts: seq<Bytes>)
    ensures |ts| == 7
  {
    [Identifier(f.st.subj), Identifier(f.st.pred), Text(f.st.obj), Lang(f.st.obj), TypeUri(f.st.obj),
     ContextId(f.st), NodeId(f)]
  }

  /** The room a node has for its language, with the final zero. */
  const MAX_LANG := 50

  /** What can be written down: every length fits four bytes, the language has room, and only the
      object may be a literal. */
  predicate Storable(f: Full) {
    && (forall k :: 0 <= k < 7 ==> |Texts(f)[k]| < WORD) && |Lang(f.st.obj)| < MAX_LANG
    && !f.st.subj.Literal? && !f.st.pred.Literal? && (f.st.context.Some? ==> !f.st.context.value.Literal?)
  }

  /** That is to say: lengths below 2^32, of the language below 50, and a literal only as the object. */
  lemma StorableWhen(f: Full)
    ensures Storable(f) <==>
      (|Identifier(f.st.subj)| < 0x1_0000_0000 && |Identifier(f.st.pred)| < 0x1_0000_0000
        && |Text(f.st.obj)| < 0x1_0000_0000 && |Lang(f.st.obj)| < 50 && |TypeUri(f.st.obj)| < 0x1_0000_0000
        && |ContextId(f.st)| < 0x1_0000_0000 && |NodeId(f)| < 0x1_0000_0000
        && !f.st.subj.Literal? && !f.st.pred.Literal? && (f.st.context.Some? ==> !f.st.context.value.Literal?))
  {
    hide Identifier, Text, Lang, TypeUri, ContextId, NodeId;
    var ts := Texts(f);
    assert ts[0] == Identifier(f.st.subj) && ts[1] == Identifier(f.st.pred) && ts[2] == Text(f.st.obj);
    assert ts[3] == Lang(f.st.obj) && ts[4] == TypeUri(f.st.obj) && ts[5] == ContextId(f.st) && ts[6] == NodeId(f);
  }

  function Lengths(ts: seq<Bytes>): Bytes
    requires forall k :: 0 <= k < |ts| ==> |ts[k]| < WORD
  {
    if ts == [] then [] else Lengths(ts[..|ts| - 1]) + PackInt(|ts[|ts| - 1]|)
  }

  function Flat(ts: seq<Bytes>): Bytes {
    if ts == [] then [] else Flat(ts[..|ts| - 1]) + ts[|ts| - 1]
  }

  function Record(f: Full): Bytes
    requires Storable(f)
  {
    Lengths(Texts(f)) + [Mask(f)] + Flat(Texts(f)) + [0]
  }

  // --- reading ---

  /** The k-th length of a record. */
  function Field(b: Bytes, k: nat): nat
    requires 4 * k + 4 <= |b|
  {
    UnpackInt(b[4 * k..])
  }

  /** How much the k-th text takes; language and datatype are there for a literal only. */
  function Counted(b: Bytes, k: nat): nat
    requires HEADER <= |b| && k < 7
  {
    if (k == 3 || k == 4) && !Bit(b[28], 1) then 0 else Field(b, k)
  }

  /** Where the k-th text starts. */
  function Start(b: Bytes, k: nat): nat
    requires HEADER <= |b| && k <= 7
  {
    if k == 0 then HEADER else Start(b, k - 1) + Counted(b, k - 1)
  }

  /** The k-th text of a record that is long enough. */
  function TextAt(b: Bytes, k: nat): Bytes
    requires HEADER <= |b| && k < 7 && Start(b, k) + Counted(b, k) <= |b|
  {
    b[Start(b, k)..Start(b, k) + Counted(b, k)]
  }

  function NodeOf(i: Bytes, blank: bool): Node {
    if blank then BNode(i) else Resource(i)
  }

  /** The C library's strncmp against the XMLLiteral URI comes out equal for any text it starts with. */
  predicate LooksXml(uri: Bytes) {
    uri != [] && uri <= XML_LITERAL
  }

  lemma StartsGrow(b: Bytes, j: nat, k: nat)
    requires HEADER <= |b| && j <= k <= 7
    ensures Start(b, j) <= Start(b, k)
    ensures j < k ==> Start(b, j) + Counted(b, j) <= Start(b, k)
  {
    if j < k {
      StartsGrow(b, j, k - 1);
    }
  }

  /** The statement in a record, unless the record is too short for its lengths. */
  function Parse(b: Bytes): Option<Full> {
    if |b| < HEADER || Start(b, 7) > |b| then None
    else
      var m := b[28];
      assert forall k :: 0 <= k < 7 ==> Start(b, k) + Counted(b, k) <= |b| by {
        forall k | 0 <= k < 7
          ensures Start(b, k) + Counted(b, k) <= |b|
        {
          StartsGrow(b, k, 7);
        }
      }
      var dt := TextAt(b, 4);
      var obj :=
        if Bit(m, 1) then Literal(TextAt(b, 2), TextAt(b, 3), if dt == [] then None else Some(dt), LooksXml(dt))
        else NodeOf(TextAt(b, 2), Bit(m, 8));
      var context := if TextAt(b, 5) == [] then None else Some(NodeOf(TextAt(b, 5), Bit(m, 16)));
      var node := if TextAt(b, 6) == [] then None else Some(TextAt(b, 6));
      Some(Full(Statement(NodeOf(TextAt(b, 0), Bit(m, 2)), NodeOf(TextAt(b, 1), Bit(m, 4)), obj, context), node, false))
  }

  // --- reading what was written ---

  lemma {:induction false} LengthsAt(ts: seq<Bytes>, k: nat)
    requires (forall j :: 0 <= j < |ts| ==> |ts[j]| < WORD) && k < |ts|
    ensures |Lengths(ts)| == 4 * |ts|
    ensures Lengths(ts)[4 * k..4 * k + 4] == PackInt(|ts[k]|)
  {
    hide PackInt;
    var front := ts[..|ts| - 1];
    if k < |front| {
      LengthsAt(front, k);
    } else if front != [] {
      LengthsAt(front, 0);
    }
  }

  lemma FieldOf(b: Bytes, k: nat, n: nat)
    requires n < WORD && 4 * k + 4 <= |b| && b[4 * k..4 * k + 4] == PackInt(n)
    ensures Field(b, k) == n
  {
    UnpackPack(n);
    var t := b[4 * k..];
    var p := b[4 * k..4 * k + 4];
    assert t[0] == p[0] && t[1] == p[1] && t[2] == p[2] && t[3] == p[3];
  }

  lemma FlatNext(ts: seq<Bytes>, k: nat)
    requires k < |ts|
    ensures Flat(ts[..k + 1]) == Flat(ts[..k]) + ts[k]
  {
    assert ts[..k + 1][..k] == ts[..k];
  }

  lemma {:induction false} FlatPart(ts: seq<Bytes>, k: nat)
    requires k <= |ts|
    ensures |Flat(ts[..k])| <= |Flat(ts)|
    ensures Flat(ts)[..|Flat(ts[..k])|] == Flat(ts[..k])
    decreases |ts| - k
  {
    if k < |ts| {
      FlatNext(ts, k);
      FlatPart(ts, k + 1);
      assert Flat(ts[..k + 1])[..|Flat(ts[..k])|] == Flat(ts[..k]);
    } else {
      assert ts[..k] == ts;
    }
  }

  lemma OnlyLiterals(f: Full)
    ensures !f.st.obj.Literal? ==> Texts(f)[3] == [] && Texts(f)[4] == []
  {
  }

  /** The shape of a record: its lengths, its types, its texts. */
  lemma RecordShape(f: Full)
    requires Storable(f)
    ensures var b, ts := Record(f), Texts(f);
      && |b| == HEADER + |Flat(ts)| + 1 && b[28] == Mask(f)
      && (forall k :: 0 <= k < 7 ==> Counted(b, k) == |ts[k]|)
      && b[HEADER..HEADER + |Flat(ts)|] == Flat(ts)
  {
    hide Texts, Mask, Flat, Lengths, PackInt, Bit, Field;
    var b, ts := Record(f), Texts(f);
    LengthsAt(ts, 0);
    MaskBits(f);
    OnlyLiterals(f);
    forall k | 0 <= k < 7
      ensures Counted(b, k) == |ts[k]|
    {
      LengthsAt(ts, k);
      assert b[4 * k..4 * k + 4] == Lengths(ts)[4 * k..4 * k + 4];
      FieldOf(b, k, |ts[k]|);
    }
  }

  /** The four bytes at a position say n, the most significant first. */
  predicate Says(b: Bytes, at: nat, n: nat) {
    && at + 4 <= |b|
    && b[at] as nat * 0x1_000000 + b[at + 1] as nat * 0x1_0000 + b[at + 2] as nat * 0x1_00 + b[at + 3] as nat == n
  }

  lemma LengthSays(ts: seq<Bytes>, k: nat, b: Bytes)
    requires (forall j :: 0 <= j < |ts| ==> |ts[j]| < WORD) && k < |ts| && Lengths(ts) <= b
    ensures Says(b, 4 * k, |ts[k]|)
  {
    hide PackInt, Lengths;
    LengthsAt(ts, k);
    UnpackPack(|ts[k]|);
    UnpackDigits(PackInt(|ts[k]|));
    assert b[4 * k..4 * k + 4] == Lengths(ts)[4 * k..4 * k + 4];
    var four := b[4 * k..4 * k + 4];
    assert b[4 * k] == four[0] && b[4 * k + 1] == four[1] && b[4 * k + 2] == four[2] && b[4 * k + 3] == four[3];
  }

  lemma SevenTexts(a: Bytes, b: Bytes, c: Bytes, d: Bytes, e: Bytes, g: Bytes, h: Bytes)
    ensures Flat([a, b, c, d, e, g, h]) == a + b + c + d + e + g + h
  {
    var ts := [a, b, c, d, e, g, h];
    FlatNext(ts, 0);
    FlatNext(ts, 1);
    FlatNext(ts, 2);
    FlatNext(ts, 3);
    FlatNext(ts, 4);
    FlatNext(ts, 5);
    FlatNext(ts, 6);
    assert ts[..7] == ts && ts[..0] == [];
    assert Flat(ts[..0]) == [] && [] + a == a;
    hide Flat;
  }

  /** A record byte by byte: seven lengths, the type byte, and the texts. */
  lemma RecordBytes(f: Full)
    requires Storable(f)
    ensures var b := Record(f);
      && Says(b, 0, |Identifier(f.st.subj)|) && Says(b, 4, |Identifier(f.st.pred)|) && Says(b, 8, |Text(f.st.obj)|)
      && Says(b, 12, |Lang(f.st.obj)|) && Says(b, 16, |TypeUri(f.st.obj)|)
      && Says(b, 20, |ContextId(f.st)|) && Says(b, 24, |NodeId(f)|)
    ensures |Record(f)| > 29 && Record(f)[28] ==
      (if f.st.obj.Literal? then 1 else 0) + (if f.st.subj.BNode? then 2 else 0)
      + (if f.st.pred.BNode? then 4 else 0) + (if f.st.obj.BNode? then 8 else 0)
      + (if f.st.context.Some? && f.st.context.value.BNode? then 16 else 0) + (if f.reified then 32 else 0)
    ensures Record(f)[29..] == Identifier(f.st.subj) + Identifier(f.st.pred) + Text(f.st.obj) + Lang(f.st.obj)
      + TypeUri(f.st.obj) + ContextId(f.st) + NodeId(f) + [0]
  {
    var b, ts := Record(f), Texts(f);
    hide Flat, Lengths;
    LengthsAt(ts, 0);
    LengthSays(ts, 0, b);
    LengthSays(ts, 1, b);
    LengthSays(ts, 2, b);
    LengthSays(ts, 3, b);
    LengthSays(ts, 4, b);
    LengthSays(ts, 5, b);
    LengthSays(ts, 6, b);
    SevenTexts(ts[0], ts[1], ts[2], ts[3], ts[4], ts[5], ts[6]);
    assert b[29..] == Flat(ts) + [0];
    hide Says, Identifier, Text, Lang, TypeUri, ContextId, NodeId;
  }

  lemma {:induction false} StartOf(b: Bytes, ts: seq<Bytes>, k: nat)
    requires HEADER <= |b| && |ts| == 7 && k <= 7
    requires forall j :: 0 <= j < 7 ==> Counted(b, j) == |ts[j]|
    ensures Start(b, k) == HEADER + |Flat(ts[..k])|
  {
    hide Field, Counted;
    if k > 0 {
      StartOf(b, ts, k - 1);
      FlatNext(ts, k - 1);
    } else {
      assert ts[..0] == [];
    }
  }

  lemma SliceOfSlice(s: Bytes, lo: nat, hi: nat, i: nat, j: nat)
    requires lo <= hi <= |s| && i <= j <= hi - lo
    ensures s[lo..hi][i..j] == s[lo + i..lo + j]
  {
    var u, v := s[lo..hi][i..j], s[lo + i..lo + j];
    assert forall x :: 0 <= x < |u| ==> u[x] == v[x];
  }

  lemma TextOf(b: Bytes, ts: seq<Bytes>, k: nat)
    requires |ts| == 7 && k < 7 && HEADER + |Flat(ts)| <= |b|
    requires forall j :: 0 <= j < 7 ==> Counted(b, j) == |ts[j]|
    requires b[HEADER..HEADER + |Flat(ts)|] == Flat(ts)
    ensures Start(b, k) + Counted(b, k) <= |b| && TextAt(b, k) == ts[k]
  {
    hide Field, Counted, Flat;
    StartOf(b, ts, k);
    FlatNext(ts, k);
    FlatPart(ts, k + 1);
    var n := |Flat(ts[..k])|;
    var m := n + |ts[k]|;
    SliceOfSlice(Flat(ts), 0, m, n, m);
    assert Flat(ts)[0..m] == Flat(ts[..k + 1]) && Flat(ts[..k + 1])[n..m] == ts[k];
    SliceOfSlice(b, HEADER, HEADER + |Flat(ts)|, n, m);
  }

  lemma MaskBits(f: Full)
    ensures Bit(Mask(f), 1) == f.st.obj.Literal? && Bit(Mask(f), 2) == f.st.subj.BNode?
    ensures Bit(Mask(f), 4) == f.st.pred.BNode? && Bit(Mask(f), 8) == f.st.obj.BNode?
    ensures Bit(Mask(f), 16) == (f.st.context.Some? && f.st.context.value.BNode?)
  {
    SixFlags(f.st.obj.Literal?, f.st.subj.BNode?, f.st.pred.BNode?, f.st.obj.BNode?,
      f.st.context.Some? && f.st.context.value.BNode?, f.reified);
  }

  lemma SixFlags(a: bool, b: bool, c: bool, d: bool, e: bool, g: bool)
    ensures var m := Flag(a, 1) + Flag(b, 2) + Flag(c, 4) + Flag(d, 8) + Flag(e, 16) + Flag(g, 32);
      m < 64 && Bit(m, 1) == a && Bit(m, 2) == b && Bit(m, 4) == c && Bit(m, 8) == d && Bit(m, 16) == e
  {
  }

  // --- what comes back ---

  /** A literal that comes back as it was. */
  predicate SameLiteral(o: Node) {
    o.Literal? ==> o.dataType != Some([]) && (o.parseLiteral <==> LooksXml(TypeUri(o)))
  }

  /** A statement that comes back as it was: nothing present is empty, the mark of a reified
      statement is not set, and the literal is one to be read as XML exactly if its datatype is
      the XMLLiteral URI or the start of it. */
  predicate Canonical(f: Full) {
    && !f.reified && f.node != Some([]) && (f.st.context.Some? ==> Identifier(f.st.context.value) != [])
    && SameLiteral(f.st.obj)
  }

  /** What a statement comes back as. */
  function Restored(f: Full): Full {
    var o := f.st.obj;
    var obj :=
      if !o.Literal? then o
      else Literal(o.text, o.lang, if TypeUri(o) == [] then None else o.dataType, LooksXml(TypeUri(o)));
    var context := if ContextId(f.st) == [] then None else f.st.context;
    Full(f.st.(obj := obj, context := context), if NodeId(f) == [] then None else f.node, false)
  }

  lemma {:induction false} ParseRecord(f: Full)
    requires Storable(f)
    ensures Parse(Record(f)) == Some(Restored(f))
  {
    hide Flat, Mask, Record, LooksXml, Bit, Field, Counted, Start, TextAt;
    var b, ts := Record(f), Texts(f);
    RecordShape(f);
    MaskBits(f);
    StartOf(b, ts, 7);
    assert ts[..7] == ts;
    TextOf(b, ts, 0);
    TextOf(b, ts, 1);
    TextOf(b, ts, 2);
    TextOf(b, ts, 3);
    TextOf(b, ts, 4);
    TextOf(b, ts, 5);
    TextOf(b, ts, 6);
  }

  /** Decoding a record gives the statement back exactly if it is canonical. */
  lemma RecordRoundTrip(f: Full)
    requires Storable(f)
    ensures Parse(Record(f)) == Some(f) <==> Canonical(f)
  {
    hide Record, Parse, LooksXml;
    ParseRecord(f);
  }

  /** A literal that insert accepts, and that comes back as an XML literal: its datatype is only the
      start of the XMLLiteral URI. */
  lemma PrefixExample(f: Full, o: Node)
    requires Storable(f) && f.st.obj == o
    requires |XML_LITERAL| >= 4 && o == Literal([], [], Some(XML_LITERAL[..4]), false)
    ensures WellTyped(o) && Parse(Record(f)) == Some(Restored(f))
    ensures Restored(f).st.obj == Literal([], [], Some(XML_LITERAL[..4]), true)
  {
    ParseRecord(f);
    hide Record, Parse;
    assert |XML_LITERAL| == 53;
  }

  // --- the buffers ---

  /** Write a length into the record, as a four-byte integer. */
  method PutInt(buff: array<byte>, i: nat, n: nat) returns (i': nat)
    requires n < WORD && i + 4 <= buff.Length
    modifies buff
    ensures i' == i + 4 && buff[..i'] == old(buff[..i]) + PackInt(n)
  {
    i' := Put(buff, i, PackInt(n));
  }

  lemma LengthsNext(ts: seq<Bytes>, k: nat)
    requires k < |ts| && forall j :: 0 <= j < |ts| ==> |ts[j]| < WORD
    ensures Lengths(ts[..k + 1]) == Lengths(ts[..k]) + PackInt(|ts[k]|)
  {
    assert ts[..k + 1][..k] == ts[..k];
  }

  /** Fill in a record: the lengths, the mask, the texts, and a zero. */
  method WriteRecord(buff: array<byte>, f: Full) returns (size: nat)
    requires Storable(f) && |Record(f)| <= buff.Length
    modifies buff
    ensures size == |Record(f)| && buff[..size] == Record(f)
  {
    hide Mask, Texts, PackInt, Flat, Lengths;
    var ts := Texts(f);
    LengthsAt(ts, 0);
    assert |Record(f)| == HEADER + |Flat(ts)| + 1;
    var i := 0;
    StartEmpty();
    assert buff[..0] == [] && ts[..0] == [];
    for k := 0 to 7
      invariant i == 4 * k && buff[..i] == Lengths(ts[..k])
    {
      LengthsNext(ts, k);
      i := PutInt(buff, i, |ts[k]|);
    }
    assert ts[..7] == ts;
    i := Put(buff, i, [Mask(f)]);
    for k := 0 to 7
      invariant i == HEADER + |Flat(ts[..k])| && i <= buff.Length
      invariant buff[..i] == Lengths(ts) + [Mask(f)] + Flat(ts[..k])
    {
      FlatNext(ts, k);
      FlatPart(ts, k + 1);
      i := Put(buff, i, ts[k]);
      Regroup(Lengths(ts) + [Mask(f)], Flat(ts[..k]), ts[k], []);
    }
    size := Put(buff, i, [0]);
  }

  lemma StartEmpty()
    ensures Flat([]) == [] && Lengths([]) == []
  {
  }

  /** The next text of the record. */
  method TakeText(data: array<byte>, n: nat, p: nat, k: nat) returns (text: Bytes, p': nat)
    requires HEADER <= n <= data.Length && k < 7 && Start(data[..n], k) == p
    requires Start(data[..n], k) + Counted(data[..n], k) <= n && Counted(data[..n], k) == Field(data[..n], k)
    ensures text == TextAt(data[..n], k) && p' == Start(data[..n], k + 1)
  {
    ghost var b := data[..n];
    var length := UnpackInt(data[4 * k..4 * k + 4]);
    assert b[4 * k..][..4] == data[4 * k..4 * k + 4];
    assert length == Field(b, k);
    text := data[p..p + length];
    p' := p + length;
    assert text == b[p..p + length];
  }

  /** The record of fetch_statement, taken apart text by text. */
  method ReadRecord(data: array<byte>, n: nat) returns (f: Full)
    requires n <= data.Length && Parse(data[..n]).Some?
    ensures Parse(data[..n]) == Some(f)
  {
    hide LooksXml, Field, Start, TextAt;
    ghost var b := data[..n];
    ParseFits(b);
    var mask := data[28];
    assert mask == b[28];
    var text, p := TakeText(data, n, HEADER, 0);
    var subj := NodeOf(text, Bit(mask, 2));
    text, p := TakeText(data, n, p, 1);
    var pred := NodeOf(text, Bit(mask, 4));
    text, p := TakeText(data, n, p, 2);
    var obj: Node;
    if Bit(mask, 1) {
      var lang, uri;
      lang, p := TakeText(data, n, p, 3);
      uri, p := TakeText(data, n, p, 4);
      obj := Literal(text, lang, if uri == [] then None else Some(uri), LooksXml(uri));
    } else {
      obj := NodeOf(text, Bit(mask, 8));
    }
    text, p := TakeText(data, n, p, 5);
    var context := if text == [] then None else Some(NodeOf(text, Bit(mask, 16)));
    text, p := TakeText(data, n, p, 6);
    var node := if text == [] then None else Some(text);
    f := Full(Statement(subj, pred, obj, context), node, false);
  }

  lemma ParseFits(b: Bytes)
    requires Parse(b).Some?
    ensures HEADER <= |b| && Start(b, 0) == HEADER
    ensures forall k :: 0 <= k < 7 ==> Start(b, k) + Counted(b, k) <= |b|
    ensures !Bit(b[28], 1) ==> Start(b, 5) == Start(b, 3)
  {
    forall k | 0 <= k < 7
      ensures Start(b, k) + Counted(b, k) <= |b|
    {
      StartsGrow(b, k, 7);
    }
    assert Start(b, 5) == Start(b, 3) + Counted(b, 3) + Counted(b, 4);
  }

  /** Writing a statement down and reading it back. */
  method RecordThereAndBack(f: Full) returns (g: Full)
    requires Storable(f)
    ensures g == Restored(f) && (g == f <==> Canonical(f))
  {
    hide Record, Parse, Restored, Canonical;
    ParseRecord(f);
    RecordRoundTrip(f);
    var buff := new byte[|Record(f)|](_ => 0);
    var n := WriteRecord(buff, f);
    g := ReadRecord(buff, n);
  }
}
