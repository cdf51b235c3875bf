/** Statements, and the keys of the index tables they are posted under. */
module Statements {
  import opened ByteString
  import opened Options

  datatype Node =
    | Resource(identifier: Bytes)
    | BNode(identifier: Bytes)
    | Literal(text: Bytes, lang: Bytes, dataType: Option<Bytes>, parseLiteral: bool)

  datatype Statement = Statement(subj: Node, pred: Node, obj: Node, context: Option<Node>)

  function Ascii(s: string): Bytes {
    seq(|s|, i requires 0 <= i < |s| => s[i] as int % 256)
  }

  const XML_LITERAL := Ascii("http://www.w3.org/1999/02/22-rdf-syntax-ns#XMLLiteral")
  const XSD_DATE := Ascii("http://www.w3.org/2001/XMLSchema#date")
  const XSD_DATETIME := Ascii("http://www.w3.org/2001/XMLSchema#dateTime")

  /** What the store takes from elsewhere: digests, case folding, and the parsing of values. */
  datatype World = World(
    nodeHash: Node -> nat,
    statementHash: Statement -> nat,
    fold: Bytes -> Bytes,
    integer: Bytes -> Option<int>,
    double: Bytes -> Option<real>,
    date: Bytes -> Option<Bytes>)

  /** The keys of the nine index tables; the constructor says which table. */
  datatype Key =
    | Subject(hash: nat)
    | Predicate(hash: nat)
    | Object(hash: nat)
    | Context(hash: nat)
    | Language(tag: Bytes)
    | Datatype(uri: Bytes)
    | Integer(i: int)
    | Double(r: real)
    | Date(d: Bytes)

  // --- the keys of a statement ---

  function DateKeys(w: World, o: Node): set<Key>
    requires o.Literal?
  {
    if o.dataType.Some? && (o.dataType.value == XSD_DATE || o.dataType.value == XSD_DATETIME) && w.date(o.text).Some?
    then {Date(w.date(o.text).value)} else {}
  }

  /** A number is posted as an integer if it can be, and otherwise as a double. */
  function NumberKeys(w: World, o: Node): set<Key>
    requires o.Literal?
  {
    if w.integer(o.text).Some? then {Integer(w.integer(o.text).value)}
    else if w.double(o.text).Some? then {Double(w.double(o.text).value)}
    else {}
  }

  function LiteralKeys(w: World, o: Node): set<Key> {
    if !o.Literal? then {}
    else
      (if o.lang != [] then {Language(w.fold(o.lang))} else {})
      + (if o.dataType.Some? && o.dataType.value != [] then {Datatype(o.dataType.value)} else {})
      + DateKeys(w, o) + NumberKeys(w, o)
  }

  function NodeKeys(w: World, s: Statement): set<Key> {
    {Subject(w.nodeHash(s.subj)), Predicate(w.nodeHash(s.pred)), Object(w.nodeHash(s.obj))}
    + if s.context.Some? then {Context(w.nodeHash(s.context.value))} else {}
  }

  function Keys(w: World, s: Statement): set<Key> {
    NodeKeys(w, s) + LiteralKeys(w, s.obj)
  }

  lemma NodeKeysIn(w: World, s: Statement)
    ensures forall h :: Subject(h) in Keys(w, s) <==> h == w.nodeHash(s.subj)
    ensures forall h :: Predicate(h) in Keys(w, s) <==> h == w.nodeHash(s.pred)
    ensures forall h :: Object(h) in Keys(w, s) <==> h == w.nodeHash(s.obj)
    ensures forall h :: Context(h) in Keys(w, s) <==> s.context.Some? && h == w.nodeHash(s.context.value)
  {
  }

  /** A statement has an integer key exactly if its object is a literal that reads as that integer, and a
      double key exactly if it reads as that double and not as an integer. */
  lemma NumberKeysIn(w: World, s: Statement)
    ensures forall i :: Integer(i) in Keys(w, s) <==> s.obj.Literal? && w.integer(s.obj.text) == Some(i)
    ensures forall r :: Double(r) in Keys(w, s) <==>
      s.obj.Literal? && w.integer(s.obj.text) == None && w.double(s.obj.text) == Some(r)
  {
  }

  /** The object is a literal of one of the two datatypes of dates. */
  predicate Dated(o: Node) {
    o.Literal? &&
      (o.dataType == Some(Ascii("http://www.w3.org/2001/XMLSchema#date"))
        || o.dataType == Some(Ascii("http://www.w3.org/2001/XMLSchema#dateTime")))
  }

  lemma DateKeysIn(w: World, s: Statement)
    ensures Dated(s.obj) ==> s.obj.Literal?
    ensures forall d :: Date(d) in Keys(w, s) <==> Dated(s.obj) && w.date(s.obj.text) == Some(d)
  {
  }

  lemma AsciiIs(s: string, i: nat)
    requires i < |s| && s[i] < 128 as char
    ensures |Ascii(s)| == |s| && Ascii(s)[i] == s[i] as int
  {
  }

  /** rdf:parseType="Literal" and the XMLLiteral datatype must come together. */
  predicate WellTyped(o: Node) {
    o.Literal? && o.dataType.Some? ==> (o.parseLiteral <==> o.dataType.value == XML_LITERAL)
  }

  /** A literal is refused exactly if it has a datatype, and that is the XMLLiteral URI without the
      parse type or another one with it. */
  lemma RefusedLiterals(o: Node)
    requires o.Literal?
    ensures WellTyped(o) <==> match o.dataType
      case None => true
      case Some(uri) => o.parseLiteral == (uri == Ascii("http://www.w3.org/1999/02/22-rdf-syntax-ns#XMLLiteral"))
  {
  }

  // --- the order of values in a range table ---

  /** The tables that are searched by value. */
  predicate SameTable(a: Key, b: Key) {
    || (a.Integer? && b.Integer?)
    || (a.Double? && b.Double?)
    || (a.Date? && b.Date?)
  }

  /** True value order; serialised dates compare as strings. */
  predicate Before(a: Key, b: Key) {
    || (a.Integer? && b.Integer? && a.i < b.i)
    || (a.Double? && b.Double? && a.r < b.r)
    || (a.Date? && b.Date? && Less(a.d, b.d))
  }

  lemma BeforeIsTotal(a: Key, b: Key)
    requires SameTable(a, b)
    ensures !Before(a, a)
    ensures a == b || Before(a, b) || Before(b, a)
    ensures !(Before(a, b) && Before(b, a))
  {
    if a.Date? {
      KeyOrderIsTotal(a.d, b.d);
    }
  }

  lemma BeforeIsTransitive(a: Key, b: Key, c: Key)
    requires Before(a, b) && Before(b, c)
    ensures Before(a, c)
  {
    if a.Date? {
      LessTransitive(a.d, b.d, c.d);
    }
  }
}
