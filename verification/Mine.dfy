/** The repeated-block coder: a segment is either a block of up to 127 bytes with the number
    of times it repeats, or a string of literal bytes. */
module Mine {
  import opened ByteString
  import opened Options
  import opened Runs

  /** The largest repetition count the search goes to, and the largest period. */
  const MAXRUN := 0x1000_0000
  const MAXVAR := 127

  datatype Segment = Rep(block: Bytes, count: nat) | Lit(bytes: Bytes)

  // --- what a segment stands for ---

  function Times(p: Bytes, k: nat): (r: Bytes)
    ensures |r| == |p| * k
  {
    if k == 0 then [] else Times(p, k - 1) + p
  }

  function Played(g: Segment): Bytes {
    match g
    case Rep(block, count) => Times(block, count)
    case Lit(bytes) => bytes
  }

  function PlayedAll(gs: seq<Segment>): Bytes {
    if gs == [] then [] else Played(gs[0]) + PlayedAll(gs[1..])
  }

  // --- how it is written ---

  /** The length, the period if it is not one, and what kind of segment follows. */
  function Header(len: nat, vlen: nat, comp: bool): (h: Bytes)
    requires vlen <= MAXVAR
    ensures |h| >= 1
  {
    var kind := (if vlen > 1 then 64 else 0) + if comp then 128 else 0;
    var period := if vlen > 1 then [vlen] else [];
    if len > 4095 then
      [32 + len / 0x1000000 % 16 + kind, len / 0x10000 % 256, len / 0x100 % 256, len % 256] + period
    else if len > 15 then
      [16 + len / 0x100 % 16 + kind, len % 256] + period
    else
      [len % 16 + kind] + period
  }

  /** A segment the coder can come up with. */
  predicate Valid(g: Segment) {
    match g
    case Rep(block, count) => 1 <= |block| <= MAXVAR && 2 <= count <= MAXRUN
    case Lit(bytes) => 1 <= |bytes| <= MAXVAR
  }

  function Packed(g: Segment): Bytes
    requires Valid(g)
  {
    match g
    case Rep(block, count) => Header(count, |block|, true) + block
    case Lit(bytes) => Header(|bytes|, 1, false) + bytes
  }

  predicate AllValid(gs: seq<Segment>) {
    forall i :: 0 <= i < |gs| ==> Valid(gs[i])
  }

  function PackedAll(gs: seq<Segment>): Bytes
    requires AllValid(gs)
  {
    if gs == [] then [] else Packed(gs[0]) + PackedAll(gs[1..])
  }

  // --- how it is read ---

  /** The length in a header, and the bytes it takes; None if the stream ends inside it. */
  function LengthOf(b: Bytes): (r: Option<(nat, nat)>)
    requires b != []
    ensures r.Some? ==> 1 <= r.value.1 <= |b|
  {
    var c := b[0];
    if Bit(c, 32) then
      if |b| < 4 then None
      else Some(((((c as int % 32) * 256 + b[1] as int) * 256 + b[2] as int) * 256 + b[3] as int, 4))
    else if Bit(c, 16) then
      if |b| < 2 then None else Some(((c as int % 16) * 256 + b[1] as int, 2))
    else Some((c as int % 16, 1))
  }

  /** What the first segment of a stream says: Some(None) where the expander stops. A period
      of zero, or of a literal, is never written and means no segment here. */
  function First(b: Bytes): (r: Option<Option<(nat, Segment)>>)
    requires b != []
    ensures r.Some? && r.value.Some? ==> 1 <= r.value.value.0 <= |b|
  {
    var c := b[0];
    if c == 0 then Some(None)
    else match LengthOf(b)
      case None => None
      case Some(t) =>
        var (len, at) := t;
        if Bit(c, 64) && (at == |b| || b[at] == 0 || !Bit(c, 128)) then None
        else
          var vlen: nat, at: nat := if Bit(c, 64) then b[at] else 1, if Bit(c, 64) then at + 1 else at;
          if len == 0 then Some(None)
          else if Bit(c, 128) then
            if at + vlen > |b| then None else Some(Some((at + vlen, Rep(b[at..at + vlen], len))))
          else if at + len > |b| then None
          else Some(Some((at + len, Lit(b[at..at + len]))))
  }

  /** What a stream expands to, or None if it ends inside a segment. */
  function Expand(b: Bytes): Option<Bytes> {
    if b == [] then Some([])
    else match First(b)
      case None => None
      case Some(None) => Some([])
      case Some(Some(t)) => Prefixed(Played(t.1), Expand(b[t.0..]))
  }

  // --- reading back what was written ---

  /** The flags and the four low bits of a first byte do not disturb each other. */
  lemma LeadByte(size: nat, q: nat, period: bool, comp: bool)
    requires size in {0, 16, 32} && q < 16
    ensures var c := size + q + (if period then 64 else 0) + if comp then 128 else 0;
      && c < 256 && c % 16 == q && (size == 32 ==> c % 32 == q)
      && Bit(c, 32) == (size == 32) && (size != 32 ==> Bit(c, 16) == (size == 16))
      && Bit(c, 64) == period && Bit(c, 128) == comp
  {
  }

  /** The length in a header: all of it, unless it is the one count too large for four bits more. */
  lemma {:induction false} LengthOfHeader(len: nat, vlen: nat, comp: bool, rest: Bytes)
    requires 1 <= len <= MAXRUN && 1 <= vlen <= MAXVAR
    ensures var h := Header(len, vlen, comp);
      var n := if vlen > 1 then |h| - 1 else |h|;
      && n >= 1 && LengthOf(h + rest) == Some((if len == MAXRUN then 0 else len, n))
      && h[0] != 0 && Bit(h[0], 128) == comp && Bit(h[0], 64) == (vlen > 1)
      && (vlen > 1 ==> h[n] == vlen)
  {
    hide Bit;
    var h := Header(len, vlen, comp);
    assert (h + rest)[0] == h[0];
    if len > 4095 {
      LeadByte(32, len / 0x1000000 % 16, vlen > 1, comp);
      assert (h + rest)[1] == h[1] && (h + rest)[2] == h[2] && (h + rest)[3] == h[3];
      FourParts(len);
    } else if len > 15 {
      LeadByte(16, len / 0x100 % 16, vlen > 1, comp);
      assert (h + rest)[1] == h[1];
      TwoParts(len);
    } else {
      LeadByte(0, len % 16, vlen > 1, comp);
    }
  }

  lemma TwoParts(len: nat)
    requires len < 4096
    ensures len / 0x100 % 16 * 256 + len % 256 == len
  {
  }

  lemma FourParts(len: nat)
    requires len <= MAXRUN
    ensures var hi := len / 0x1000000 % 16;
      ((hi * 256 + len / 0x10000 % 256) * 256 + len / 0x100 % 256) * 256 + len % 256 ==
        if len == MAXRUN then 0 else len
  {
    assert len / 0x10000 == len / 0x1000000 * 256 + len / 0x10000 % 256;
    assert len / 0x100 == len / 0x10000 * 256 + len / 0x100 % 256;
    assert len < MAXRUN ==> len / 0x1000000 < 16;
  }

  /** A repetition count the header has no room for. */
  predicate Overflows(g: Segment) {
    g.Rep? && g.count == MAXRUN
  }

  lemma {:induction false} FirstOfPacked(g: Segment, rest: Bytes)
    requires Valid(g)
    ensures Packed(g) + rest != []
    ensures First(Packed(g) + rest) == if Overflows(g) then Some(None) else Some(Some((|Packed(g)|, g)))
  {
    hide Header, LengthOf, Bit;
    match g
    case Rep(block, count) =>
      var h := Header(count, |block|, true);
      LengthOfHeader(count, |block|, true, block + rest);
      assert Packed(g) + rest == h + (block + rest);
      assert (h + (block + rest))[|h|..|h| + |block|] == block;
    case Lit(bytes) =>
      var h := Header(|bytes|, 1, false);
      LengthOfHeader(|bytes|, 1, false, bytes + rest);
      assert Packed(g) + rest == h + (bytes + rest);
      assert (h + (bytes + rest))[|h|..|h| + |bytes|] == bytes;
  }

  /** What the expander gets to: the segments before the first count it reads as zero. */
  function Kept(gs: seq<Segment>): Bytes {
    if gs == [] || Overflows(gs[0]) then [] else Played(gs[0]) + Kept(gs[1..])
  }

  lemma {:induction false} ExpandPacked(gs: seq<Segment>)
    requires AllValid(gs)
    ensures Expand(PackedAll(gs)) == Some(Kept(gs))
  {
    hide Packed, First, Played, Valid;
    if gs != [] {
      var rest := PackedAll(gs[1..]);
      assert Valid(gs[0]);
      FirstOfPacked(gs[0], rest);
      ExpandPacked(gs[1..]);
      assert (Packed(gs[0]) + rest)[|Packed(gs[0])|..] == rest;
    }
  }

  lemma PlayedSome(g: Segment)
    requires Valid(g)
    ensures |Played(g)| > 0
  {
    match g
    case Rep(block, count) => assert Times(block, count) == Times(block, count - 1) + block;
    case Lit(bytes) =>
  }

  lemma {:induction false} KeptIsPart(gs: seq<Segment>)
    requires AllValid(gs)
    ensures |Kept(gs)| <= |PlayedAll(gs)|
    ensures Kept(gs) == PlayedAll(gs) <==> forall i :: 0 <= i < |gs| ==> !Overflows(gs[i])
  {
    hide Played, Valid, Overflows;
    if gs != [] {
      assert Valid(gs[0]);
      PlayedSome(gs[0]);
      KeptIsPart(gs[1..]);
      if Overflows(gs[0]) {
        assert Kept(gs) == [];
      } else {
        assert Kept(gs)[|Played(gs[0])|..] == Kept(gs[1..]);
        assert PlayedAll(gs)[|Played(gs[0])|..] == PlayedAll(gs[1..]);
        assert forall i :: 1 <= i < |gs| ==> gs[i] == gs[1..][i - 1];
        assert forall i :: 0 <= i < |gs[1..]| ==> gs[1..][i] == gs[i + 1];
      }
    }
  }

  // --- which segment the coder picks ---

  const OPTIMAL: real := 0.0001

  function Ratio(vlen: nat, len: nat): real
    requires len > 0
  {
    vlen as real / len as real
  }

  /** Is the block of v bytes at i followed by itself, with a byte to spare? */
  predicate Candidate(s: Bytes, i: nat, v: nat) {
    1 <= v <= MAXVAR && i + 2 * v < |s| && s[i..i + v] == s[i + v..i + 2 * v]
  }

  /** How far k blocks of v bytes reach. */
  function Span(k: nat, v: nat): nat {
    k * v
  }

  lemma SpanOf(k: nat, v: nat)
    ensures Span(k + 1, v) == Span(k, v) + v && Span(2, v) == 2 * v && Span(1, v) == v && Span(k, 1) == k
    ensures v >= 1 ==> Span(k, v) >= k
  {
  }

  /** How often the block repeats, when k times are known. */
  function Extend(s: Bytes, i: nat, v: nat, k: nat): (n: nat)
    requires 2 <= k <= MAXRUN
    ensures k <= n <= MAXRUN
    decreases MAXRUN - k
  {
    if i + Span(k, v) + v < |s| && k < MAXRUN && s[i..i + v] == s[i + Span(k, v)..i + Span(k, v) + v]
    then Extend(s, i, v, k + 1) else k
  }

  function Count(s: Bytes, i: nat, v: nat): (n: nat)
    ensures 2 <= n <= MAXRUN
  {
    Extend(s, i, v, 2)
  }

  function RatioAt(s: Bytes, i: nat, v: nat): real {
    Ratio(v, Count(s, i, v))
  }

  /** v is the first period that is good enough, or else the first of the best ones. */
  ghost predicate Best(s: Bytes, i: nat, v: nat) {
    && Candidate(s, i, v)
    && (forall w: nat :: w < v && Candidate(s, i, w) ==>
      RatioAt(s, i, w) > OPTIMAL && RatioAt(s, i, w) > RatioAt(s, i, v))
    && (RatioAt(s, i, v) > OPTIMAL ==>
      forall w: nat :: w > v && Candidate(s, i, w) ==> RatioAt(s, i, w) >= RatioAt(s, i, v))
  }

  predicate Distinct(b: Bytes) {
    forall x, y :: 0 <= x < y < |b| ==> b[x] != b[y]
  }

  /** The literal string goes on until a byte comes back. */
  predicate Longest(s: Bytes, i: nat, n: nat) {
    && 1 <= n <= MAXVAR && i + n <= |s| && Distinct(s[i..i + n])
    && (i + n == |s| || n == MAXVAR || s[i + n] in s[i..i + n])
  }

  /** g is what the coder makes of the bytes from i on. */
  ghost predicate Chosen(s: Bytes, i: nat, g: Segment) {
    match g
    case Rep(block, count) =>
      Best(s, i, |block|) && block == s[i..i + |block|] && count == Count(s, i, |block|)
    case Lit(bytes) =>
      (forall v: nat :: !Candidate(s, i, v)) && Longest(s, i, |bytes|) && bytes == s[i..i + |bytes|]
  }

  ghost predicate ChosenAll(s: Bytes, i: nat, gs: seq<Segment>)
    decreases |gs|
  {
    gs != [] ==> Chosen(s, i, gs[0]) && ChosenAll(s, i + |Played(gs[0])|, gs[1..])
  }

  /** gs is the cut of s into segments. */
  ghost predicate Cut(s: Bytes, gs: seq<Segment>) {
    AllValid(gs) && ChosenAll(s, 0, gs) && PlayedAll(gs) == s
  }

  lemma LongestOnce(s: Bytes, i: nat, m: nat, n: nat)
    requires Longest(s, i, m) && Longest(s, i, n)
    ensures m <= n
  {
    if n < m {
      var b, few := s[i..i + m], s[i..i + n];
      forall x | 0 <= x < n
        ensures few[x] != s[i + n]
      {
        assert b[x] != b[n];
      }
    }
  }

  /** The choice leaves no freedom. */
  lemma ChosenOnce(s: Bytes, i: nat, g: Segment, h: Segment)
    requires Chosen(s, i, g) && Chosen(s, i, h)
    ensures g == h
  {
    hide Candidate, Count, Ratio, Longest;
    if g.Lit? && h.Lit? {
      LongestOnce(s, i, |g.bytes|, |h.bytes|);
      LongestOnce(s, i, |h.bytes|, |g.bytes|);
    } else if g.Rep? && h.Rep? {
      assert !(|g.block| < |h.block|) && !(|h.block| < |g.block|);
    }
  }

  /** The repetitions that are counted are really there, and leave at least a byte. */
  lemma {:induction false} ExtendIsTimes(s: Bytes, i: nat, v: nat, k: nat)
    requires 2 <= k <= MAXRUN && 1 <= v && i + v <= |s|
    requires i + Span(k, v) < |s| && s[i..i + Span(k, v)] == Times(s[i..i + v], k)
    ensures var n := Extend(s, i, v, k);
      i + Span(n, v) < |s| && s[i..i + Span(n, v)] == Times(s[i..i + v], n)
    decreases MAXRUN - k
  {
    if i + Span(k, v) + v < |s| && k < MAXRUN && s[i..i + v] == s[i + Span(k, v)..i + Span(k, v) + v] {
      SpanOf(k, v);
      hide Span;
      assert s[i..i + Span(k + 1, v)] == s[i..i + Span(k, v)] + s[i + Span(k, v)..i + Span(k, v) + v];
      ExtendIsTimes(s, i, v, k + 1);
    }
  }

  lemma CountIsTimes(s: Bytes, i: nat, v: nat)
    requires Candidate(s, i, v)
    ensures var n := Count(s, i, v);
      i + Span(n, v) < |s| && s[i..i + Span(n, v)] == Times(s[i..i + v], n)
  {
    SpanOf(1, v);
    hide Span;
    var p := s[i..i + v];
    assert Times(p, 0) == [] && Times(p, 1) == p && Times(p, 2) == p + p;
    assert s[i..i + 2 * v] == s[i..i + v] + s[i + v..i + 2 * v];
    ExtendIsTimes(s, i, v, 2);
  }

  lemma ChosenRep(s: Bytes, i: nat, g: Segment)
    requires Chosen(s, i, g)
    ensures Valid(g)
    ensures match g
      case Rep(block, count) =>
        Candidate(s, i, |block|) && block == s[i..i + |block|] && count == Count(s, i, |block|)
      case Lit(bytes) => i + |bytes| <= |s| && bytes == s[i..i + |bytes|]
  {
    hide Count, RatioAt;
  }

  /** A chosen segment plays the bytes it was chosen for. */
  lemma ChosenPlays(s: Bytes, i: nat, g: Segment)
    requires Chosen(s, i, g)
    ensures Valid(g) && i + |Played(g)| <= |s| && Played(g) == s[i..i + |Played(g)|]
    ensures g.Rep? ==> i + Span(g.count, |g.block|) < |s|
  {
    hide Valid, Span, Count, Times, Candidate;
    ChosenRep(s, i, g);
    hide Chosen;
    if g.Rep? {
      RepPlays(s, i, |g.block|);
    }
  }

  lemma RepPlays(s: Bytes, i: nat, v: nat)
    requires Candidate(s, i, v)
    ensures i + v <= |s|
    ensures var r := Times(s[i..i + v], Count(s, i, v));
      |r| == Span(Count(s, i, v), v) && i + |r| < |s| && r == s[i..i + |r|]
  {
    hide Span, Count, Times;
    CountIsTimes(s, i, v);
    TimesSize(s[i..i + v], Count(s, i, v));
  }

  lemma TimesSize(p: Bytes, k: nat)
    ensures |Times(p, k)| == Span(k, |p|)
  {
  }

  // --- the round trip ---

  lemma {:induction false} ShortChosen(s: Bytes, i: nat, gs: seq<Segment>, k: nat)
    requires AllValid(gs) && ChosenAll(s, i, gs) && k < |gs| && Overflows(gs[k])
    ensures |s| > MAXRUN
    decreases |gs|
  {
    hide Chosen, Valid;
    if k == 0 {
      ChosenPlays(s, i, gs[0]);
      assert Valid(gs[0]);
      BlockSize(gs[0]);
      SpanOf(MAXRUN, |gs[0].block|);
    } else {
      assert forall x :: 0 <= x < |gs[1..]| ==> gs[1..][x] == gs[x + 1];
      ShortChosen(s, i + |Played(gs[0])|, gs[1..], k - 1);
    }
  }

  lemma BlockSize(g: Segment)
    requires Valid(g) && g.Rep?
    ensures |g.block| >= 1
  {
  }

  /** The expander gives the data back exactly when no segment repeats 2^28 times, as none
      does in data of up to 2^28 bytes. Otherwise it stops early. */
  lemma {:induction false} RoundTrip(s: Bytes, gs: seq<Segment>)
    requires Cut(s, gs)
    ensures Expand(PackedAll(gs)).Some?
    ensures Expand(PackedAll(gs)) == Some(s) <==> forall k :: 0 <= k < |gs| ==> !Overflows(gs[k])
    ensures |s| <= MAXRUN ==> Expand(PackedAll(gs)) == Some(s)
  {
    hide Overflows, Valid, ChosenAll;
    ExpandPacked(gs);
    KeptIsPart(gs);
    if k :| 0 <= k < |gs| && Overflows(gs[k]) {
      ShortChosen(s, 0, gs, k);
    }
  }

  lemma {:induction false} ExtendZeros(n: nat, k: nat)
    requires 2 <= k <= MAXRUN < n
    ensures Extend(Repeat(0, n), 0, 1, k) == MAXRUN
    decreases MAXRUN - k
  {
    if k < MAXRUN {
      SpanOf(k, 1);
      var s := Repeat(0, n);
      assert s[0..1] == [0] == s[k..k + 1];
      ExtendZeros(n, k + 1);
    }
  }

  /** One zero more than 2^28 expands to nothing at all. */
  lemma LongRunExample(gs: seq<Segment>)
    requires Cut(Repeat(0, MAXRUN + 1), gs)
    ensures Expand(PackedAll(gs)) == Some([])
  {
    var s := Repeat(0, MAXRUN + 1);
    assert gs != [];
    var g := gs[0];
    assert Candidate(s, 0, 1);
    ExtendZeros(MAXRUN + 1, 2);
    assert RatioAt(s, 0, 1) <= OPTIMAL;
    assert g.Rep? && |g.block| == 1;
    ExpandPacked(gs);
  }

  // --- compression ---

  lemma Part(a: array<byte>, n: nat, x: nat, y: nat)
    requires n <= a.Length && x <= y <= n
    ensures a[..n][x..y] == a[x..y]
  {
  }

  /** Count the repetitions of the block of v bytes at i. */
  method CountMatches(src: array<byte>, n: nat, i: nat, v: nat) returns (len: nat)
    requires n <= src.Length && Candidate(src[..n], i, v)
    ensures len == Count(src[..n], i, v)
  {
    hide Extend, Span;
    ghost var s := src[..n];
    SpanOf(2, v);
    len := 2;
    while i + Span(len, v) + v < n && len < MAXRUN && src[i..i + v] == src[i + Span(len, v)..i + Span(len, v) + v]
      invariant 2 <= len <= MAXRUN && Extend(s, i, v, len) == Count(s, i, v)
      decreases MAXRUN - len
    {
      ExtendMore(s, i, v, len);
      Part(src, n, i, i + v);
      Part(src, n, i + Span(len, v), i + Span(len, v) + v);
      len := len + 1;
    }
    ExtendMore(s, i, v, len);
    Part(src, n, i, i + v);
    if i + Span(len, v) + v < n {
      Part(src, n, i + Span(len, v), i + Span(len, v) + v);
    }
  }

  lemma ExtendMore(s: Bytes, i: nat, v: nat, k: nat)
    requires 2 <= k <= MAXRUN
    ensures Extend(s, i, v, k) ==
      if i + Span(k, v) + v < |s| && k < MAXRUN && s[i..i + v] == s[i + Span(k, v)..i + Span(k, v) + v]
      then Extend(s, i, v, k + 1) else k
  {
  }

  /** best is the first of the best periods below v, none of them good enough. */
  ghost predicate BestBelow(s: Bytes, i: nat, v: nat, best: nat) {
    && (forall w: nat :: w < v && Candidate(s, i, w) ==> RatioAt(s, i, w) > OPTIMAL)
    && (best == 0 ==> forall w: nat :: w < v ==> !Candidate(s, i, w))
    && (best > 0 ==> (best < v && Candidate(s, i, best)
      && (forall w: nat :: w < best && Candidate(s, i, w) ==> RatioAt(s, i, w) > RatioAt(s, i, best))
      && (forall w: nat :: best < w < v && Candidate(s, i, w) ==> RatioAt(s, i, w) >= RatioAt(s, i, best))))
  }

  lemma BestNext(s: Bytes, i: nat, v: nat, best: nat)
    requires BestBelow(s, i, v, best) && v >= 1
    requires Candidate(s, i, v) ==> RatioAt(s, i, v) > OPTIMAL
    ensures var better := Candidate(s, i, v) && (best == 0 || RatioAt(s, i, v) < RatioAt(s, i, best));
      BestBelow(s, i, v + 1, if better then v else best)
  {
    hide Candidate, RatioAt;
  }

  /** A period that is good enough ends the search; so does the end of the data. */
  lemma BestFound(s: Bytes, i: nat, v: nat, best: nat)
    requires BestBelow(s, i, v, best)
    ensures Candidate(s, i, v) && RatioAt(s, i, v) <= OPTIMAL ==> Best(s, i, v)
    ensures i + v * 2 >= |s| || v > MAXVAR ==>
      if best > 0 then Best(s, i, best) else forall w: nat :: !Candidate(s, i, w)
  {
    hide RatioAt;
  }

  lemma BestStart(s: Bytes, i: nat)
    ensures BestBelow(s, i, 1, 0)
  {
  }

  lemma RatioIs(s: Bytes, i: nat, v: nat)
    ensures RatioAt(s, i, v) == Ratio(v, Count(s, i, v))
  {
  }

  /** Look for the best repeated block at i: comp says whether there is one. */
  method FindBest(src: array<byte>, n: nat, i: nat) returns (comp: bool, vlen: nat, len: nat)
    requires i < n <= src.Length
    ensures comp ==> Best(src[..n], i, vlen) && len == Count(src[..n], i, vlen)
    ensures !comp ==> vlen == 1 && forall w: nat :: !Candidate(src[..n], i, w)
  {
    hide Count, Ratio, RatioAt, BestBelow, Best;
    ghost var s := src[..n];
    var matches := new nat[MAXVAR](_ => 0);
    var best: nat := 0;
    vlen := 1;
    BestStart(s, i);
    while i + vlen * 2 < n && vlen <= MAXVAR
      invariant 1 <= vlen <= MAXVAR + 1
      invariant BestBelow(s, i, vlen, best)
      invariant best > 0 ==> best < vlen && matches[best - 1] == Count(s, i, best)
      decreases MAXVAR + 1 - vlen
    {
      Part(src, n, i, i + vlen);
      Part(src, n, i + vlen, i + 2 * vlen);
      BestFound(s, i, vlen, best);
      matches[vlen - 1] := 0;
      if src[i..i + vlen] == src[i + vlen..i + 2 * vlen] {
        len := CountMatches(src, n, i, vlen);
        matches[vlen - 1] := len;
        var ratio := Ratio(vlen, len);
        RatioIs(s, i, vlen);
        RatioIs(s, i, best);
        if ratio <= OPTIMAL {
          comp := true;
          return;
        }
        if best == 0 || ratio < Ratio(best, matches[best - 1]) {
          BestNext(s, i, vlen, best);
          best := vlen;
        } else {
          BestNext(s, i, vlen, best);
        }
      } else {
        BestNext(s, i, vlen, best);
      }
      vlen := vlen + 1;
    }
    BestFound(s, i, vlen, best);
    if best > 0 && matches[best - 1] > 1 {
      comp, vlen, len := true, best, matches[best - 1];
    } else {
      comp, vlen, len := false, 1, 1;
    }
  }

  /** The number of literal bytes from i on: up to the first that comes back. */
  method CountLiterals(src: array<byte>, n: nat, i: nat) returns (len: nat)
    requires i < n <= src.Length
    ensures Longest(src[..n], i, len)
  {
    ghost var s := src[..n];
    len := 1;
    while len + i < n && len < MAXVAR
      invariant 1 <= len <= MAXVAR && i + len <= n && Distinct(s[i..i + len])
    {
      Part(src, n, i, i + len);
      DistinctMore(s, i, len);
      if len == 1 {
        if src[i] == src[i + len] {
          break;
        }
      } else if src[i + len] in src[i..i + len] {
        break;
      }
      len := len + 1;
    }
  }

  lemma DistinctMore(s: Bytes, i: nat, len: nat)
    requires i + len < |s| && Distinct(s[i..i + len])
    ensures s[i + len] !in s[i..i + len] ==> Distinct(s[i..i + len + 1])
    ensures len == 1 ==> (s[i + len] in s[i..i + len] <==> s[i] == s[i + len])
  {
    assert s[i..i + len + 1] == s[i..i + len] + [s[i + len]];
    assert len == 1 ==> s[i..i + len] == [s[i]];
  }

  lemma {:induction false} PackedMore(gs: seq<Segment>, g: Segment)
    requires AllValid(gs) && Valid(g)
    ensures AllValid(gs + [g]) && PackedAll(gs + [g]) == PackedAll(gs) + Packed(g)
    ensures PlayedAll(gs + [g]) == PlayedAll(gs) + Played(g)
  {
    hide Packed, Played, Valid;
    if gs == [] {
      assert gs + [g] == [g] && [g][1..] == [];
      assert Packed(g) + [] == Packed(g) && Played(g) + [] == Played(g);
      assert PackedAll([]) == [] && PlayedAll([]) == [];
      assert [] + Packed(g) == Packed(g) && [] + Played(g) == Played(g);
    } else {
      PackedMore(gs[1..], g);
      assert (gs + [g])[1..] == gs[1..] + [g];
    }
  }

  lemma {:induction false} ChosenMore(s: Bytes, i: nat, gs: seq<Segment>, g: Segment)
    requires ChosenAll(s, i, gs) && Chosen(s, i + |PlayedAll(gs)|, g)
    ensures ChosenAll(s, i, gs + [g])
    decreases |gs|
  {
    hide Played, Chosen;
    if gs != [] {
      ChosenMore(s, i + |Played(gs[0])|, gs[1..], g);
      assert (gs + [g])[1..] == gs[1..] + [g];
    } else {
      assert gs + [g] == [g] && [g][1..] == [];
    }
  }

  /** The length bytes of a header, its two flags still clear. */
  function Length(len: nat): (h: Bytes)
    ensures |h| >= 1 && h[0] < 64
  {
    if len > 4095 then
      [32 + len / 0x1000000 % 16, len / 0x10000 % 256, len / 0x100 % 256, len % 256]
    else if len > 15 then [16 + len / 0x100 % 16, len % 256]
    else [len % 16]
  }

  lemma HeaderIs(len: nat, vlen: nat, comp: bool)
    requires vlen <= MAXVAR
    ensures var h := Length(len) + if vlen > 1 then [vlen] else [];
      Header(len, vlen, comp) == h[0 := h[0] + (if vlen > 1 then 64 else 0) + if comp then 128 else 0]
  {
  }

  /** Set a flag that is still clear in the first byte of a header. */
  method Raise(out: array<byte>, l: nat, j: nat, flag: nat, ghost before: Bytes, ghost h: Bytes)
    requires |before| == l < j <= out.Length && out[..j] == before + h && h[0] as int + flag < 256
    modifies out
    ensures out[..j] == before + h[0 := h[0] as int + flag]
  {
    assert out[l] == out[..j][l] == h[0];
    out[l] := out[l] as int + flag;
    assert out[..j] == (before + h)[l := h[0] as int + flag];
  }

  method PutLength(out: array<byte>, l: nat, len: nat) returns (j: nat)
    requires l + |Length(len)| <= out.Length
    modifies out
    ensures j == l + |Length(len)| && out[..j] == old(out[..l]) + Length(len)
  {
    if len > 4095 {
      j := Put(out, l, [32 + len / 0x1000000 % 16, len / 0x10000 % 256, len / 0x100 % 256, len % 256]);
    } else if len > 15 {
      j := Put(out, l, [16 + len / 0x100 % 16, len % 256]);
    } else {
      j := Put(out, l, [len % 16]);
    }
  }

  /** Write the header of a segment. */
  method PutHeader(out: array<byte>, l: nat, len: nat, vlen: nat, comp: bool) returns (j: nat)
    requires 1 <= len <= MAXRUN && 1 <= vlen <= MAXVAR && l + |Header(len, vlen, comp)| <= out.Length
    modifies out
    ensures j == l + |Header(len, vlen, comp)| && out[..j] == old(out[..l]) + Header(len, vlen, comp)
  {
    ghost var before, h := out[..l], Length(len);
    HeaderIs(len, vlen, comp);
    hide Header, Length;
    j := PutLength(out, l, len);
    if vlen > 1 {
      j := Put(out, j, [vlen]);
      h := h + [vlen];
      assert out[..j] == before + h;
      Raise(out, l, j, 64, before, h);
      h := h[0 := h[0] + 64];
    }
    if comp {
      Raise(out, l, j, 128, before, h);
    }
  }

  /** A segment never takes more than twice the bytes it stands for. */
  lemma PackedSize(g: Segment)
    requires Valid(g)
    ensures |Packed(g)| <= 2 * |Played(g)|
  {
    if g.Rep? {
      SpanOf(g.count - 1, |g.block|);
      SpanOf(g.count - 2, |g.block|);
    }
  }

  /** The segment of a repetition, or of literal bytes. */
  function SegmentOf(s: Bytes, i: nat, comp: bool, v: nat, len: nat): Segment
    requires i <= |s| && if comp then i + v <= |s| else i + len <= |s|
  {
    if comp then Rep(s[i..i + v], len) else Lit(s[i..i + len])
  }

  lemma ChosenIs(s: Bytes, i: nat, comp: bool, v: nat, len: nat)
    requires i <= |s|
    requires if comp then Best(s, i, v) && len == Count(s, i, v)
      else v == 1 && Longest(s, i, len) && forall w: nat :: !Candidate(s, i, w)
    ensures 1 <= v <= MAXVAR && 1 <= len <= MAXRUN
    ensures i + (if comp then v else len) <= |s|
    ensures Chosen(s, i, SegmentOf(s, i, comp, v, len))
    ensures |Played(SegmentOf(s, i, comp, v, len))| == Span(len, v)
  {
    hide Count;
    if comp {
      assert |s[i..i + v]| == v;
    } else {
      assert |s[i..i + len]| == len;
    }
  }

  /** What a segment adds to the stream, to the cut, and to what they play. */
  lemma SegmentAdded(s: Bytes, i: nat, gs: seq<Segment>, g: Segment)
    requires i < |s| && AllValid(gs) && ChosenAll(s, 0, gs) && PlayedAll(gs) == s[..i]
    requires |PackedAll(gs)| <= 2 * i && Chosen(s, i, g)
    ensures var i' := i + |Played(g)|;
      && Valid(g) && i < i' <= |s| && AllValid(gs + [g]) && ChosenAll(s, 0, gs + [g])
      && PlayedAll(gs + [g]) == s[..i'] && PackedAll(gs + [g]) == PackedAll(gs) + Packed(g)
      && |PackedAll(gs + [g])| <= 2 * i'
  {
    hide Chosen, Valid, Packed, Played;
    ChosenPlays(s, i, g);
    PlayedSome(g);
    PackedSize(g);
    PackedMore(gs, g);
    ChosenMore(s, 0, gs, g);
    assert s[..i + |Played(g)|] == s[..i] + s[i..i + |Played(g)|];
  }

  lemma PackedIs(s: Bytes, i: nat, comp: bool, v: nat, len: nat)
    requires i + (if comp then v else len) <= |s| && 1 <= v <= MAXVAR && (!comp ==> v == 1)
    requires Valid(SegmentOf(s, i, comp, v, len))
    ensures Packed(SegmentOf(s, i, comp, v, len)) == Header(len, v, comp) + s[i..i + if comp then v else len]
  {
    hide Header;
  }

  /** Write the header of a segment, and its block or its literal bytes. */
  method PutSegment(src: array<byte>, out: array<byte>, n: nat, i: nat, l: nat, comp: bool, vlen: nat, len: nat)
    returns (j: nat)
    requires src != out && i <= n <= src.Length && 1 <= vlen <= MAXVAR && 1 <= len <= MAXRUN
    requires i + (if comp then vlen else len) <= n && (!comp ==> vlen == 1)
    requires Valid(SegmentOf(src[..n], i, comp, vlen, len))
    requires l + |Packed(SegmentOf(src[..n], i, comp, vlen, len))| <= out.Length
    modifies out
    ensures j <= out.Length
    ensures out[..j] == old(out[..l]) + Packed(SegmentOf(src[..n], i, comp, vlen, len))
  {
    hide Header, Packed, Valid, SegmentOf;
    ghost var before := out[..l];
    PackedIs(src[..n], i, comp, vlen, len);
    var k := if comp then vlen else len;
    Part(src, n, i, i + k);
    j := PutHeader(out, l, len, vlen, comp);
    Copy(src, i, out, j, k);
    j := j + k;
    Regroup(before, Header(len, vlen, comp), src[i..i + k], []);
  }

  /** compress_mine; it also gives the cut it has made, for the record. */
  method CompressMine(src: array<byte>, out: array<byte>, n: nat) returns (j: nat, ghost gs: seq<Segment>)
    requires src != out && n <= src.Length && 2 * n <= out.Length && 2 * n < 0x1_0000_0000
    modifies out
    ensures Cut(src[..n], gs) && j <= 2 * n && out[..j] == PackedAll(gs)
  {
    hide Best, Candidate, Count, Longest, Chosen, ChosenAll, Valid, AllValid, Packed, Played, PlayedAll, PackedAll;
    hide SegmentOf;
    ghost var s := src[..n];
    var i: nat := 0;
    j, gs := 0, [];
    CutStart(s);
    assert out[..0] == [] == s[..0];
    while i < n
      invariant i <= n && src[..n] == s && j <= out.Length
      invariant AllValid(gs) && ChosenAll(s, 0, gs) && PlayedAll(gs) == s[..i]
      invariant out[..j] == PackedAll(gs) && |PackedAll(gs)| <= 2 * i
    {
      var comp, vlen, len := FindBest(src, n, i);
      if !comp {
        len := CountLiterals(src, n, i);
      }
      ChosenIs(s, i, comp, vlen, len);
      ghost var g := SegmentOf(s, i, comp, vlen, len);
      SegmentAdded(s, i, gs, g);
      j := PutSegment(src, out, n, i, j, comp, vlen, len);
      gs := gs + [g];
      i := i + Span(len, vlen);
    }
    assert s[..n] == s;
  }

  lemma CutStart(s: Bytes)
    ensures AllValid([]) && ChosenAll(s, 0, []) && PlayedAll([]) == [] && PackedAll([]) == []
  {
  }

  // --- expansion ---

  lemma TimesOnce(c: byte, n: nat)
    ensures Times([c], n) == Repeat(c, n)
  {
    if n > 0 {
      TimesOnce(c, n - 1);
    }
  }

  /** Write a block len times over. */
  method FillBlocks(src: array<byte>, i: nat, vlen: nat, out: array<byte>, j: nat, len: nat)
    requires src != out && i + vlen <= src.Length && j + Span(len, vlen) <= out.Length
    modifies out
    ensures out[..j + Span(len, vlen)] == old(out[..j]) + Times(src[i..i + vlen], len)
  {
    hide Span;
    ghost var before, p := out[..j], src[i..i + vlen];
    var k: nat := 0;
    SpanFits(0, len, vlen);
    while k < len
      invariant k <= len && Span(k, vlen) <= Span(len, vlen)
      invariant out[..j + Span(k, vlen)] == before + Times(p, k)
    {
      SpanFits(k, len, vlen);
      Copy(src, i, out, j + Span(k, vlen), vlen);
      Regroup(before, Times(p, k), p, []);
      k := k + 1;
    }
  }

  lemma SpanFits(k: nat, len: nat, v: nat)
    requires k <= len
    ensures Span(k + 1, v) == Span(k, v) + v && Span(0, v) == 0 && Span(k, v) <= Span(len, v)
    ensures k < len ==> Span(k, v) + v <= Span(len, v)
  {
    SpanStep(k, v);
    hide Span;
    SpanGrows(k, len, v);
    if k < len {
      SpanGrows(k + 1, len, v);
    }
  }

  lemma SpanStep(k: nat, v: nat)
    ensures Span(k + 1, v) == Span(k, v) + v && Span(0, v) == 0
  {
  }

  lemma {:induction false} SpanGrows(k: nat, len: nat, v: nat)
    requires k <= len
    ensures Span(k, v) <= Span(len, v)
    decreases len
  {
    hide Span;
    if k < len {
      SpanGrows(k, len - 1, v);
      SpanStep(len - 1, v);
    }
  }

  /** out is what the bytes of b before i expand to. */
  ghost predicate Decoded(out: Bytes, b: Bytes, i: nat) {
    && i <= |b| && Expand(b).Some? && Expand(b[i..]).Some?
    && out + Expand(b[i..]).value == Expand(b).value
  }

  lemma DecodedStart(b: Bytes)
    requires Expand(b).Some?
    ensures Decoded([], b, 0)
  {
    assert b[0..] == b;
  }

  /** What the next segment adds; or nothing is left. */
  lemma DecodedNext(out: Bytes, b: Bytes, i: nat)
    requires Decoded(out, b, i) && i < |b|
    ensures First(b[i..]).Some?
    ensures match First(b[i..]).value
      case None => out == Expand(b).value
      case Some(t) => (i + t.0 <= |b| && Decoded(out + Played(t.1), b, i + t.0)
        && |out| + |Played(t.1)| <= |Expand(b).value|)
  {
    hide First, Played;
    var rest := b[i..];
    match First(rest).value
    case None =>
    case Some(t) =>
      assert rest[t.0..] == b[i + t.0..];
      Regroup(out, Played(t.1), Expand(rest[t.0..]).value, []);
  }

  lemma DecodedEnd(out: Bytes, b: Bytes)
    requires Decoded(out, b, |b|)
    ensures out == Expand(b).value
  {
    assert b[|b|..] == [];
  }

  lemma Inner(a: array<byte>, n: nat, i: nat, x: nat, k: nat)
    requires i <= x && x + k <= n <= a.Length
    ensures a[..n][i..][x - i..x - i + k] == a[x..x + k]
  {
    var u, v := a[..n][i..][x - i..x - i + k], a[x..x + k];
    assert forall y :: 0 <= y < k ==> u[y] == v[y];
  }

  /** The length in the header at i; `last` is the last byte read. */
  method ReadLength(src: array<byte>, n: nat, i: nat) returns (last: nat, len: nat)
    requires i < n <= src.Length && LengthOf(src[..n][i..]).Some?
    ensures i <= last < n && LengthOf(src[..n][i..]) == Some((len, last + 1 - i))
  {
    ghost var rest := src[..n][i..];
    assert forall k :: 0 <= k < n - i ==> rest[k] == src[i + k];
    var c := src[i];
    last := i;
    if Bit(c, 32) {
      len := c as int % 32;
      len := len * 256 + src[last + 1] as int;
      len := len * 256 + src[last + 2] as int;
      len := len * 256 + src[last + 3] as int;
      last := last + 3;
    } else {
      len := c as int % 16;
      if Bit(c, 16) {
        last := last + 1;
        len := len * 256 + src[last] as int;
      }
    }
  }

  /** Work out run length and period of the segment at i; `last` is the last byte of its header. */
  method ReadHeader(src: array<byte>, n: nat, i: nat) returns (last: nat, len: nat, vlen: nat, comp: bool)
    requires i < n <= src.Length && src[i] != 0 && First(src[..n][i..]).Some?
    ensures i <= last < n && (len == 0 <==> First(src[..n][i..]).value.None?)
    ensures len > 0 ==> var at := last + 1;
      && 1 <= vlen && (!comp ==> vlen == 1) && at + (if comp then vlen else len) <= n
      && First(src[..n][i..]).value ==
        Some((at - i + (if comp then vlen else len),
          if comp then Rep(src[at..at + vlen], len) else Lit(src[at..at + len])))
  {
    hide LengthOf, Bit;
    ghost var rest := src[..n][i..];
    assert rest[0] == src[i];
    last, len := ReadLength(src, n, i);
    vlen := 1;
    if Bit(src[i], 64) {
      last := last + 1;
      vlen := src[last];
      assert rest[last - i] == vlen;
    }
    comp := Bit(src[i], 128);
    if len > 0 {
      Inner(src, n, i, last + 1, if comp then vlen else len);
    }
  }

  lemma PlayedSpan(b: Bytes, len: nat, comp: bool)
    ensures comp ==> |Played(Rep(b, len))| == Span(len, |b|)
  {
  }

  /** Write out what the segment at i plays. */
  method PlaySegment(src: array<byte>, i: nat, out: array<byte>, j: nat, len: nat, vlen: nat, comp: bool)
    returns (i': nat, j': nat)
    requires src != out && len >= 1 && vlen >= 1 && (!comp ==> vlen == 1)
    requires i + (if comp then vlen else len) <= src.Length
    requires j + |Played(if comp then Rep(src[i..i + vlen], len) else Lit(src[i..i + len]))| <= out.Length
    modifies out
    ensures i' == i + (if comp then vlen else len) && j' <= out.Length
    ensures out[..j'] == old(out[..j]) + Played(if comp then Rep(src[i..i + vlen], len) else Lit(src[i..i + len]))
  {
    hide Times, Span;
    PlayedSpan(src[i..i + if comp then vlen else len], len, comp);
    SpanOf(len, 1);
    if comp {
      if vlen > 1 {
        FillBlocks(src, i, vlen, out, j, len);
      } else {
        TimesOnce(src[i], len);
        assert src[i..i + vlen] == [src[i]];
        Fill(out, j, src[i], len);
      }
      i' := i + vlen;
    } else {
      Copy(src, i, out, j, len);
      i' := i + len;
    }
    j' := j + Span(len, vlen);
  }

  /** expand_mine, on any stream that does not end inside a segment. */
  method ExpandMine(src: array<byte>, out: array<byte>, n: nat) returns (j: nat)
    requires src != out && n <= src.Length && Expand(src[..n]).Some?
    requires |Expand(src[..n]).value| <= out.Length
    modifies out
    ensures j <= out.Length && out[..j] == Expand(src[..n]).value
  {
    hide First, Expand, Decoded, Played;
    ghost var b := src[..n];
    var i: nat := 0;
    j := 0;
    DecodedStart(b);
    assert out[..0] == [];
    while i < n
      invariant i <= n && src[..n] == b && j <= out.Length
      invariant Decoded(out[..j], b, i)
      decreases n - i
    {
      DecodedNext(out[..j], b, i);
      ZeroStops(b[i..]);
      if src[i] == 0 {
        return;
      }
      var last, len, vlen, comp := ReadHeader(src, n, i);
      if len == 0 {
        return;
      }
      i, j := PlaySegment(src, last + 1, out, j, len, vlen, comp);
    }
    DecodedEnd(out[..j], b);
  }

  lemma ZeroStops(b: Bytes)
    requires b != []
    ensures b[0] == 0 ==> First(b) == Some(None)
  {
  }

  /** Compressing and expanding gives the data back, up to the largest length a header can count. */
  method MineThereAndBack(src: array<byte>, n: nat) returns (out: array<byte>, size: nat)
    requires n <= src.Length && n <= MAXRUN
    ensures fresh(out) && size <= out.Length && out[..size] == src[..n]
  {
    var mid := new byte[2 * n](_ => 0);
    var m, gs := CompressMine(src, mid, n);
    RoundTrip(src[..n], gs);
    out := new byte[n](_ => 0);
    size := ExpandMine(mid, out, m);
  }
}
