/** The three run-length formats: zero runs ("nulls"), general runs ("rle") and sparse
    bitmaps ("bits"). Each writes literal strings behind a one-byte header and runs as
    tokens of one to five bytes; they differ in what counts as a run and in the tokens. */
module RunFormat {
  import opened ByteString
  import opened Options
  import opened Runs

  datatype Coder = Nulls | Rle | Bits

  /** The longest literal string, and what its header adds to the length. */
  function MaxLit(f: Coder): nat {
    if f == Bits then 120 else 127
  }

  function Bias(f: Coder): nat {
    if f == Bits then 7 else 0
  }

  /** A byte with one bit set. */
  predicate Single(c: byte) {
    c in [1, 2, 4, 8, 16, 32, 64, 128]
  }

  /** The position of the only bit of c. */
  function SingleBit(c: byte): nat
    requires Single(c)
  {
    if c == 1 then 0 else if c == 2 then 1 else if c == 4 then 2 else if c == 8 then 3
    else if c == 16 then 4 else if c == 32 then 5 else if c == 64 then 6 else 7
  }

  function BitAlone(k: nat): byte
    requires k < 8
  {
    [1, 2, 4, 8, 16, 32, 64, 128][k]
  }

  // --- encoding ---

  /** How many bytes from i on go into one token; 0 if the byte at i is a literal. */
  function TokenLen(f: Coder, s: Bytes, i: nat): (n: nat)
    requires i < |s|
    ensures n <= RunLen(s, i)
  {
    var r := RunLen(s, i);
    match f
    case Nulls => if r >= 4 || (r >= 2 && s[i] == 0) then r else 0
    case Rle => if r >= 3 then r else 0
    case Bits => if s[i] == 0 then r else if Single(s[i]) then 1 else if r >= 4 then r else 0
  }

  /** The token for n bytes c; only two bytes of a long length are written. */
  function Token(f: Coder, c: byte, n: nat): Bytes {
    var lo, hi := n % 256, n / 256 % 256;
    match f
    case Nulls =>
      if c == 0 then if n < 128 then [n + 0x80] else if n < 256 then [0x81, n] else [0x80, lo, hi]
      else if n < 256 then [0, n, c] else [0, 0, lo, hi, c]
    case Rle =>
      if n < 256 && c == 0 then [0, n]
      else if n < 256 && c == 32 then [0x82, n]
      else if n < 128 then [n + 0x80, c]
      else if n < 256 then [0x80, n, c]
      else [0x81, lo, hi, c]
    case Bits =>
      if c == 0 then if n < 127 then [n + 1 + 0x80] else if n < 381 then [0x81, n - 127] else [0x80, lo, hi]
      else if Single(c) then [SingleBit(c)]
      else if n < 256 then [0x81, 0xFE, n, c]
      else [0x81, 0xFF, lo, hi, c]
  }

  /** Literal bytes behind their header. */
  function Flush(f: Coder, lit: Bytes): Bytes
    requires |lit| <= MaxLit(f)
  {
    if lit == [] then [] else [|lit| + Bias(f)] + lit
  }

  /** The stream from position i on, when lit is waiting for its header. */
  function EncodeFrom(f: Coder, s: Bytes, i: nat, lit: Bytes): Bytes
    requires i <= |s| && |lit| < MaxLit(f)
    decreases |s| - i
  {
    if i == |s| then Flush(f, lit)
    else
      var n := TokenLen(f, s, i);
      if n > 0 then Flush(f, lit) + Token(f, s[i], n) + EncodeFrom(f, s, i + n, [])
      else if |lit| + 1 == MaxLit(f) then Flush(f, lit + [s[i]]) + EncodeFrom(f, s, i + 1, [])
      else EncodeFrom(f, s, i + 1, lit + [s[i]])
  }

  function Encode(f: Coder, s: Bytes): Bytes {
    EncodeFrom(f, s, 0, [])
  }

  // --- decoding ---

  function Word(lo: byte, hi: byte): nat {
    lo as int + 256 * hi as int
  }

  /** The first token of a stream, unless the stream ends inside it. */
  function First(f: Coder, b: Bytes): (h: Head)
    requires b != []
    ensures h.Some? ==> 1 <= h.value.0 <= |b|
  {
    match f
    case Nulls => FirstNulls(b)
    case Rle => FirstRle(b)
    case Bits => FirstBits(b)
  }

  function FirstNulls(b: Bytes): (h: Head)
    requires b != []
    ensures h.Some? ==> 1 <= h.value.0 <= |b|
  {
    var c := b[0];
    if 0 < c < 128 then
      if |b| <= c then None else Some((1 + c, b[1..1 + c]))
    else if c == 0 then
      if |b| < 3 then None
      else if b[1] != 0 then Some((3, Repeat(b[2], b[1])))
      else if |b| < 5 then None
      else Some((5, Repeat(b[4], Word(b[2], b[3]))))
    else if c == 0x80 then
      if |b| < 3 then None else Some((3, Repeat(0, Word(b[1], b[2]))))
    else if c == 0x81 then
      if |b| < 2 then None else Some((2, Repeat(0, b[1])))
    else Some((1, Repeat(0, c - 128)))
  }

  function FirstRle(b: Bytes): (h: Head)
    requires b != []
    ensures h.Some? ==> 1 <= h.value.0 <= |b|
  {
    var c := b[0];
    if 0 < c < 128 then
      if |b| <= c then None else Some((1 + c, b[1..1 + c]))
    else if c == 0 then
      if |b| < 2 then None else Some((2, Repeat(0, b[1])))
    else if c == 0x82 then
      if |b| < 2 then None else Some((2, Repeat(32, b[1])))
    else if c == 0x80 then
      if |b| < 3 then None else Some((3, Repeat(b[2], b[1])))
    else if c == 0x81 then
      if |b| < 4 then None else Some((4, Repeat(b[3], Word(b[1], b[2]))))
    else
      if |b| < 2 then None else Some((2, Repeat(b[1], c - 128)))
  }

  function FirstBits(b: Bytes): (h: Head)
    requires b != []
    ensures h.Some? ==> 1 <= h.value.0 <= |b|
  {
    var c := b[0];
    if c < 8 then Some((1, [BitAlone(c)]))
    else if c < 128 then
      if |b| <= c - 7 then None else Some((1 + (c - 7), b[1..1 + (c - 7)]))
    else if c == 0x80 then
      if |b| < 3 then None else Some((3, Repeat(0, Word(b[1], b[2]))))
    else if c == 0x81 then
      if |b| < 2 then None
      else if b[1] == 0xFE then if |b| < 4 then None else Some((4, Repeat(b[3], b[2])))
      else if b[1] == 0xFF then if |b| < 5 then None else Some((5, Repeat(b[4], Word(b[2], b[3]))))
      else Some((2, Repeat(0, b[1] as int + 127)))
    else Some((1, Repeat(0, c - 129)))
  }

  /** What a stream expands to, or None if it ends inside a token. */
  function Expand(f: Coder, b: Bytes): Option<Bytes> {
    if b == [] then Some([])
    else match First(f, b)
      case None => None
      case Some(t) => Prefixed(t.1, Expand(f, b[t.0..]))
  }

  // --- every stream the coders write expands, token by token ---

  lemma {:induction false} ExpandToken(f: Coder, t: Bytes, p: Bytes, rest: Bytes)
    requires t != [] && First(f, t + rest) == Some((|t|, p))
    ensures Expand(f, t + rest) == Prefixed(p, Expand(f, rest))
  {
    assert (t + rest)[|t|..] == rest;
  }

  lemma {:induction false} ExpandFlush(f: Coder, lit: Bytes, rest: Bytes)
    requires |lit| <= MaxLit(f)
    ensures Expand(f, Flush(f, lit) + rest) == Prefixed(lit, Expand(f, rest))
  {
    hide Expand;
    if lit == [] {
      assert Flush(f, lit) + rest == rest;
      PrefixedTwice([], [], Expand(f, rest));
    } else {
      var t := Flush(f, lit);
      assert (t + rest)[1..1 + |lit|] == lit;
      ExpandToken(f, t, lit, rest);
    }
  }

  lemma TwoBytes(n: nat)
    ensures Word(n % 256, n / 256 % 256) == n % 0x1_0000
    ensures n < 0x1_0000 ==> n % 0x1_0000 == n
  {
  }

  /** A token that can come out of TokenLen. */
  predicate Written(f: Coder, c: byte, n: nat) {
    match f
    case Nulls => n >= 4 || (n >= 2 && c == 0)
    case Rle => n >= 3
    case Bits => if c == 0 then n >= 1 else if Single(c) then n == 1 else n >= 4
  }

  lemma TokenWritten(f: Coder, s: Bytes, i: nat)
    requires i < |s| && TokenLen(f, s, i) > 0
    ensures Written(f, s[i], TokenLen(f, s, i))
  {
  }

  lemma {:induction false} FirstToken(f: Coder, c: byte, n: nat, rest: Bytes)
    requires Written(f, c, n)
    ensures First(f, Token(f, c, n) + rest) == Some((|Token(f, c, n)|, Repeat(c, n % 0x1_0000)))
  {
    hide Repeat;
    var t := Token(f, c, n);
    var b := t + rest;
    TwoBytes(n);
    assert forall k :: 0 <= k < |t| ==> b[k] == t[k];
    if f == Bits && Single(c) {
      assert BitAlone(SingleBit(c)) == c;
      RepeatOnce(c);
    }
  }

  lemma RepeatOnce(c: byte)
    ensures Repeat(c, 1) == [c]
  {
  }

  lemma {:induction false} ExpandFlushToken(f: Coder, lit: Bytes, c: byte, n: nat, rest: Bytes)
    requires |lit| <= MaxLit(f) && Written(f, c, n)
    ensures Expand(f, Flush(f, lit) + Token(f, c, n) + rest) ==
      Prefixed(lit + Repeat(c, n % 0x1_0000), Expand(f, rest))
  {
    hide Expand, First, Token, Flush;
    var t := Token(f, c, n);
    assert Flush(f, lit) + t + rest == Flush(f, lit) + (t + rest);
    FirstToken(f, c, n, rest);
    ExpandFlush(f, lit, t + rest);
    TokenNotEmpty(f, c, n);
    ExpandToken(f, t, Repeat(c, n % 0x1_0000), rest);
    PrefixedTwice(lit, Repeat(c, n % 0x1_0000), Expand(f, rest));
  }

  lemma TokenNotEmpty(f: Coder, c: byte, n: nat)
    ensures Token(f, c, n) != []
  {
  }

  /** What is left of s from i on: a written run keeps its length modulo two bytes. */
  function Kept(f: Coder, s: Bytes, i: nat): Bytes
    requires i <= |s|
    decreases |s| - i
  {
    if i == |s| then []
    else
      var n := TokenLen(f, s, i);
      if n > 0 then Repeat(s[i], n % 0x1_0000) + Kept(f, s, i + n)
      else [s[i]] + Kept(f, s, i + 1)
  }

  lemma {:induction false} ExpandAtToken(f: Coder, s: Bytes, i: nat, lit: Bytes)
    requires i < |s| && |lit| < MaxLit(f) && TokenLen(f, s, i) > 0
    requires var j := i + TokenLen(f, s, i); Expand(f, EncodeFrom(f, s, j, [])) == Some(Kept(f, s, j))
    ensures Expand(f, EncodeFrom(f, s, i, lit)) == Prefixed(lit, Some(Kept(f, s, i)))
  {
    hide Expand, First, Token, Flush, TokenLen;
    var n := TokenLen(f, s, i);
    var rest, kept := EncodeFrom(f, s, i + n, []), Kept(f, s, i + n);
    var p := Repeat(s[i], n % 0x1_0000);
    assert EncodeFrom(f, s, i, lit) == Flush(f, lit) + Token(f, s[i], n) + rest;
    TokenWritten(f, s, i);
    ExpandFlushToken(f, lit, s[i], n, rest);
    PrefixedTwice(lit, p, Some(kept));
    assert Kept(f, s, i) == p + kept;
  }

  lemma {:induction false} ExpandAtLiteral(f: Coder, s: Bytes, i: nat, lit: Bytes)
    requires i < |s| && |lit| < MaxLit(f) && TokenLen(f, s, i) == 0
    requires var lit' := lit + [s[i]];
      if |lit'| == MaxLit(f) then Expand(f, EncodeFrom(f, s, i + 1, [])) == Some(Kept(f, s, i + 1))
      else Expand(f, EncodeFrom(f, s, i + 1, lit')) == Prefixed(lit', Some(Kept(f, s, i + 1)))
    ensures Expand(f, EncodeFrom(f, s, i, lit)) == Prefixed(lit, Some(Kept(f, s, i)))
  {
    hide Expand, First, Token, Flush, TokenLen;
    var lit' := lit + [s[i]];
    PrefixedTwice(lit, [s[i]], Some(Kept(f, s, i + 1)));
    if |lit'| == MaxLit(f) {
      ExpandFlush(f, lit', EncodeFrom(f, s, i + 1, []));
    }
  }

  /** Expanding a written stream gives back what was kept of every run. */
  lemma {:induction false} ExpandEncodeFrom(f: Coder, s: Bytes, i: nat, lit: Bytes)
    requires i <= |s| && |lit| < MaxLit(f)
    ensures Expand(f, EncodeFrom(f, s, i, lit)) == Prefixed(lit, Some(Kept(f, s, i)))
    decreases |s| - i
  {
    hide Expand, First, TokenLen;
    if i == |s| {
      ExpandFlush(f, lit, []);
      assert Flush(f, lit) + [] == Flush(f, lit);
      ExpandNothing(f);
    } else {
      var n := TokenLen(f, s, i);
      var j := if n > 0 then i + n else i + 1;
      PrefixedTwice([], [], Some(Kept(f, s, j)));
      if n > 0 {
        ExpandEncodeFrom(f, s, j, []);
        ExpandAtToken(f, s, i, lit);
      } else {
        ExpandEncodeFrom(f, s, j, if |lit| + 1 == MaxLit(f) then [] else lit + [s[i]]);
        ExpandAtLiteral(f, s, i, lit);
      }
    }
  }

  lemma ExpandNothing(f: Coder)
    ensures Expand(f, []) == Some([])
  {
  }

  lemma ExpandEncode(f: Coder, s: Bytes)
    ensures Expand(f, Encode(f, s)) == Some(Kept(f, s, 0))
  {
    ExpandEncodeFrom(f, s, 0, []);
    PrefixedTwice([], [], Some(Kept(f, s, 0)));
  }

  // --- when nothing is lost ---

  /** A run too long for its length bytes; the bits coder never joins single-bit bytes. */
  predicate LostAt(f: Coder, s: Bytes, i: nat)
    requires i < |s|
  {
    RunLen(s, i) > LONGEST && !(f == Bits && Single(s[i]))
  }

  /** No byte value is repeated more than 65535 times in a row, single-bit bytes apart for bits. */
  predicate ShortRuns(f: Coder, s: Bytes) {
    forall i :: 0 <= i < |s| ==> !LostAt(f, s, i)
  }

  lemma {:induction false} KeptRun(f: Coder, s: Bytes, i: nat)
    requires i < |s| && TokenLen(f, s, i) > 0 && !LostAt(f, s, i)
    requires Kept(f, s, i + TokenLen(f, s, i)) == s[i + TokenLen(f, s, i)..]
    ensures Kept(f, s, i) == s[i..]
  {
    var n := TokenLen(f, s, i);
    assert n % 0x1_0000 == n;
    hide RunLen, TokenLen;
    PartOfRun(s, i, n);
    hide Repeat;
    assert s[i..] == s[i..i + n] + s[i + n..];
  }

  lemma {:induction false} KeptAll(f: Coder, s: Bytes, i: nat)
    requires i <= |s| && forall k :: i <= k < |s| ==> !LostAt(f, s, k)
    ensures Kept(f, s, i) == s[i..]
    decreases |s| - i
  {
    hide RunLen, TokenLen, LostAt;
    if i < |s| {
      var n := TokenLen(f, s, i);
      if n > 0 {
        KeptAll(f, s, i + n);
        assert !LostAt(f, s, i);
        KeptRun(f, s, i);
      } else {
        KeptAll(f, s, i + 1);
      }
    }
  }

  lemma {:induction false} KeptNoMore(f: Coder, s: Bytes, i: nat)
    requires i <= |s|
    ensures |Kept(f, s, i)| <= |s| - i
    decreases |s| - i
  {
    hide RunLen, TokenLen;
    if i < |s| {
      var n := TokenLen(f, s, i);
      KeptNoMore(f, s, if n > 0 then i + n else i + 1);
    }
  }

  lemma LostTokens(f: Coder, s: Bytes, i: nat, k: nat)
    requires i <= k < |s| && LostAt(f, s, k)
    requires k < i + TokenLen(f, s, i)
    ensures TokenLen(f, s, i) % 0x1_0000 < TokenLen(f, s, i)
  {
    RunLenInside(s, i, k);
    RunIsMaximal(s, i);
    hide RunLen;
    assert TokenLen(f, s, i) == RunLen(s, i);
  }

  lemma {:induction false} KeptLess(f: Coder, s: Bytes, i: nat, k: nat)
    requires i <= k < |s| && LostAt(f, s, k)
    ensures |Kept(f, s, i)| < |s| - i
    decreases |s| - i
  {
    hide RunLen, LostAt, Repeat, TokenLen;
    if k == i {
      LostIsWritten(f, s, i);
    }
    var n := TokenLen(f, s, i);
    if n > 0 {
      if k < i + n {
        LostTokens(f, s, i, k);
        KeptNoMore(f, s, i + n);
      } else {
        KeptLess(f, s, i + n, k);
      }
    } else {
      KeptLess(f, s, i + 1, k);
    }
  }

  lemma LostIsWritten(f: Coder, s: Bytes, i: nat)
    requires i < |s| && LostAt(f, s, i)
    ensures TokenLen(f, s, i) > 0
  {
  }

  /** Every stream the coder writes expands; it gives back the data exactly when no run is
      longer than its two length bytes can count. */
  lemma {:induction false} RoundTrip(f: Coder, s: Bytes)
    ensures Expand(f, Encode(f, s)).Some? && |Expand(f, Encode(f, s)).value| <= |s|
    ensures Expand(f, Encode(f, s)) == Some(s) <==> ShortRuns(f, s)
  {
    ExpandEncode(f, s);
    KeptNoMore(f, s, 0);
    if ShortRuns(f, s) {
      KeptAll(f, s, 0);
    } else {
      var k :| 0 <= k < |s| && LostAt(f, s, k);
      KeptLess(f, s, 0, k);
    }
  }

  /** 65536 zeros are written as a run of length zero, and expand to nothing. */
  lemma LongRunExample(f: Coder)
    ensures Expand(f, Encode(f, Repeat(0, 0x1_0000))) == Some([])
  {
    var s := Repeat(0, 0x1_0000);
    RunLenIs(s, 0, 0x1_0000);
    hide RunLen;
    assert TokenLen(f, s, 0) == 0x1_0000;
    assert Kept(f, s, 0) == Repeat(0, 0) + Kept(f, s, 0x1_0000);
    ExpandEncode(f, s);
  }

  // --- size ---

  /** An upper bound on the rest of a stream, with l literals waiting and m bytes to come. */
  function SizeFrom(f: Coder, l: nat, m: nat): nat {
    if f == Bits then (if l == 0 then m + (m + 1) / 2 else l + 1 + m + m / 2)
    else l + m + (l + m + 126) / 127
  }

  /** The nulls and rle streams are at most one byte in 127 longer than the data; a bits
      stream can be half as long again. */
  function SizeBound(f: Coder, n: nat): nat {
    SizeFrom(f, 0, n)
  }

  /** In the nulls and rle formats a run saves the header it may close early; bits only breaks even. */
  lemma TokenSaves(f: Coder, c: byte, n: nat)
    requires Written(f, c, n)
    ensures |Token(f, c, n)| <= if f == Bits then n else n - 1
  {
  }

  lemma {:induction false} EncodeFromSize(f: Coder, s: Bytes, i: nat, lit: Bytes)
    requires i <= |s| && |lit| < MaxLit(f)
    ensures |EncodeFrom(f, s, i, lit)| <= SizeFrom(f, |lit|, |s| - i)
    ensures |EncodeFrom(f, s, i, lit)| >= if lit == [] then 0 else |lit| + 1
    decreases |s| - i
  {
    hide TokenLen, Token;
    if i < |s| {
      var n := TokenLen(f, s, i);
      if n > 0 {
        TokenWritten(f, s, i);
        TokenSaves(f, s[i], n);
        EncodeFromSize(f, s, i + n, []);
      } else if |lit| + 1 == MaxLit(f) {
        EncodeFromSize(f, s, i + 1, []);
      } else {
        EncodeFromSize(f, s, i + 1, lit + [s[i]]);
      }
    }
  }

  lemma EncodeSize(f: Coder, s: Bytes)
    ensures |Encode(f, s)| <= SizeBound(f, |s|)
  {
    EncodeFromSize(f, s, 0, []);
  }
}
