/** The run-length coders as they run: one scan over the data, a sentinel planted past its
    end, and a header byte that is filled in when its literal string closes. */
module RunCoders {
  import opened ByteString
  import opened Options
  import opened Runs
  import opened RunFormat

  /** Sizes are unsigned 32-bit words. */
  predicate FitsWord(f: Coder, n: nat) {
    SizeBound(f, n) < 0x1_0000_0000
  }

  // --- what has been written so far ---

  /** out is the stream up to the bytes at scan; `header` is the position of the open header,
      or -1, and length the number of literal bytes behind it. */
  ghost predicate Coded(f: Coder, out: Bytes, header: int, length: nat, s: Bytes, scan: nat)
    requires scan <= |s|
  {
    if header < 0 then out + EncodeFrom(f, s, scan, []) == Encode(f, s)
    else
      && header + 1 + length == |out| && 1 <= length < MaxLit(f)
      && out[..header] + EncodeFrom(f, s, scan, out[header + 1..]) == Encode(f, s)
  }

  /** out with its open header, if any, filled in. */
  function Closed(f: Coder, out: Bytes, header: int, length: nat): Bytes
    requires header < |out| && length + Bias(f) < 256
  {
    if header < 0 then out else out[header := length + Bias(f)]
  }

  lemma CodedStart(f: Coder, s: Bytes)
    ensures Coded(f, [], -1, 0, s, 0)
  {
    assert [] + Encode(f, s) == Encode(f, s);
  }

  lemma FilledIn(out: Bytes, header: nat, c: byte)
    requires header < |out|
    ensures out[header := c] == out[..header] + ([c] + out[header + 1..])
  {
  }

  lemma ClosedIsFlushed(f: Coder, out: Bytes, header: nat, length: nat)
    requires header + 1 + length == |out| && 1 <= length <= MaxLit(f)
    ensures Closed(f, out, header, length) == out[..header] + Flush(f, out[header + 1..])
  {
    var lit := out[header + 1..];
    assert |lit| == length;
    assert Flush(f, lit) == [length + Bias(f)] + lit;
    FilledIn(out, header, length + Bias(f));
  }

  lemma EncodeAtToken(f: Coder, s: Bytes, i: nat, lit: Bytes)
    requires i < |s| && TokenLen(f, s, i) > 0 && |lit| < MaxLit(f)
    ensures EncodeFrom(f, s, i, lit) ==
      Flush(f, lit) + Token(f, s[i], TokenLen(f, s, i)) + EncodeFrom(f, s, i + TokenLen(f, s, i), [])
  {
  }

  /** A token closes the literal string before it; there is room for it. */
  lemma TokenAppended(f: Coder, out: Bytes, header: int, length: nat, s: Bytes, scan: nat)
    requires scan < |s| && TokenLen(f, s, scan) > 0 && Coded(f, out, header, length, s, scan)
    ensures header < |out| && (header >= 0 ==> length + Bias(f) < 128)
    ensures var n := TokenLen(f, s, scan);
      var out' := (if header < 0 then out else Closed(f, out, header, length)) + Token(f, s[scan], n);
      Coded(f, out', -1, 0, s, scan + n) && |out'| <= SizeBound(f, |s|)
  {
    hide Encode, EncodeFrom, TokenLen, Token, SizeBound, Flush, Closed;
    var n := TokenLen(f, s, scan);
    var t, rest := Token(f, s[scan], n), EncodeFrom(f, s, scan + n, []);
    if header < 0 {
      EncodeAtToken(f, s, scan, []);
      Regroup(out, Flush(f, []), t, rest);
      FlushNothing(f);
      assert out + [] == out;
    } else {
      var lit := out[header + 1..];
      EncodeAtToken(f, s, scan, lit);
      ClosedIsFlushed(f, out, header, length);
      Regroup(out[..header], Flush(f, lit), t, rest);
    }
    EncodeSize(f, s);
  }

  lemma FlushNothing(f: Coder)
    ensures Flush(f, []) == []
  {
  }

  /** One more literal byte, with a new header before it if none is open. */
  lemma LiteralAppended(f: Coder, out: Bytes, header: int, length: nat, s: Bytes, scan: nat,
                        out': Bytes, header': nat)
    requires scan < |s| && TokenLen(f, s, scan) == 0 && Coded(f, out, header, length, s, scan)
    requires header' == if header < 0 then |out| else header
    requires |out'| == if header < 0 then |out| + 2 else |out| + 1
    requires out'[..header'] == out[..header']
    requires out'[header' + 1..] == (if header < 0 then [] else out[header + 1..]) + [s[scan]]
    ensures var length' := (if header < 0 then 0 else length) + 1;
      if length' == MaxLit(f) then Coded(f, Closed(f, out', header', length'), -1, length', s, scan + 1)
      else Coded(f, out', header', length', s, scan + 1)
  {
    hide Encode, TokenLen, Token;
    var lit := if header < 0 then [] else out[header + 1..];
    var lit' := lit + [s[scan]];
    assert out[..header'] + EncodeFrom(f, s, scan, lit) == Encode(f, s);
    if |lit'| == MaxLit(f) {
      ClosedIsFlushed(f, out', header', |lit'|);
      Regroup(out'[..header'], Flush(f, lit'), EncodeFrom(f, s, scan + 1, []), []);
    }
  }

  /** There is room for one more literal byte, and for its header. */
  lemma RoomForLiteral(f: Coder, out: Bytes, header: int, length: nat, s: Bytes, scan: nat)
    requires scan < |s| && TokenLen(f, s, scan) == 0 && Coded(f, out, header, length, s, scan)
    ensures |out| + (if header < 0 then 2 else 1) <= SizeBound(f, |s|)
  {
    hide TokenLen, Token, SizeBound;
    EncodeSize(f, s);
    var lit' := (if header < 0 then [] else out[header + 1..]) + [s[scan]];
    if |lit'| < MaxLit(f) {
      EncodeFromSize(f, s, scan + 1, lit');
    }
  }

  /** The end closes the literal string too. */
  lemma ClosedAtEnd(f: Coder, out: Bytes, header: int, length: nat, s: Bytes)
    requires Coded(f, out, header, length, s, |s|)
    ensures header < |out| && (header >= 0 ==> length + Bias(f) < 128)
    ensures (if header < 0 then out else Closed(f, out, header, length)) == Encode(f, s)
  {
    if header < 0 {
      assert out + [] == out;
    } else {
      ClosedIsFlushed(f, out, header, length);
    }
  }

  /** Append one literal byte to dst, opening a header for it and closing a full string. */
  method PutLiteral(f: Coder, dst: array<byte>, size: nat, header: int, length: nat, c: byte,
                    ghost s: Bytes, ghost scan: nat)
    returns (size': nat, header': int, length': nat)
    requires size <= dst.Length && scan < |s| && c == s[scan]
    requires TokenLen(f, s, scan) == 0 && Coded(f, dst[..size], header, length, s, scan)
    requires SizeBound(f, |s|) <= dst.Length
    modifies dst
    ensures size' <= dst.Length && Coded(f, dst[..size'], header', length', s, scan + 1)
  {
    hide Coded, SizeBound, TokenLen, Encode, EncodeFrom;
    ghost var out := dst[..size];
    RoomForLiteral(f, out, header, length, s, scan);
    OpenHeader(f, out, header, length, s, scan);
    size', header', length' := size, header, length;
    if header' < 0 {
      header' := size';
      size' := size' + 1;
      length' := 0;
    }
    dst[size'] := c;
    size' := size' + 1;
    length' := length' + 1;
    LiteralAppended(f, out, header, length, s, scan, dst[..size'], header');
    if length' == MaxLit(f) {
      assert Closed(f, dst[..size'], header', length') == dst[..size'][header' := length' + Bias(f)];
      dst[header'] := length' + Bias(f);
      header' := -1;
    }
  }

  lemma OpenHeader(f: Coder, out: Bytes, header: int, length: nat, s: Bytes, scan: nat)
    requires scan <= |s| && Coded(f, out, header, length, s, scan)
    ensures header < |out|
    ensures header >= 0 ==> header + 1 + length == |out| && 1 <= length < MaxLit(f)
  {
  }

  /** Close the open literal string, if any, and append a token. */
  method PutToken(f: Coder, dst: array<byte>, size: nat, header: int, length: nat, c: byte, n: nat,
                  ghost s: Bytes, ghost scan: nat)
    returns (size': nat)
    requires size <= dst.Length && scan < |s| && c == s[scan]
    requires n == TokenLen(f, s, scan) > 0 && Coded(f, dst[..size], header, length, s, scan)
    requires SizeBound(f, |s|) <= dst.Length
    modifies dst
    ensures size' <= dst.Length && Coded(f, dst[..size'], -1, 0, s, scan + n)
  {
    hide Coded, SizeBound, TokenLen, Token, Encode, EncodeFrom;
    TokenAppended(f, dst[..size], header, length, s, scan);
    ghost var closed := if header < 0 then dst[..size] else Closed(f, dst[..size], header, length);
    if header >= 0 {
      dst[header] := length + Bias(f);
    }
    assert dst[..size] == closed;
    size' := Put(dst, size, Token(f, c, n));
  }

  method Finish(f: Coder, dst: array<byte>, size: nat, header: int, length: nat, ghost s: Bytes)
    requires size <= dst.Length && Coded(f, dst[..size], header, length, s, |s|)
    modifies dst
    ensures dst[..size] == Encode(f, s)
  {
    hide Coded, Encode;
    ClosedAtEnd(f, dst[..size], header, length, s);
    if header >= 0 {
      dst[header] := length + Bias(f);
    }
  }

  // --- the coders ---

  /** compress_nulls. The byte past the data is overwritten by sentinels; the data is not. */
  method CompressNulls(src: array<byte>, dst: array<byte>, n: nat) returns (size: nat)
    requires src != dst && n < src.Length && SizeBound(Nulls, n) <= dst.Length && FitsWord(Nulls, n)
    modifies src, dst
    ensures src[..n] == old(src[..n])
    ensures size <= dst.Length && dst[..size] == Encode(Nulls, old(src[..n]))
  {
    hide Coded, Encode, RunLen, SizeBound;
    ghost var s := src[..n];
    var scan, header := 0, -1;
    var length: nat := 0;
    size := 0;
    CodedStart(Nulls, s);
    assert dst[..0] == [];
    while scan < n
      invariant scan <= n && src[..n] == s
      invariant size <= dst.Length && Coded(Nulls, dst[..size], header, length, s, scan)
      decreases n - scan
    {
      ghost var at := scan;
      var c := src[scan];
      assert c == s[scan];
      RunLenAtLeastTwo(s, scan);
      scan := scan + 1;
      var haveRun, end := false, scan;
      if scan < n && c == src[scan] {
        assert src[scan] == s[scan];
        end := ScanRun(src, n, scan, c, Not(c));
        if end - scan > 2 || c == 0 {
          haveRun := true;
        }
      }
      if haveRun {
        size := PutToken(Nulls, dst, size, header, length, c, end - scan + 1, s, at);
        header, length := -1, 0;
        scan := end;
      } else {
        size, header, length := PutLiteral(Nulls, dst, size, header, length, c, s, at);
      }
    }
    Finish(Nulls, dst, size, header, length, s);
  }

  lemma RunLenAtLeastThree(s: Bytes, i: nat)
    requires i < |s|
    ensures RunLen(s, i) >= 3 <==> i + 2 < |s| && s[i + 1] == s[i] && s[i + 2] == s[i]
  {
    if i + 1 < |s| {
      RunLenAtLeastTwo(s, i + 1);
    }
  }

  lemma RunLenAtLeastFour(s: Bytes, i: nat)
    requires i < |s|
    ensures RunLen(s, i) >= 4 <==>
      i + 3 < |s| && s[i + 1] == s[i] && s[i + 2] == s[i] && s[i + 3] == s[i]
  {
    if i + 1 < |s| {
      RunLenAtLeastThree(s, i + 1);
    }
  }

  /** compress_rle. Its guard reads up to two bytes past the data before it tests the index. */
  method CompressRle(src: array<byte>, dst: array<byte>, n: nat) returns (size: nat)
    requires src != dst && n + 2 <= src.Length && SizeBound(Rle, n) <= dst.Length && FitsWord(Rle, n)
    modifies src, dst
    ensures src[..n] == old(src[..n])
    ensures size <= dst.Length && dst[..size] == Encode(Rle, old(src[..n]))
  {
    hide Coded, Encode, RunLen, SizeBound;
    ghost var s := src[..n];
    var scan, header := 0, -1;
    var length: nat := 0;
    size := 0;
    CodedStart(Rle, s);
    assert dst[..0] == [];
    while scan < n
      invariant scan <= n && src[..n] == s
      invariant size <= dst.Length && Coded(Rle, dst[..size], header, length, s, scan)
      decreases n - scan
    {
      ghost var at := scan;
      var c := src[scan];
      assert forall k :: 0 <= k < n ==> s[k] == src[k];
      RunLenAtLeastThree(s, scan);
      scan := scan + 1;
      if c == src[scan] && c == src[scan + 1] && scan + 1 < n {
        var end := ScanRun(src, n, scan, c, Not(c));
        size := PutToken(Rle, dst, size, header, length, c, end - scan + 1, s, at);
        header, length := -1, 0;
        scan := end;
      } else {
        size, header, length := PutLiteral(Rle, dst, size, header, length, c, s, at);
      }
    }
    Finish(Rle, dst, size, header, length, s);
  }

  /** Unsigned 32-bit subtraction. */
  function WordMinus(x: nat, y: nat): nat
    requires y <= 0x1_0000_0000
  {
    (x + 0x1_0000_0000 - y) % 0x1_0000_0000
  }

  /** What compress_bits writes. A single byte is a case of its own: there src_size - 2 wraps, so
      that three equal bytes past the data make it a run of one. */
  function BitsStream(s: Bytes, beyond: Bytes): Bytes {
    if Wraps(s, beyond) then [0x81, 0xFE, 1, s[0]] else Encode(Bits, s)
  }

  predicate Wraps(s: Bytes, beyond: Bytes) {
    |s| == 1 && s[0] != 0 && !Single(s[0]) && beyond == [s[0], s[0], s[0]]
  }

  /** Whatever lies past the data, the bits stream gives it back exactly when no run is too long. */
  lemma BitsRoundTrip(s: Bytes, beyond: Bytes)
    ensures var e := Expand(Bits, BitsStream(s, beyond));
      e.Some? && |e.value| <= |s| && (e == Some(s) <==> ShortRuns(Bits, s))
  {
    RoundTrip(Bits, s);
    if |s| == 1 {
      assert ShortRuns(Bits, s);
      var t := [0x81, 0xFE, 1, s[0]];
      assert First(Bits, t) == Some((4, Repeat(s[0], 1)));
      RepeatOnce(s[0]);
      assert s == [s[0]] && t + [] == t && s + [] == s;
      hide First;
      ExpandToken(Bits, t, s, []);
      ExpandNothing(Bits);
    }
  }

  /** Room for the bits stream of n bytes. */
  function BitsBound(n: nat): nat {
    if n == 1 then 4 else SizeBound(Bits, n)
  }

  lemma BitsSize(s: Bytes, beyond: Bytes)
    ensures |BitsStream(s, beyond)| <= BitsBound(|s|)
  {
    EncodeSize(Bits, s);
  }

  /** The bound is reached: every other byte a literal makes the stream half as long again. */
  lemma BitsGrowthExample()
    ensures |Encode(Bits, [3, 0])| == 3 == BitsBound(2)
  {
    assert RunLen([3, 0], 0) == 1 && RunLen([3, 0], 1) == 1;
    assert EncodeFrom(Bits, [3, 0], 2, []) == [];
    assert EncodeFrom(Bits, [3, 0], 1, [3]) == [8, 3, 0x82];
  }

  lemma BitsTokenLen(s: Bytes, i: nat)
    requires i < |s|
    ensures TokenLen(Bits, s, i) ==
      if s[i] == 0 then RunLen(s, i)
      else if Single(s[i]) then 1
      else if i + 3 < |s| && s[i + 1] == s[i] && s[i + 2] == s[i] && s[i + 3] == s[i] then RunLen(s, i)
      else 0
  {
    RunLenAtLeastFour(s, i);
  }

  /** The run branch of compress_bits, taken for four equal bytes or for the wrapped guard. */
  method PutBitsRun(src: array<byte>, dst: array<byte>, n: nat, scan: nat, size: nat, header: int,
                    length: nat, c: byte, ghost s: Bytes, ghost wraps: bool)
    returns (size': nat, end: nat)
    requires src != dst && 0 < scan <= n < src.Length && size <= dst.Length && BitsBound(n) <= dst.Length
    requires src[..n] == s && c == s[scan - 1]
    requires wraps ==> n == 1 && header < 0 && size == 0
    requires !wraps ==> Coded(Bits, dst[..size], header, length, s, scan - 1) && n != 1
    requires !wraps ==> TokenLen(Bits, s, scan - 1) == RunLen(s, scan - 1)
    modifies src, dst
    ensures src[..n] == s && size' <= dst.Length && scan <= end <= n
    ensures wraps ==> dst[..size'] == [0x81, 0xFE, 1, c]
    ensures !wraps ==> Coded(Bits, dst[..size'], -1, 0, s, end)
  {
    hide Coded, Encode, RunLen, Token, TokenLen;
    end := ScanRun(src, n, scan, c, Not(c));
    if n == 1 {
      assert dst[..0] == [];
      size' := Put(dst, size, [0x81, 0xFE, 1, c]);
    } else {
      size' := PutToken(Bits, dst, size, header, length, c, end - scan + 1, s, scan - 1);
    }
  }

  /** Where compress_bits stands: in the stream of the data, unless the guard is about to wrap. */
  ghost predicate BitsCoded(out: Bytes, header: int, length: nat, s: Bytes, scan: nat, wraps: bool)
    requires scan <= |s|
  {
    if !wraps then Coded(Bits, out, header, length, s, scan)
    else |s| == 1 && header < 0 && out == if scan == 0 then [] else [0x81, 0xFE, 1, s[0]]
  }

  /** Handle the byte at scan, and what goes with it. */
  method BitsStep(src: array<byte>, dst: array<byte>, n: nat, at: nat, size: nat, header: int, length: nat,
                  ghost s: Bytes, ghost wraps: bool)
    returns (scan: nat, size': nat, header': int, length': nat)
    requires src != dst && at < n && n + 3 <= src.Length && BitsBound(n) <= dst.Length && n < 0x1_0000_0000
    requires src[..n] == s && size <= dst.Length
    requires at == 0 ==> wraps == Wraps(s, src[n..n + 3])
    requires BitsCoded(dst[..size], header, length, s, at, wraps)
    modifies src, dst
    ensures src[..n] == s && at < scan <= n && size' <= dst.Length
    ensures BitsCoded(dst[..size'], header', length', s, scan, wraps)
  {
    hide Coded, Encode, RunLen, Token, TokenLen;
    var c := src[at];
    assert forall k :: 0 <= k < n ==> s[k] == src[k];
    assert n == 1 ==> src[n..n + 3] == [src[1], src[2], src[3]];
    BitsTokenLen(s, at);
    scan := at + 1;
    header', length' := -1, 0;
    if c == 0 {
      var end := ScanRun(src, n, scan, 0, 0xff);
      size' := PutToken(Bits, dst, size, header, length, c, end - scan + 1, s, at);
      scan := end;
    } else if Single(c) {
      size' := PutToken(Bits, dst, size, header, length, c, 1, s, at);
    } else if c == src[scan] && c == src[scan + 1] && c == src[scan + 2] && scan < WordMinus(n, 2) {
      size', scan := PutBitsRun(src, dst, n, scan, size, header, length, c, s, wraps);
    } else {
      size', header', length' := PutLiteral(Bits, dst, size, header, length, c, s, at);
    }
  }

  /** compress_bits. Its last guard reads up to three bytes past the data before it tests the index. */
  method CompressBits(src: array<byte>, dst: array<byte>, n: nat) returns (size: nat)
    requires src != dst && n + 3 <= src.Length && BitsBound(n) <= dst.Length && FitsWord(Bits, n)
    modifies src, dst
    ensures src[..n] == old(src[..n])
    ensures size <= dst.Length && dst[..size] == BitsStream(old(src[..n]), old(src[n..n + 3]))
  {
    hide Coded, Encode, BitsStream;
    ghost var s, beyond := src[..n], src[n..n + 3];
    ghost var wraps := Wraps(s, beyond);
    var scan, header := 0, -1;
    var length: nat := 0;
    size := 0;
    CodedStart(Bits, s);
    assert dst[..0] == [];
    while scan < n
      invariant scan <= n && src[..n] == s && size <= dst.Length
      invariant scan == 0 ==> src[n..n + 3] == beyond
      invariant BitsCoded(dst[..size], header, length, s, scan, wraps)
      decreases n - scan
    {
      scan, size, header, length := BitsStep(src, dst, n, scan, size, header, length, s, wraps);
    }
    if !wraps {
      ClosedAtEnd(Bits, dst[..size], header, length, s);
    }
    if header >= 0 {
      dst[header] := length + 7;
    }
    StreamIs(s, beyond);
  }

  lemma StreamIs(s: Bytes, beyond: Bytes)
    ensures BitsStream(s, beyond) == if Wraps(s, beyond) then [0x81, 0xFE, 1, s[0]] else Encode(Bits, s)
  {
  }

  // --- the decoders ---

  lemma FirstOf(f: Coder, b: Bytes)
    requires b != [] && Expand(f, b).Some?
    ensures First(f, b).Some? && Expand(f, b[First(f, b).value.0..]).Some?
    ensures Expand(f, b).value == First(f, b).value.1 + Expand(f, b[First(f, b).value.0..]).value
  {
  }

  /** dst[..size] is what the bytes of b before scan expand to. */
  ghost predicate Decoded(f: Coder, out: Bytes, b: Bytes, scan: nat) {
    && scan <= |b| && Expand(f, b).Some? && Expand(f, b[scan..]).Some?
    && out + Expand(f, b[scan..]).value == Expand(f, b).value
  }

  lemma DecodedStart(f: Coder, b: Bytes)
    requires Expand(f, b).Some?
    ensures Decoded(f, [], b, 0)
  {
    assert b[0..] == b;
  }

  lemma DecodedStep(f: Coder, out: Bytes, b: Bytes, scan: nat) returns (t: (nat, Bytes))
    requires Decoded(f, out, b, scan) && scan < |b|
    ensures First(f, b[scan..]) == Some(t) && scan + t.0 <= |b|
    ensures Decoded(f, out + t.1, b, scan + t.0)
    ensures |out| + |t.1| <= |Expand(f, b).value|
  {
    hide Expand, First;
    var rest := b[scan..];
    FirstOf(f, rest);
    t := First(f, rest).value;
    assert rest[t.0..] == b[scan + t.0..];
    Regroup(out, t.1, Expand(f, b[scan + t.0..]).value, []);
  }

  /** The bytes behind the header at a position. */
  lemma Behind(b: Bytes, at: nat, length: nat)
    requires at + 1 + length <= |b|
    ensures b[at..][1..1 + length] == b[at + 1..at + 1 + length]
  {
  }

  lemma DecodedEnd(f: Coder, out: Bytes, b: Bytes)
    requires Decoded(f, out, b, |b|)
    ensures out == Expand(f, b).value
  {
    assert b[|b|..] == [];
  }

  /** expand_nulls, on any stream that does not end inside a token. */
  method ExpandNulls(src: array<byte>, dst: array<byte>, n: nat) returns (size: nat)
    requires src != dst && n <= src.Length && Expand(Nulls, src[..n]).Some?
    requires |Expand(Nulls, src[..n]).value| <= dst.Length
    modifies dst
    ensures size <= dst.Length && dst[..size] == Expand(Nulls, src[..n]).value
  {
    hide Expand, Repeat, Decoded;
    ghost var b := src[..n];
    var scan := 0;
    var length: nat := 0;
    size := 0;
    assert dst[..0] == [];
    DecodedStart(Nulls, b);
    while scan < n
      invariant scan <= n && size <= dst.Length && src[..n] == b
      invariant Decoded(Nulls, dst[..size], b, scan)
      decreases n - scan
    {
      ghost var at := scan;
      ghost var t := DecodedStep(Nulls, dst[..size], b, scan);
      assert forall k :: 0 <= k < n - scan ==> b[scan..][k] == src[scan + k];
      var c := src[scan];
      scan := scan + 1;
      if 0 < c < 128 {
        length := c;
        Behind(src[..n], at, length);
        assert src[scan..scan + length] == t.1;
        Copy(src, scan, dst, size, length);
        scan := scan + length;
      } else {
        if c == 0 {
          length := src[scan];
          scan := scan + 1;
          if length == 0 {
            length := src[scan];
            length := length + 256 * src[scan + 1] as int;
            scan := scan + 2;
          }
          c := src[scan];
          scan := scan + 1;
        } else if c == 0x80 {
          length := src[scan];
          length := length + 256 * src[scan + 1] as int;
          scan := scan + 2;
          c := 0;
        } else if c == 0x81 {
          length := src[scan];
          scan := scan + 1;
          c := 0;
        } else {
          length := c - 128;
          c := 0;
        }
        assert Repeat(c, length) == t.1;
        Fill(dst, size, c, length);
      }
      assert scan == at + t.0;
      size := size + length;
    }
    DecodedEnd(Nulls, dst[..size], b);
  }

  /** expand_rle, on any stream that does not end inside a token. */
  method ExpandRle(src: array<byte>, dst: array<byte>, n: nat) returns (size: nat)
    requires src != dst && n <= src.Length && Expand(Rle, src[..n]).Some?
    requires |Expand(Rle, src[..n]).value| <= dst.Length
    modifies dst
    ensures size <= dst.Length && dst[..size] == Expand(Rle, src[..n]).value
  {
    hide Expand, Repeat, Decoded;
    ghost var b := src[..n];
    var scan := 0;
    var length: nat := 0;
    size := 0;
    assert dst[..0] == [];
    DecodedStart(Rle, b);
    while scan < n
      invariant scan <= n && size <= dst.Length && src[..n] == b
      invariant Decoded(Rle, dst[..size], b, scan)
      decreases n - scan
    {
      ghost var at := scan;
      ghost var t := DecodedStep(Rle, dst[..size], b, scan);
      assert forall k :: 0 <= k < n - scan ==> b[scan..][k] == src[scan + k];
      var c := src[scan];
      scan := scan + 1;
      if 0 < c < 128 {
        length := c;
        Behind(src[..n], at, length);
        assert src[scan..scan + length] == t.1;
        Copy(src, scan, dst, size, length);
        scan := scan + length;
      } else {
        if c == 0 {
          length := src[scan];
          scan := scan + 1;
          c := 0;
        } else if c == 0x82 {
          length := src[scan];
          scan := scan + 1;
          c := 32;
        } else if c == 0x80 {
          length := src[scan];
          c := src[scan + 1];
          scan := scan + 2;
        } else if c == 0x81 {
          length := src[scan];
          length := length + 256 * src[scan + 1] as int;
          c := src[scan + 2];
          scan := scan + 3;
        } else {
          length := c - 128;
          c := src[scan];
          scan := scan + 1;
        }
        assert Repeat(c, length) == t.1;
        Fill(dst, size, c, length);
      }
      assert scan == at + t.0;
      size := size + length;
    }
    DecodedEnd(Rle, dst[..size], b);
  }

  /** The length and the byte of a run, behind the first byte c of its token. */
  method ReadRun(src: array<byte>, from: nat, n: nat, first: byte) returns (length: nat, scan: nat, c: byte)
    requires 0 < from <= n <= src.Length && first >= 128 && src[from - 1] == first
    requires FirstBits(src[from - 1..n]).Some?
    ensures scan == from - 1 + FirstBits(src[from - 1..n]).value.0
    ensures Repeat(c, length) == FirstBits(src[from - 1..n]).value.1
  {
    hide Repeat;
    ghost var b := src[from - 1..n];
    assert forall k :: 0 <= k < |b| ==> b[k] == src[from - 1 + k];
    scan, c := from, first;
    if c == 0x80 {
      length := src[scan];
      length := length + 256 * src[scan + 1] as int;
      scan := scan + 2;
      c := 0;
    } else if c == 0x81 {
      length := src[scan];
      scan := scan + 1;
      if length == 0xFE {
        length := src[scan];
        c := src[scan + 1];
        scan := scan + 2;
      } else if length == 0xFF {
        length := src[scan];
        length := length + 256 * src[scan + 1] as int;
        c := src[scan + 2];
        scan := scan + 3;
      } else {
        length := length + 127;
        c := 0;
      }
    } else {
      length := (c - 1) % 128;
      c := 0;
    }
  }

  /** expand_bits, on any stream that does not end inside a token. */
  method ExpandBits(src: array<byte>, dst: array<byte>, n: nat) returns (size: nat)
    requires src != dst && n <= src.Length && Expand(Bits, src[..n]).Some?
    requires |Expand(Bits, src[..n]).value| <= dst.Length
    modifies dst
    ensures size <= dst.Length && dst[..size] == Expand(Bits, src[..n]).value
  {
    hide Expand, Repeat, Decoded;
    ghost var b := src[..n];
    var scan := 0;
    var length: nat := 0;
    size := 0;
    assert dst[..0] == [];
    DecodedStart(Bits, b);
    while scan < n
      invariant scan <= n && size <= dst.Length && src[..n] == b
      invariant Decoded(Bits, dst[..size], b, scan)
      decreases n - scan
    {
      ghost var at := scan;
      ghost var before := dst[..size];
      ghost var t := DecodedStep(Bits, dst[..size], b, scan);
      assert src[scan..n] == b[scan..];
      var c := src[scan];
      scan := scan + 1;
      if c < 8 {
        dst[size] := BitAlone(c);
        size := size + 1;
        assert dst[..size] == before + t.1;
      } else if c < 128 {
        length := c - 7;
        Behind(src[..n], at, length);
        assert src[scan..scan + length] == t.1;
        Copy(src, scan, dst, size, length);
        scan := scan + length;
        size := size + length;
      } else {
        length, scan, c := ReadRun(src, scan, n, c);
        assert Repeat(c, length) == t.1;
        Fill(dst, size, c, length);
        size := size + length;
      }
      assert scan == at + t.0;
    }
    DecodedEnd(Bits, dst[..size], b);
  }

  // --- both ways ---

  /** Compressing and expanding gives the data back exactly when it has no over-long run. */
  method NullsThereAndBack(src: array<byte>, n: nat) returns (out: array<byte>, size: nat)
    requires n < src.Length && FitsWord(Nulls, n)
    modifies src
    ensures fresh(out) && size <= out.Length
    ensures out[..size] == old(src[..n]) <==> ShortRuns(Nulls, old(src[..n]))
  {
    RoundTrip(Nulls, src[..n]);
    var mid := new byte[SizeBound(Nulls, n)](_ => 0);
    var m := CompressNulls(src, mid, n);
    out := new byte[n](_ => 0);
    size := ExpandNulls(mid, out, m);
  }

  method RleThereAndBack(src: array<byte>, n: nat) returns (out: array<byte>, size: nat)
    requires n + 2 <= src.Length && FitsWord(Rle, n)
    modifies src
    ensures fresh(out) && size <= out.Length
    ensures out[..size] == old(src[..n]) <==> ShortRuns(Rle, old(src[..n]))
  {
    RoundTrip(Rle, src[..n]);
    var mid := new byte[SizeBound(Rle, n)](_ => 0);
    var m := CompressRle(src, mid, n);
    out := new byte[n](_ => 0);
    size := ExpandRle(mid, out, m);
  }

  method BitsThereAndBack(src: array<byte>, n: nat) returns (out: array<byte>, size: nat)
    requires n + 3 <= src.Length && FitsWord(Bits, n)
    modifies src
    ensures fresh(out) && size <= out.Length
    ensures out[..size] == old(src[..n]) <==> ShortRuns(Bits, old(src[..n]))
  {
    BitsRoundTrip(src[..n], src[n..n + 3]);
    var mid := new byte[BitsBound(n)](_ => 0);
    var m := CompressBits(src, mid, n);
    out := new byte[n](_ => 0);
    size := ExpandBits(mid, out, m);
  }
}
