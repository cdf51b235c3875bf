/** The LZ/RLE block format: sixteen flags, then sixteen tokens, each a literal byte, a match
    into what has been written already, or a run. */
module BlockFormat {
  import opened ByteString
  import opened Options
  import opened Runs

  const COPY: byte := 0x80
  const COMPRESS: byte := 0x40

  datatype Token = Lit(b: byte) | Match(dist: nat, len: nat) | Run(len: nat, b: byte)

  // --- flags ---

  /** The k low bits of w, the most significant first. */
  function Flags(w: nat, k: nat): (fs: seq<bool>)
    ensures |fs| == k
  {
    if k == 0 then [] else Flags(w / 2, k - 1) + [w % 2 == 1]
  }

  /** w shifted left by n bits. */
  function Shift(w: nat, n: nat): nat {
    if n == 0 then w else 2 * Shift(w, n - 1)
  }

  function False(n: nat): (fs: seq<bool>)
    ensures |fs| == n
  {
    seq(n, _ => false)
  }

  lemma {:induction false} FlagsShifted(w: nat, k: nat, n: nat)
    ensures Flags(Shift(w, n), k + n) == Flags(w, k) + False(n)
  {
    if n > 0 {
      FlagsShifted(w, k, n - 1);
      assert Shift(w, n) / 2 == Shift(w, n - 1) && Shift(w, n) % 2 == 0;
      assert False(n) == False(n - 1) + [false];
    }
  }

  /** Only the low k bits matter. */
  lemma {:induction false} FlagsLow(w: nat, a: nat, k: nat, n: nat)
    requires k <= n
    ensures Flags(w + Shift(a, n), k) == Flags(w, k)
    decreases k
  {
    if k > 0 {
      assert (w + Shift(a, n)) / 2 == w / 2 + Shift(a, n - 1);
      FlagsLow(w / 2, a, k - 1, n - 1);
    }
  }

  lemma ShiftFour(w: nat, n: nat)
    ensures Shift(w, n + 4) == 16 * Shift(w, n)
  {
    assert Shift(w, n + 2) == 4 * Shift(w, n);
    assert Shift(w, n + 4) == 4 * Shift(w, n + 2);
  }

  lemma ShiftSixteen(w: nat, n: nat)
    ensures Shift(w, n + 16) == 0x1_0000 * Shift(w, n)
  {
    ShiftFour(w, n);
    ShiftFour(w, n + 4);
    ShiftFour(w, n + 8);
    ShiftFour(w, n + 12);
  }

  /** A word that has wrapped at 16 or at 32 bits still has its low sixteen flags. */
  lemma FlagsWrap(w: nat, k: nat)
    requires k <= 16
    ensures Flags(w % 0x1_0000, k) == Flags(w, k)
    ensures Flags(w % 0x1_0000_0000, k) == Flags(w, k)
  {
    hide Flags;
    FlagsWrap16(w, k);
    FlagsWrap16(w % 0x1_0000_0000, k);
    WrapTwice(w);
  }

  lemma WrapTwice(w: nat)
    ensures w % 0x1_0000_0000 % 0x1_0000 == w % 0x1_0000
  {
    var q := w / 0x1_0000_0000;
    assert w == w % 0x1_0000_0000 + 0x1_0000 * (0x1_0000 * q);
  }

  lemma FlagsWrap16(w: nat, k: nat)
    requires k <= 16
    ensures Flags(w % 0x1_0000, k) == Flags(w, k)
  {
    var a := w / 0x1_0000;
    ShiftSixteen(a, 0);
    FlagsLow(w % 0x1_0000, a, k, 16);
  }

  /** w halved n times. */
  function Halve(w: nat, n: nat): nat {
    if n == 0 then w else Halve(w / 2, n - 1)
  }

  lemma {:induction false} FlagsTop(w: nat, k: nat)
    ensures Flags(w, k + 1) == [Halve(w, k) % 2 == 1] + Flags(w, k)
    decreases k
  {
    if k > 0 {
      FlagsTop(w / 2, k - 1);
    }
  }

  lemma HalveFour(w: nat, n: nat)
    ensures Halve(w, n + 4) == Halve(w / 16, n)
  {
    var h := w / 2 / 2;
    assert Halve(w, n + 4) == Halve(w / 2, n + 3) == Halve(h, n + 2);
    assert Halve(h, n + 2) == Halve(h / 2, n + 1) == Halve(h / 2 / 2, n);
  }

  lemma HalveFifteen(w: nat)
    ensures Halve(w, 15) == w / 0x8000
  {
    HalveFour(w, 11);
    HalveFour(w / 16, 7);
    HalveFour(w / 16 / 16, 3);
    var v := w / 16 / 16 / 16;
    assert Halve(v, 3) == Halve(v / 2, 2) == Halve(v / 2 / 2, 1) == v / 2 / 2 / 2;
    hide Halve;
    DivideInSteps(w);
  }

  lemma DivideInSteps(w: nat)
    ensures w / 16 / 16 / 16 / 2 / 2 / 2 == w / 0x8000
  {
    assert w / 16 / 16 == w / 256;
    assert w / 256 / 16 == w / 4096;
    assert w / 4096 / 2 / 2 / 2 == w / 0x8000;
  }

  /** The flag tested by the mask 0x8000, and those that follow when the word moves up. */
  lemma FlagsNext(w: nat)
    ensures Flags(w, 16)[0] == (w / 0x8000 % 2 == 1)
    ensures Flags(2 * w, 16) == Flags(w, 16)[1..] + [false]
  {
    FlagsTop(w, 15);
    HalveFifteen(w);
    assert Flags(2 * w, 16) == Flags(2 * w / 2, 15) + [false];
  }

  // --- tokens ---

  /** Tokens the coder may write when |out| bytes are already out. */
  predicate Valid(out: Bytes, t: Token) {
    match t
    case Lit(_) => true
    case Match(dist, len) => 1 <= dist <= |out| && dist <= 4095 && 3 <= len <= 18
    case Run(len, _) => 16 <= len <= 4095
  }

  function TokenBytes(t: Token): Bytes {
    match t
    case Lit(b) => [b]
    case Match(dist, len) =>
      var key := dist * 16 + len - 3;
      [key / 256 % 256, key % 256]
    case Run(len, b) => [0, (len - 16) / 256 % 256, (len - 16) % 256, b]
  }

  function Flag(t: Token): bool {
    !t.Lit?
  }

  /** len bytes copied one by one from dist back; the copy may read what it has just written. */
  function CopyBack(out: Bytes, dist: nat, len: nat): (r: Bytes)
    requires 1 <= dist <= |out|
    ensures |r| == |out| + len
    decreases len
  {
    if len == 0 then out else CopyBack(out + [out[|out| - dist]], dist, len - 1)
  }

  /** out after one token. */
  function Play(out: Bytes, t: Token): Bytes
    requires Valid(out, t)
  {
    match t
    case Lit(b) => out + [b]
    case Match(dist, len) => CopyBack(out, dist, len)
    case Run(len, b) => out + Repeat(b, len)
  }

  predicate AllValid(out: Bytes, ts: seq<Token>)
    decreases |ts|
  {
    ts == [] || (Valid(out, ts[0]) && AllValid(Play(out, ts[0]), ts[1..]))
  }

  function PlayAll(out: Bytes, ts: seq<Token>): Bytes
    requires AllValid(out, ts)
    decreases |ts|
  {
    if ts == [] then out else PlayAll(Play(out, ts[0]), ts[1..])
  }

  // --- groups ---

  function FlagsOf(ts: seq<Token>): (fs: seq<bool>)
    ensures |fs| == |ts|
  {
    seq(|ts|, i requires 0 <= i < |ts| => Flag(ts[i]))
  }

  function BytesOf(ts: seq<Token>): Bytes {
    if ts == [] then [] else TokenBytes(ts[0]) + BytesOf(ts[1..])
  }

  /** The 16-bit value of a sequence of flags. */
  function Value(fs: seq<bool>): nat {
    if fs == [] then 0
    else 2 * Value(fs[..|fs| - 1]) + (if fs[|fs| - 1] then 1 else 0)
  }

  function Header(ts: seq<Token>): Bytes
    requires |ts| <= 16
  {
    var w := Shift(Value(FlagsOf(ts)), 16 - |ts|);
    [w / 256 % 256, w % 256]
  }

  function Group(ts: seq<Token>): Bytes
    requires |ts| <= 16
  {
    Header(ts) + BytesOf(ts)
  }

  /** Sixteen tokens to a group; there is always a first group. */
  function Pack(ts: seq<Token>): Bytes {
    if |ts| <= 16 then Group(ts) else Group(ts[..16]) + Pack(ts[16..])
  }

  // --- decoding ---

  /** The distance in the two bytes of a match; zero in those of a run. */
  function Distance(b: byte, c: byte): nat {
    b as int * 16 + c as int / 16
  }

  /** The decoder with the bytes b to go and the flags fs still unused; None where it would
      read past the end of the stream or before the start of its output. */
  function Decode(b: Bytes, fs: seq<bool>, out: Bytes): Option<Bytes>
    decreases |b|, 1
  {
    if b == [] then Some(out)
    else if fs == [] then
      if |b| < 2 then None else DecodeToken(b[2..], Flags(b[0] as int * 256 + b[1] as int, 16), out)
    else DecodeToken(b, fs, out)
  }

  function DecodeToken(b: Bytes, fs: seq<bool>, out: Bytes): Option<Bytes>
    requires fs != []
    decreases |b|, 0
  {
    if b == [] then None
    else if !fs[0] then Decode(b[1..], fs[1..], out + [b[0]])
    else if |b| < 2 then None
    else
      var back := Distance(b[0], b[1]);
      if back != 0 then
        if back > |out| then None
        else Decode(b[2..], fs[1..], CopyBack(out, back, b[1] % 16 + 3))
      else if |b| < 4 then None
      else Decode(b[4..], fs[1..], out + Repeat(b[3], b[1] as int * 256 + b[2] as int + 16))
  }

  function Expand(b: Bytes): Option<Bytes> {
    if b == [] then None
    else if b[0] == COPY then Some(b[1..])
    else Decode(b[1..], [], [])
  }

  // --- a packed stream decodes to what its tokens play ---

  lemma {:induction false} ValueFlags(fs: seq<bool>)
    ensures Flags(Value(fs), |fs|) == fs
  {
    if fs != [] {
      ValueFlags(fs[..|fs| - 1]);
      assert fs == fs[..|fs| - 1] + [fs[|fs| - 1]];
    }
  }

  lemma {:induction false} HeaderFlags(ts: seq<Token>)
    requires |ts| <= 16
    ensures var h := Header(ts);
      Flags(h[0] as int * 256 + h[1] as int, 16) == FlagsOf(ts) + False(16 - |ts|)
  {
    hide Flags, Shift, Value, FlagsOf;
    var v := Value(FlagsOf(ts));
    var w := Shift(v, 16 - |ts|);
    FlagsShifted(v, |ts|, 16 - |ts|);
    ValueFlags(FlagsOf(ts));
    FlagsWrap(w, 16);
    assert w / 256 % 256 * 256 + w % 256 == w % 0x1_0000;
  }

  lemma DecodeLit(b: byte, rest: Bytes, fs: seq<bool>, out: Bytes)
    requires fs != [] && !fs[0]
    ensures DecodeToken([b] + rest, fs, out) == Decode(rest, fs[1..], out + [b])
  {
    hide Decode;
    assert ([b] + rest)[1..] == rest;
  }

  lemma DecodeMatch(x: byte, y: byte, rest: Bytes, fs: seq<bool>, out: Bytes)
    requires fs != [] && fs[0] && 1 <= Distance(x, y) <= |out|
    ensures DecodeToken([x, y] + rest, fs, out) == Decode(rest, fs[1..], CopyBack(out, Distance(x, y), y % 16 + 3))
  {
    hide Decode, CopyBack, Distance, Repeat;
    assert ([x, y] + rest)[2..] == rest;
  }

  lemma DecodeRun(y: byte, z: byte, c: byte, rest: Bytes, fs: seq<bool>, out: Bytes)
    requires fs != [] && fs[0] && y < 16
    ensures DecodeToken([0, y, z, c] + rest, fs, out) ==
      Decode(rest, fs[1..], out + Repeat(c, y as int * 256 + z as int + 16))
  {
    hide Decode, Repeat, CopyBack;
    assert ([0, y, z, c] + rest)[4..] == rest;
  }

  lemma MatchBytes(dist: nat, len: nat)
    requires 1 <= dist <= 4095 && 3 <= len <= 18
    ensures var b := TokenBytes(Match(dist, len));
      b == [b[0], b[1]] && Distance(b[0], b[1]) == dist && b[1] % 16 + 3 == len
  {
    var q, r := dist / 16, dist % 16;
    assert dist * 16 + len - 3 == 256 * q + (16 * r + (len - 3));
  }

  /** The first byte of a run is zero, and so is the upper half of the second. */
  lemma RunBytes(len: nat, c: byte)
    requires 16 <= len <= 4095
    ensures var b := TokenBytes(Run(len, c));
      b == [0, b[1], b[2], c] && b[1] < 16 && b[1] as int * 256 + b[2] as int + 16 == len
  {
  }

  /** Each kind of token decodes to what it stands for; a run is never taken for a match. */
  lemma {:induction false} DecodeOne(t: Token, rest: Bytes, fs: seq<bool>, out: Bytes)
    requires Valid(out, t) && fs != [] && fs[0] == Flag(t)
    ensures DecodeToken(TokenBytes(t) + rest, fs, out) == Decode(rest, fs[1..], Play(out, t))
  {
    var b := TokenBytes(t);
    hide Decode, DecodeToken, CopyBack, Distance, Repeat;
    match t
    case Lit(c) => DecodeLit(c, rest, fs, out);
    case Match(dist, len) =>
      MatchBytes(dist, len);
      DecodeMatch(b[0], b[1], rest, fs, out);
    case Run(len, c) =>
      RunBytes(len, c);
      DecodeRun(b[1], b[2], c, rest, fs, out);
  }

  lemma {:induction false} DecodeTokens(ts: seq<Token>, rest: Bytes, fs: seq<bool>, out: Bytes)
    requires AllValid(out, ts) && ts != []
    ensures DecodeToken(BytesOf(ts) + rest, FlagsOf(ts) + fs, out) == Decode(rest, fs, PlayAll(out, ts))
    decreases |ts|
  {
    hide DecodeToken, TokenBytes;
    var t, more := ts[0], ts[1..];
    var fs' := FlagsOf(more) + fs;
    assert FlagsOf(ts) + fs == [Flag(t)] + fs';
    assert BytesOf(ts) + rest == TokenBytes(t) + (BytesOf(more) + rest);
    DecodeOne(t, BytesOf(more) + rest, [Flag(t)] + fs', out);
    assert ([Flag(t)] + fs')[1..] == fs';
    if more == [] {
      assert BytesOf(more) + rest == rest && fs' == fs;
    } else {
      DecodeTokens(more, rest, fs, Play(out, t));
      TokenBytesNotEmpty(more[0]);
      assert BytesOf(more) + rest != [];
    }
  }

  lemma TokenBytesNotEmpty(t: Token)
    ensures TokenBytes(t) != []
  {
  }

  lemma DecodeHeader(h: Bytes, b: Bytes, out: Bytes)
    requires |h| == 2
    ensures Decode(h + b, [], out) == DecodeToken(b, Flags(h[0] as int * 256 + h[1] as int, 16), out)
  {
    hide DecodeToken, Flags;
    assert (h + b)[2..] == b;
  }

  lemma GroupThen(ts: seq<Token>, rest: Bytes)
    requires |ts| <= 16
    ensures Group(ts) + rest == Header(ts) + (BytesOf(ts) + rest)
  {
    hide Header, BytesOf;
  }

  lemma {:induction false} DecodeGroup(ts: seq<Token>, rest: Bytes, out: Bytes)
    requires AllValid(out, ts) && 1 <= |ts| <= 16
    ensures Decode(Group(ts) + rest, [], out) == Decode(rest, False(16 - |ts|), PlayAll(out, ts))
  {
    HeaderFlags(ts);
    hide DecodeToken, Decode, BytesOf, Header, Flags;
    DecodeHeader(Header(ts), BytesOf(ts) + rest, out);
    DecodeTokens(ts, rest, False(16 - |ts|), out);
    GroupThen(ts, rest);
  }

  lemma {:induction false} PlaySplit(out: Bytes, ts: seq<Token>, us: seq<Token>)
    ensures AllValid(out, ts + us) <==> AllValid(out, ts) && AllValid(PlayAll(out, ts), us)
    ensures AllValid(out, ts + us) ==> PlayAll(out, ts + us) == PlayAll(PlayAll(out, ts), us)
    decreases |ts|
  {
    if ts == [] {
      assert ts + us == us;
    } else {
      assert (ts + us)[1..] == ts[1..] + us;
      if Valid(out, ts[0]) {
        PlaySplit(Play(out, ts[0]), ts[1..], us);
      }
    }
  }

  /** Every flag meets its token: a packed stream decodes to what its tokens play. */
  lemma {:induction false} DecodePack(ts: seq<Token>, out: Bytes)
    requires AllValid(out, ts) && ts != []
    ensures Decode(Pack(ts), [], out) == Some(PlayAll(out, ts))
    decreases |ts|
  {
    hide Decode, Group;
    if |ts| <= 16 {
      DecodeGroup(ts, [], out);
      assert Group(ts) + [] == Group(ts);
      DecodeNothing(False(16 - |ts|), PlayAll(out, ts));
    } else {
      assert ts == ts[..16] + ts[16..];
      PlaySplit(out, ts[..16], ts[16..]);
      DecodeGroup(ts[..16], Pack(ts[16..]), out);
      assert False(0) == [];
      DecodePack(ts[16..], PlayAll(out, ts[..16]));
    }
  }

  lemma DecodeNothing(fs: seq<bool>, out: Bytes)
    ensures Decode([], fs, out) == Some(out)
  {
  }
}
