/** The LZ/RLE block coder: a run scan, then a hash chain of one entry per slot that proposes
    a match, which is checked byte by byte before it is used. */
module BlockCoder {
  import opened ByteString
  import opened Options
  import opened Runs
  import opened BlockFormat

  const SLOTS := 4096

  /** The slot for the three bytes at the scan position. */
  function Slot(a: byte, b: byte, c: byte): (h: nat)
    ensures h < SLOTS
  {
    var z := (((((a as bv16) << 4) ^ (b as bv16)) << 4) ^ (c as bv16)) as int;
    40543 * z / 16 % SLOTS
  }

  /** A position stored in a 16-bit signed slot. */
  function Short(p: nat): int {
    (p + 0x8000) % 0x1_0000 - 0x8000
  }

  /** The distance test, in unsigned 32-bit arithmetic. */
  predicate Near(i: nat, e: int) {
    e != -1 && (i - e) % 0x1_0000_0000 < 4096
  }

  /** A slot is empty or holds an earlier position, as a short. */
  ghost predicate Entry(e: int, i: nat) {
    e == -1 || exists q: nat :: q < i && e == Short(q)
  }

  ghost predicate Slots(hash: seq<int>, i: nat) {
    |hash| == SLOTS && forall h :: 0 <= h < SLOTS ==> Entry(hash[h], i)
  }

  /** An entry that passes the test is a true earlier position, at most 4095 back: positions that
      did not fit the slot are never taken for near ones. */
  lemma NearIsTrue(i: nat, e: int)
    requires Entry(e, i) && Near(i, e) && i + 0x8000 < 0x1_0000_0000
    ensures 0 <= e < i && 1 <= i - e <= 4095
  {
    var q: nat :| q < i && e == Short(q);
    var k := (q + 0x8000) / 0x1_0000;
    assert e == q - 0x1_0000 * k;
    assert 0 < i - e <= i + 0x8000;
    assert (i - e) % 0x1_0000_0000 == i - e;
    assert k == 0;
  }

  /** An earlier position that is in its slot as it is, is near exactly up to 4095 back. */
  lemma NearWhen(i: nat, e: nat)
    requires e < i < 0x1_0000_0000
    ensures Near(i, e) <==> i - e <= 4095
  {
  }

  // --- one token ---

  /** The j-th bytes from i and from pos on are the same. */
  predicate Alike(s: Bytes, i: nat, pos: nat, j: nat)
    requires pos < i && i + j < |s|
  {
    s[i + j] == s[pos + j]
  }

  /** How many bytes at i, from the k-th on, equal those at pos; at most 18. */
  function MatchLen(s: Bytes, i: nat, pos: nat, k: nat): (m: nat)
    requires pos < i && k <= 18 && i + k <= |s|
    ensures k <= m <= 18 && i + m <= |s|
    ensures forall j :: k <= j < m ==> Alike(s, i, pos, j)
    decreases 18 - k
  {
    if k >= 18 || i + k >= |s| || !Alike(s, i, pos, k) then k else MatchLen(s, i, pos, k + 1)
  }

  function RunSize(s: Bytes, i: nat): (n: nat)
    requires i < |s|
    ensures 1 <= n <= 4095 && i + n <= |s|
  {
    Min(RunLen(s, i), 4095)
  }

  /** The slot chosen at i; the two bytes past the end may be read for it. */
  function SlotAt(mem: Bytes, i: nat): nat
    requires i + 2 < |mem|
  {
    Slot(mem[i], mem[i + 1], mem[i + 2])
  }

  /** The token chosen at i and the slots afterwards; mem is the data and two bytes more. */
  ghost function Choose(mem: Bytes, n: nat, i: nat, hash: seq<int>): (Token, seq<int>)
    requires i < n && n + 2 <= |mem| && n + 0x8000 <= 0x1_0000_0000 && Slots(hash, i)
  {
    var s := mem[..n];
    var r := RunSize(s, i);
    if r >= 16 then (Run(r, s[i]), hash)
    else
      var h := SlotAt(mem, i);
      var e := hash[h];
      var hash' := hash[h := Short(i)];
      if Near(i, e) then
        NearIsTrue(i, e);
        var m := MatchLen(s, i, e, 0);
        (if m >= 3 then Match(i - e, m) else Lit(s[i]), hash')
      else (Lit(s[i]), hash')
  }

  /** How many bytes of data a token stands for. */
  function Span(t: Token): nat {
    match t
    case Lit(_) => 1
    case Match(_, len) => len
    case Run(len, _) => len
  }

  lemma {:induction false} ChooseIsSound(mem: Bytes, n: nat, i: nat, hash: seq<int>)
    requires i < n && n + 2 <= |mem| && n + 0x8000 <= 0x1_0000_0000 && Slots(hash, i)
    ensures var (t, hash') := Choose(mem, n, i, hash);
      && 1 <= Span(t) && i + Span(t) <= n
      && Slots(hash', i + Span(t))
      && Valid(mem[..i], t) && Play(mem[..i], t) == mem[..i + Span(t)]
  {
    hide RunLen, MatchLen, Slot, Short, CopyBack;
    var s := mem[..n];
    var (t, hash') := Choose(mem, n, i, hash);
    assert mem[..i] == s[..i] && mem[..i + Span(t)] == s[..i + Span(t)];
    match t
    case Lit(_) =>
    case Run(len, b) =>
      RunIsMaximal(s, i);
      assert s[..i + len] == s[..i] + Repeat(b, len);
    case Match(dist, len) =>
      NearIsTrue(i, hash[SlotAt(mem, i)]);
      CopyIsData(s, i, i - dist, len);
    assert Slots(hash', i + Span(t)) by {
      SlotsLater(hash, i, i + Span(t));
      if hash' != hash {
        assert Entry(Short(i), i + Span(t));
      }
    }
  }

  lemma SlotsLater(hash: seq<int>, i: nat, j: nat)
    requires Slots(hash, i) && i <= j
    ensures Slots(hash, j)
  {
    forall h | 0 <= h < SLOTS ensures Entry(hash[h], j) {
      if hash[h] != -1 {
        var q: nat :| q < i && hash[h] == Short(q);
      }
    }
  }

  /** Copying len bytes from pos on, one at a time, extends the data by itself. */
  lemma {:induction false} CopyIsData(s: Bytes, i: nat, pos: nat, len: nat)
    requires pos < i && i + len <= |s|
    requires forall j :: 0 <= j < len ==> Alike(s, i, pos, j)
    ensures CopyBack(s[..i], i - pos, len) == s[..i + len]
    decreases len
  {
    if len > 0 {
      assert Alike(s, i, pos, 0);
      assert s[..i] + [s[pos]] == s[..i + 1];
      var i', pos' := i + 1, pos + 1;
      forall j | 0 <= j < len - 1 ensures Alike(s, i', pos', j) {
        assert Alike(s, i, pos, j + 1);
      }
      CopyIsData(s, i', pos', len - 1);
    }
  }

  // --- the whole block ---

  ghost function Tokens(mem: Bytes, n: nat, i: nat, hash: seq<int>): seq<Token>
    requires i <= n && n + 2 <= |mem| && n + 0x8000 <= 0x1_0000_0000 && Slots(hash, i)
    decreases n - i
  {
    if i == n then []
    else
      ChooseIsSound(mem, n, i, hash);
      var (t, hash') := Choose(mem, n, i, hash);
      [t] + Tokens(mem, n, i + Span(t), hash')
  }

  function Empty(): (hash: seq<int>)
    ensures |hash| == SLOTS && forall h :: 0 <= h < SLOTS ==> hash[h] == -1
  {
    seq(SLOTS, _ => -1)
  }

  /** All tokens of a block. */
  ghost function BlockTokens(mem: Bytes, n: nat): seq<Token>
    requires n + 2 <= |mem| && n + 0x8000 <= 0x1_0000_0000
  {
    Tokens(mem, n, 0, Empty())
  }

  /** What compress_block writes: the packed tokens, or a plain copy if they are longer than the data. */
  ghost function Compressed(mem: Bytes, n: nat): Bytes
    requires n + 2 <= |mem| && n + 0x8000 <= 0x1_0000_0000
  {
    var p := [COMPRESS] + Pack(BlockTokens(mem, n));
    if |p| > n then [COPY] + mem[..n] else p
  }

  lemma {:induction false} TokensPlay(mem: Bytes, n: nat, i: nat, hash: seq<int>)
    requires i <= n && n + 2 <= |mem| && n + 0x8000 <= 0x1_0000_0000 && Slots(hash, i)
    ensures AllValid(mem[..i], Tokens(mem, n, i, hash))
    ensures PlayAll(mem[..i], Tokens(mem, n, i, hash)) == mem[..n]
    decreases n - i
  {
    hide Choose, Slots, Play;
    if i < n {
      ChooseIsSound(mem, n, i, hash);
      var (t, hash') := Choose(mem, n, i, hash);
      TokensPlay(mem, n, i + Span(t), hash');
      var ts := Tokens(mem, n, i + Span(t), hash');
      assert ([t] + ts)[1..] == ts;
    }
  }

  /** Expanding a compressed block gives the data back, whatever lies past its end, and the block
      is at most one byte longer than the data. */
  lemma {:induction false} BlockRoundTrip(mem: Bytes, n: nat)
    requires n + 2 <= |mem| && n + 0x8000 <= 0x1_0000_0000
    ensures Expand(Compressed(mem, n)) == Some(mem[..n])
    ensures |Compressed(mem, n)| <= n + 1
  {
    hide Tokens, Decode, Pack, PlayAll, AllValid;
    var ts := BlockTokens(mem, n);
    var p := [COMPRESS] + Pack(ts);
    if |p| <= n {
      TokensPlay(mem, n, 0, Empty());
      assert mem[..0] == [];
      PackNotEmpty(ts);
      TokensNotEmpty(mem, n);
      DecodePack(ts, []);
      assert p[1..] == Pack(ts);
    } else {
      assert ([COPY] + mem[..n])[1..] == mem[..n];
    }
  }

  lemma PackNotEmpty(ts: seq<Token>)
    ensures |Pack(ts)| >= 2
  {
  }

  lemma TokensNotEmpty(mem: Bytes, n: nat)
    requires 0 < n && n + 2 <= |mem| && n + 0x8000 <= 0x1_0000_0000
    ensures BlockTokens(mem, n) != []
  {
  }

  // --- packing as it goes ---

  /** Whole groups, one after another. */
  function Groups(ts: seq<Token>): Bytes
    requires |ts| % 16 == 0
  {
    if ts == [] then [] else Group(ts[..16]) + Groups(ts[16..])
  }

  lemma {:induction false} PackSplit(full: seq<Token>, cur: seq<Token>)
    requires |full| % 16 == 0 && |cur| <= 16 && (full == [] || cur != [])
    ensures Pack(full + cur) == Groups(full) + Group(cur)
    decreases |full|
  {
    hide Group;
    if full == [] {
      assert full + cur == cur && [] + Group(cur) == Group(cur);
    } else {
      assert (full + cur)[..16] == full[..16] && (full + cur)[16..] == full[16..] + cur;
      PackSplit(full[16..], cur);
      Regroup(Group(full[..16]), Groups(full[16..]), Group(cur), []);
    }
  }

  lemma {:induction false} GroupsGrow(full: seq<Token>, cur: seq<Token>)
    requires |full| % 16 == 0 && |cur| == 16
    ensures Groups(full + cur) == Groups(full) + Group(cur)
    decreases |full|
  {
    hide Group;
    if full == [] {
      assert full + cur == cur && cur[..16] == cur && cur[16..] == [];
      assert [] + Group(cur) == Group(cur) && Group(cur) + [] == Group(cur);
    } else {
      assert (full + cur)[..16] == full[..16] && (full + cur)[16..] == full[16..] + cur;
      GroupsGrow(full[16..], cur);
      Regroup(Group(full[..16]), Groups(full[16..]), Group(cur), []);
    }
  }

  lemma {:induction false} BytesAppend(ts: seq<Token>, us: seq<Token>)
    ensures BytesOf(ts + us) == BytesOf(ts) + BytesOf(us)
    decreases |ts|
  {
    if ts == [] {
      assert ts + us == us;
    } else {
      assert (ts + us)[1..] == ts[1..] + us;
      BytesAppend(ts[1..], us);
    }
  }

  lemma BytesOfOne(t: Token)
    ensures BytesOf([t]) == TokenBytes(t)
  {
    assert TokenBytes(t) + [] == TokenBytes(t);
  }

  /** More tokens never make the stream shorter. */
  lemma {:induction false} PackGrows(ts: seq<Token>, us: seq<Token>)
    ensures |Pack(ts)| <= |Pack(ts + us)|
    decreases |ts|
  {
    if |ts| <= 16 {
      if |ts + us| <= 16 {
        BytesAppend(ts, us);
      } else {
        var more := (ts + us)[..16];
        assert more == ts + more[|ts|..];
        BytesAppend(ts, more[|ts|..]);
      }
    } else {
      assert (ts + us)[..16] == ts[..16] && (ts + us)[16..] == ts[16..] + us;
      PackGrows(ts[16..], us);
    }
  }

  lemma FlagsGrow(cur: seq<Token>, t: Token, command: nat, command': nat)
    requires |cur| < 16 && Flags(command, |cur|) == FlagsOf(cur)
    requires command' == (2 * command + if Flag(t) then 1 else 0) % 0x1_0000_0000
    ensures Flags(command', |cur| + 1) == FlagsOf(cur + [t])
  {
    FlagsWrap(2 * command + if Flag(t) then 1 else 0, |cur| + 1);
    OneMoreFlag(command, Flag(t), |cur|);
    hide Flags;
    assert FlagsOf(cur + [t]) == FlagsOf(cur) + [Flag(t)];
  }

  lemma OneMoreFlag(command: nat, flag: bool, k: nat)
    ensures Flags(2 * command + if flag then 1 else 0, k + 1) == Flags(command, k) + [flag]
  {
    var w := 2 * command + if flag then 1 else 0;
    assert w / 2 == command && (w % 2 == 1) == flag;
  }

  /** Shifting a command into place gives the group's header. */
  lemma CommandIsHeader(cur: seq<Token>, command: nat)
    requires |cur| <= 16 && Flags(command, |cur|) == FlagsOf(cur)
    ensures var w := Shift(command, 16 - |cur|) % 0x1_0000_0000;
      [w / 256 % 256, w % 256] == Header(cur)
  {
    hide Flags, Shift, Value, FlagsOf;
    var k := 16 - |cur|;
    var v := Value(FlagsOf(cur));
    var w, u := Shift(command, k), Shift(v, k);
    FlagsShifted(command, |cur|, k);
    FlagsShifted(v, |cur|, k);
    ValueFlags(FlagsOf(cur));
    FlagsWrap(w, 16);
    FlagsWrap(u, 16);
    FlagsWrap(w % 0x1_0000_0000, 16);
    ShiftSixteen(1, 0);
    ShiftNothing(1);
    LowFlagsAgree(w % 0x1_0000_0000 % 0x1_0000, u % 0x1_0000, 16);
    HeaderBytes(w % 0x1_0000_0000);
    HeaderBytes(u);
  }

  lemma ShiftNothing(w: nat)
    ensures Shift(w, 0) == w
  {
  }

  lemma HeaderBytes(w: nat)
    ensures w / 256 % 256 == w % 0x1_0000 / 256 && w % 256 == w % 0x1_0000 % 256
  {
    var q, r := w / 0x1_0000, w % 0x1_0000;
    var a, b := r / 256, r % 256;
    assert w == 256 * (256 * q + a) + b;
    By256(256 * q + a, b);
    By256(q, a);
  }

  lemma By256(q: nat, r: nat)
    requires r < 256
    ensures (256 * q + r) / 256 == q && (256 * q + r) % 256 == r
  {
  }

  lemma {:induction false} LowFlagsAgree(w: nat, u: nat, k: nat)
    requires Flags(w, k) == Flags(u, k) && w < Shift(1, k) && u < Shift(1, k)
    ensures w == u
    decreases k
  {
    if k > 0 {
      assert Flags(w, k)[k - 1] == (w % 2 == 1) && Flags(u, k)[k - 1] == (u % 2 == 1);
      assert Flags(w, k)[..k - 1] == Flags(w / 2, k - 1) && Flags(u, k)[..k - 1] == Flags(u / 2, k - 1);
      LowFlagsAgree(w / 2, u / 2, k - 1);
    }
  }

  // --- the coder ---

  /** The length of the run at i, by comparing with its first byte. */
  method ScanSize(src: array<byte>, n: nat, i: nat) returns (size: nat)
    requires i < n <= src.Length
    ensures size == RunSize(src[..n], i)
  {
    ghost var s := src[..n];
    size := 1;
    RunIsMaximal(s, i);
    hide RunLen;
    while true
      invariant 1 <= size <= RunSize(s, i)
      decreases 4095 - size
    {
      if i + size >= n || src[i] != src[i + size] || size >= 0xfff {
        break;
      }
      assert s[i + size] == s[i];
      size := size + 1;
    }
  }

  /** get_match: the slot proposes a position, the bytes decide. */
  method GetMatch(src: array<byte>, i: nat, n: nat, hash: array<int>) returns (found: bool, size: nat, pos: int)
    requires i < n && n + 2 <= src.Length && n + 0x8000 <= 0x1_0000_0000
    requires Slots(hash[..], i) && RunSize(src[..n], i) < 16
    modifies hash
    ensures var (t, hash') := Choose(src[..n + 2], n, i, old(hash[..]));
      && hash[..] == hash'
      && (found ==> 0 <= pos < i && t == Match(i - pos, size))
      && (!found ==> t == Lit(src[i]))
  {
    hide RunLen, MatchLen, Slot, Short;
    ghost var s, mem := src[..n], src[..n + 2];
    assert mem[..n] == s && SlotAt(mem, i) == Slot(src[i], src[i + 1], src[i + 2]);
    var h := Slot(src[i], src[i + 1], src[i + 2]);
    ghost var before := hash[..];
    pos := hash[h];
    hash[h] := Short(i);
    ghost var after := hash[..];
    assert after == before[h := Short(i)];
    size := 0;
    if Near(i, pos) {
      NearIsTrue(i, pos);
      while true
        invariant size <= 18 && i + size <= n && hash[..] == after
        invariant MatchLen(s, i, pos, 0) == MatchLen(s, i, pos, size)
        decreases 18 - size
      {
        MatchStep(s, i, pos, size);
        if size >= 18 || i + size >= n || src[i + size] != src[pos + size] {
          break;
        }
        size := size + 1;
      }
      found := size >= 3;
    } else {
      found := false;
    }
    assert src[..n + 2] == mem;
  }

  lemma MatchStep(s: Bytes, i: nat, pos: nat, k: nat)
    requires pos < i && k <= 18 && i + k <= |s|
    ensures MatchLen(s, i, pos, k) ==
      if k >= 18 || i + k >= |s| || s[i + k] != s[pos + k] then k else MatchLen(s, i, pos, k + 1)
  {
  }

  /** What has been written: whole groups, the place of the open header, and the open group's bytes. */
  ghost predicate Written(out: Bytes, at: nat, full: seq<Token>, cur: seq<Token>, command: nat) {
    && |full| % 16 == 0 && |cur| <= 16
    && at + 2 <= |out|
    && out[..at] == [COMPRESS] + Groups(full)
    && out[at + 2..] == BytesOf(cur)
    && Flags(command, |cur|) == FlagsOf(cur)
  }

  /** With its header filled in, the open group completes the packed stream. */
  lemma WrittenClosed(out: Bytes, at: nat, full: seq<Token>, cur: seq<Token>, command: nat, h: Bytes)
    requires Written(out, at, full, cur, command) && (full == [] || cur != []) && h == Header(cur)
    ensures out[..at] + h + out[at + 2..] == [COMPRESS] + Pack(full + cur)
  {
    hide Pack, Groups, BytesOf, Flags, Header;
    PackSplit(full, cur);
    assert Group(cur) == h + BytesOf(cur);
    Regroup([COMPRESS], Groups(full), h, BytesOf(cur));
  }

  lemma WrittenMore(out: Bytes, at: nat, full: seq<Token>, cur: seq<Token>, command: nat, t: Token,
                    command': nat)
    requires Written(out, at, full, cur, command) && |cur| < 16
    requires command' == (2 * command + if Flag(t) then 1 else 0) % 0x1_0000_0000
    ensures Written(out + TokenBytes(t), at, full, cur + [t], command')
  {
    hide Groups, Flags, FlagsOf, BytesOf, TokenBytes;
    BytesAppend(cur, [t]);
    BytesOfOne(t);
    FlagsGrow(cur, t, command, command');
    assert (out + TokenBytes(t))[..at] == out[..at];
    assert (out + TokenBytes(t))[at + 2..] == out[at + 2..] + TokenBytes(t);
  }

  /** A full group is closed and the next one opened. */
  lemma WrittenNext(out: Bytes, at: nat, full: seq<Token>, cur: seq<Token>, command: nat, out': Bytes)
    requires Written(out, at, full, cur, command) && |cur| == 16
    requires |out'| == |out| + 2 && out'[..|out|] == out[..at] + Header(cur) + out[at + 2..]
    ensures out'[..|out|] == [COMPRESS] + Groups(full + cur)
    ensures out'[|out| + 2..] == BytesOf([])
  {
    hide Pack, Groups, Flags, Header;
    GroupsGrow(full, cur);
    assert Group(cur) == Header(cur) + BytesOf(cur);
    Regroup([COMPRESS], Groups(full), Header(cur), BytesOf(cur));
  }

  /** Fill in the header of the open group. */
  method CloseGroup(dst: array<byte>, at: nat, command: nat, size: nat,
                    ghost full: seq<Token>, ghost cur: seq<Token>, ghost c: nat)
    requires at + 2 <= size <= dst.Length && Written(dst[..size], at, full, cur, c)
    requires full == [] || cur != []
    requires command == Shift(c, 16 - |cur|) % 0x1_0000_0000
    modifies dst
    ensures dst[..size] == old(dst[..at]) + Header(cur) + old(dst[at + 2..size])
    ensures dst[..size] == [COMPRESS] + Pack(full + cur)
  {
    hide Pack, Groups, BytesOf, Flags, Header, Shift;
    CommandIsHeader(cur, c);
    WrittenClosed(dst[..size], at, full, cur, c, Header(cur));
    assert dst[at + 2..size] == dst[..size][at + 2..];
    dst[at] := command / 256 % 256;
    dst[at + 1] := command % 256;
    assert [dst[at], dst[at + 1]] == Header(cur);
  }

  lemma EmptySlots()
    ensures Slots(Empty(), 0)
  {
  }

  /** The stream is the packed form of the tokens so far; the rest can only make it longer. */
  lemma BlockDone(mem: Bytes, n: nat, i: nat, hash: seq<int>, ts: seq<Token>)
    requires i <= n && n + 2 <= |mem| && n + 0x8000 <= 0x1_0000_0000 && Slots(hash, i)
    requires ts + Tokens(mem, n, i, hash) == BlockTokens(mem, n)
    requires i == n || 1 + |Pack(ts)| > n
    ensures Compressed(mem, n) ==
      if 1 + |Pack(ts)| > n then [COPY] + mem[..n] else [COMPRESS] + Pack(ts)
  {
    hide Pack;
    PackGrows(ts, Tokens(mem, n, i, hash));
    if i == n {
      assert ts + [] == ts;
    }
  }

  /** The full group's header is filled in and a new group opened. */
  method NextGroup(dst: array<byte>, at: nat, command: nat, size: nat,
                   ghost full: seq<Token>, ghost cur: seq<Token>)
    returns (at': nat, size': nat)
    requires at + 2 <= size && size + 2 <= dst.Length && |cur| == 16 && command < 0x1_0000_0000
    requires Written(dst[..size], at, full, cur, command)
    modifies dst
    ensures at' == size && size' == size + 2
    ensures Written(dst[..size'], at', full + cur, [], command)
  {
    hide Groups, Flags, FlagsOf, BytesOf, Header, Pack;
    ghost var out := dst[..size];
    ShiftNothing(command);
    assert dst[at + 2..size] == out[at + 2..];
    CloseGroup(dst, at, command, size, full, cur, command);
    at' := size;
    size' := size + 2;
    assert dst[..size'][..size] == dst[..size];
    WrittenNext(out, at, full, cur, command, dst[..size']);
    NoFlags(command);
  }

  lemma NoFlags(command: nat)
    ensures Flags(command, 0) == FlagsOf([])
  {
  }

  lemma StartBlock(out: Bytes)
    requires |out| == 3 && out[0] == COMPRESS
    ensures Written(out, 1, [], [], 0)
  {
  }

  /** The next token joins the open group. */
  lemma TokensNext(mem: Bytes, n: nat, i: nat, hash: seq<int>)
    requires i < n && n + 2 <= |mem| && n + 0x8000 <= 0x1_0000_0000 && Slots(hash, i)
    ensures var (t, hash') := Choose(mem, n, i, hash);
      && 1 <= Span(t) && i + Span(t) <= n && Slots(hash', i + Span(t)) && |TokenBytes(t)| <= 4
      && Tokens(mem, n, i, hash) == [t] + Tokens(mem, n, i + Span(t), hash')
  {
    ChooseIsSound(mem, n, i, hash);
  }

  /** Choose one token at i and write it. */
  method NextToken(src: array<byte>, dst: array<byte>, n: nat, i: nat, size: nat, hash: array<int>)
    returns (size': nat, i': nat, flag: bool, ghost t: Token)
    requires src != dst && i < n && n + 2 <= src.Length && n + 0x8000 <= 0x1_0000_0000
    requires size + 4 <= dst.Length && Slots(hash[..], i)
    modifies dst, hash
    ensures (t, hash[..]) == Choose(old(src[..n + 2]), n, i, old(hash[..]))
    ensures flag == Flag(t) && i' == i + Span(t)
    ensures size' == size + |TokenBytes(t)| && size' <= dst.Length
    ensures dst[..size'] == old(dst[..size]) + TokenBytes(t)
  {
    hide RunLen, MatchLen, Slot, Slots;
    ghost var mem := src[..n + 2];
    assert mem[..n] == src[..n];
    ChooseIsSound(mem, n, i, hash[..]);
    t := Choose(mem, n, i, hash[..]).0;
    var length := ScanSize(src, n, i);
    if length >= 16 {
      size' := Put(dst, size, [0, (length - 16) / 256 % 256, (length - 16) % 256, src[i]]);
      i', flag := i + length, true;
    } else {
      var found, len, pos := GetMatch(src, i, n, hash);
      if found {
        var key := (i - pos) * 16 + (len - 3);
        size' := Put(dst, size, [key / 256 % 256, key % 256]);
        i', flag := i + len, true;
      } else {
        size' := Put(dst, size, [src[i]]);
        i', flag := i + 1, false;
      }
    }
  }

  lemma Together(full: seq<Token>, cur: seq<Token>, t: Token, more: seq<Token>)
    ensures full + (cur + [t]) + more == full + cur + ([t] + more)
  {
  }

  /** compress_block: the packed tokens, or a copy as soon as they take more room than the data. */
  method CompressBlock(src: array<byte>, dst: array<byte>, n: nat) returns (size: nat)
    requires src != dst && n + 2 <= src.Length && n + 6 <= dst.Length && n + 0x8000 <= 0x1_0000_0000
    modifies dst
    ensures size <= dst.Length && dst[..size] == Compressed(old(src[..n + 2]), n)
  {
    hide Choose, Tokens, Slots, Written, Groups, Flags, BytesOf, FlagsOf, TokenBytes, Pack, Header, Shift;
    ghost var mem := src[..n + 2];
    ghost var full: seq<Token>, cur: seq<Token> := [], [];
    var hash := new int[SLOTS](_ => -1);
    assert hash[..] == Empty();
    var bit, command, i, at := 0, 0, 0, 1;
    dst[0] := COMPRESS;
    size := 3;
    StartBlock(dst[..3]);
    EmptySlots();
    while i < n && size <= n
      invariant i <= n && size <= n + 6 && src[..n + 2] == mem
      invariant fresh(hash) && hash.Length == SLOTS
      invariant bit == |cur| <= 16 && at + 2 <= size && 0 <= command < 0x1_0000_0000
      invariant full == [] || cur != []
      invariant Written(dst[..size], at, full, cur, command)
      invariant Slots(hash[..], i)
      invariant full + cur + Tokens(mem, n, i, hash[..]) == BlockTokens(mem, n)
      decreases n - i
    {
      if bit > 15 {
        at, size := NextGroup(dst, at, command, size, full, cur);
        bit := 0;
        full, cur := full + cur, [];
      }
      TokensNext(mem, n, i, hash[..]);
      ghost var out, was := dst[..size], command;
      var flag;
      ghost var t;
      size, i, flag, t := NextToken(src, dst, n, i, size, hash);
      command := (2 * command + if flag then 1 else 0) % 0x1_0000_0000;
      WrittenMore(out, at, full, cur, was, t, command);
      Together(full, cur, t, Tokens(mem, n, i, hash[..]));
      cur := cur + [t];
      bit := bit + 1;
    }
    CloseGroup(dst, at, Shift(command, 16 - bit) % 0x1_0000_0000, size, full, cur, command);
    BlockDone(mem, n, i, hash[..], full + cur);
    if size > n {
      CopyAll(src, dst, n);
      assert src[..n] == mem[..n];
      size := n + 1;
    }
  }

  /** The data as it is. */
  method CopyAll(src: array<byte>, dst: array<byte>, n: nat)
    requires src != dst && n <= src.Length && n + 1 <= dst.Length
    modifies dst
    ensures dst[..n + 1] == [COPY] + src[..n]
  {
    dst[0] := COPY;
    assert dst[..1] == [COPY] && src[0..n] == src[..n];
    Copy(src, 0, dst, 1, n);
  }

  // --- the decoder ---

  lemma {:induction false} DecodeGrows(b: Bytes, fs: seq<bool>, out: Bytes)
    ensures Decode(b, fs, out).Some? ==> |Decode(b, fs, out).value| >= |out|
    decreases |b|, 1
  {
    hide CopyBack, Flags;
    if |b| >= 2 {
      DecodeTokenGrows(b[2..], Flags(b[0] as int * 256 + b[1] as int, 16), out);
    }
    if fs != [] {
      DecodeTokenGrows(b, fs, out);
    }
  }

  lemma {:induction false} DecodeTokenGrows(b: Bytes, fs: seq<bool>, out: Bytes)
    requires fs != []
    ensures DecodeToken(b, fs, out).Some? ==> |DecodeToken(b, fs, out).value| >= |out|
    decreases |b|, 0
  {
    hide CopyBack, Flags;
    if b != [] {
      if !fs[0] {
        DecodeGrows(b[1..], fs[1..], out + [b[0]]);
      } else if |b| >= 2 {
        var back := Distance(b[0], b[1]);
        if back != 0 {
          if back <= |out| {
            DecodeGrows(b[2..], fs[1..], CopyBack(out, back, b[1] % 16 + 3));
          }
        } else if |b| >= 4 {
          DecodeGrows(b[4..], fs[1..], out + Repeat(b[3], b[1] as int * 256 + b[2] as int + 16));
        }
      }
    }
  }

  /** Copy a match within dst, byte by byte from the front. */
  method CopyMatch(dst: array<byte>, size: nat, dist: nat, len: nat)
    requires 1 <= dist <= size && size + len <= dst.Length
    modifies dst
    ensures dst[..size + len] == CopyBack(old(dst[..size]), dist, len)
  {
    var from, to, count := size - dist, size, 0;
    while count < len
      invariant 0 <= count <= len && to == size + count && from == to - dist
      invariant CopyBack(dst[..to], dist, len - count) == CopyBack(old(dst[..size]), dist, len)
    {
      ghost var out := dst[..to];
      dst[to] := dst[from];
      assert dst[..to + 1] == out + [out[|out| - dist]];
      from, to, count := from + 1, to + 1, count + 1;
    }
  }

  /** The flags left after one has been used. */
  lemma FlagsUsed(command: nat, bit: nat)
    requires 1 <= bit <= 16
    ensures (command / 0x8000 % 2 == 1) == Flags(command, 16)[0]
    ensures Flags(2 * command % 0x1_0000_0000, 16)[..bit - 1] == Flags(command, 16)[..bit][1..]
  {
    FlagsNext(command);
    FlagsWrap(2 * command, 16);
  }

  lemma DecodeUnfold(b: Bytes, fs: seq<bool>, out: Bytes)
    requires b != []
    ensures Decode(b, fs, out) ==
      if fs != [] then DecodeToken(b, fs, out)
      else if |b| < 2 then None
      else DecodeToken(b[2..], Flags(b[0] as int * 256 + b[1] as int, 16), out)
  {
  }

  /** One token: a literal, a match or a run. */
  method OneToken(src: array<byte>, dst: array<byte>, n: nat, scan: nat, flag: bool, size: nat,
                  ghost fs: seq<bool>)
    returns (scan': nat, size': nat)
    requires src != dst && scan <= n <= src.Length && size <= dst.Length
    requires fs != [] && flag == fs[0]
    requires var r := DecodeToken(src[scan..n], fs, dst[..size]); r.Some? && |r.value| <= dst.Length
    modifies dst
    ensures scan < scan' <= n && size' <= dst.Length
    ensures Decode(src[scan'..n], fs[1..], dst[..size']) == old(DecodeToken(src[scan..n], fs, dst[..size]))
  {
    hide Decode, CopyBack, Repeat;
    ghost var b, out := src[scan..n], dst[..size];
    ghost var r := DecodeToken(b, fs, out);
    assert forall k :: 0 <= k < |b| ==> b[k] == src[scan + k];
    if !flag {
      assert src[scan + 1..n] == b[1..];
      DecodeGrows(b[1..], fs[1..], out + [b[0]]);
      dst[size] := src[scan];
      scan', size' := scan + 1, size + 1;
      assert dst[..size'] == out + [b[0]];
    } else {
      var address := src[scan] as int * 16 + src[scan + 1] as int / 16;
      if address != 0 {
        var chunk := src[scan + 1] % 16 + 3;
        assert src[scan + 2..n] == b[2..];
        DecodeGrows(b[2..], fs[1..], CopyBack(out, address, chunk));
        CopyMatch(dst, size, address, chunk);
        scan', size' := scan + 2, size + chunk;
      } else {
        var chunk := src[scan + 1] as int * 256 + src[scan + 2] as int + 16;
        assert src[scan + 4..n] == b[4..];
        DecodeGrows(b[4..], fs[1..], out + Repeat(b[3], chunk));
        Fill(dst, size, src[scan + 3], chunk);
        scan', size' := scan + 4, size + chunk;
      }
    }
  }

  /** expand_block, on any stream that stays within itself and within what it has written. */
  method ExpandBlock(src: array<byte>, dst: array<byte>, n: nat) returns (size: nat)
    requires src != dst && n <= src.Length && Expand(src[..n]).Some?
    requires |Expand(src[..n]).value| <= dst.Length
    modifies dst
    ensures size <= dst.Length && dst[..size] == Expand(src[..n]).value
  {
    hide Flags, CopyBack, Decode, DecodeToken;
    ghost var b := src[..n];
    assert forall k :: 0 <= k < n ==> b[k] == src[k];
    if src[0] == COPY {
      assert dst[..0] == [];
      Copy(src, 1, dst, 0, n - 1);
      size := n - 1;
      assert src[1..n] == b[1..];
      return;
    }
    ghost var r := Expand(b);
    var scan, command, bit := 1, 0, 0;
    size := 0;
    assert dst[..0] == [] && Flags(0, 16)[..0] == [] && src[1..n] == b[1..];
    while scan < n
      invariant 1 <= scan <= n && bit <= 16 && size <= dst.Length && src[..n] == b && 0 <= command
      invariant Decode(src[scan..n], Flags(command, 16)[..bit], dst[..size]) == r
      decreases n - scan
    {
      ghost var rest, out := src[scan..n], dst[..size];
      DecodeUnfold(rest, Flags(command, 16)[..bit], out);
      if bit == 0 {
        assert Flags(command, 16)[..0] == [];
        assert rest[0] == src[scan] && rest[1] == src[scan + 1] && rest[2..] == src[scan + 2..n];
        command := src[scan] as int * 256 + src[scan + 1] as int;
        scan := scan + 2;
        bit := 16;
        assert Flags(command, 16)[..16] == Flags(command, 16);
      }
      FlagsUsed(command, bit);
      scan, size := OneToken(src, dst, n, scan, command / 0x8000 % 2 == 1, size, Flags(command, 16)[..bit]);
      command := 2 * command % 0x1_0000_0000;
      bit := bit - 1;
    }
    assert src[n..n] == [];
    DecodeNothing(Flags(command, 16)[..bit], dst[..size]);
  }

  /** Compressing and expanding gives every block back, in at most one byte more. */
  method BlockThereAndBack(src: array<byte>, n: nat) returns (out: array<byte>, size: nat, m: nat)
    requires n + 2 <= src.Length && n + 0x8000 <= 0x1_0000_0000
    ensures fresh(out) && size <= out.Length && m <= n + 1
    ensures out[..size] == src[..n]
  {
    BlockRoundTrip(src[..n + 2], n);
    assert src[..n + 2][..n] == src[..n];
    var mid := new byte[n + 6](_ => 0);
    m := CompressBlock(src, mid, n);
    out := new byte[n](_ => 0);
    size := ExpandBlock(mid, out, m);
  }
}
