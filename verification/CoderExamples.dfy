/** The streams the coders write, byte by byte, for data that is simple enough to say so. */
module CoderExamples {
  import opened ByteString
  import opened Runs
  import RunFormat
  import RunCoders
  import BlockFormat
  import BlockCoder
  import Fraenkel
  import Mine
  import ByteBits

  // --- the run-length coders ---

  lemma WholeRun(c: byte, n: nat)
    requires n > 0
    ensures RunLen(Repeat(c, n), 0) == n
  {
    RunLenIs(Repeat(c, n), 0, n);
  }

  /** Data of one run is one token. */
  lemma OneToken(f: RunFormat.Coder, c: byte, n: nat)
    requires RunFormat.Written(f, c, n)
    ensures RunFormat.Encode(f, Repeat(c, n)) == RunFormat.Token(f, c, n)
  {
    var s := Repeat(c, n);
    WholeRun(c, n);
    hide RunLen, Repeat;
    if f == RunFormat.Bits && RunFormat.Single(c) {
      RunFormat.RepeatOnce(c);
    }
    assert RunFormat.TokenLen(f, s, 0) == n;
    hide RunFormat.TokenLen, RunFormat.Token;
    assert RunFormat.EncodeFrom(f, s, n, []) == [];
    assert RunFormat.Flush(f, []) == [];
    assert RunFormat.EncodeFrom(f, s, 0, []) == [] + RunFormat.Token(f, c, n) + [];
  }

  /** Nulls: zeros take one byte up to 127, two up to 255, and three from there on; four or more of any
      other byte take three, or five. */
  lemma NullsRun(c: byte, n: nat)
    requires if c == 0 then n >= 2 else n >= 4
    ensures RunFormat.Encode(RunFormat.Nulls, Repeat(c, n)) ==
      if c == 0 then
        if n <= 127 then [0x80 + n] else if n <= 255 then [0x81, n] else [0x80, n % 256, n / 256 % 256]
      else
        if n <= 255 then [0, n, c] else [0, 0, n % 256, n / 256 % 256, c]
  {
    OneToken(RunFormat.Nulls, c, n);
  }

  /** Rle: from three bytes on; zeros and blanks have tokens of their own up to 255. */
  lemma RleRun(c: byte, n: nat)
    requires n >= 3
    ensures RunFormat.Encode(RunFormat.Rle, Repeat(c, n)) ==
      if n <= 255 && c == 0 then [0, n]
      else if n <= 255 && c == 32 then [0x82, n]
      else if n <= 127 then [0x80 + n, c]
      else if n <= 255 then [0x80, n, c]
      else [0x81, n % 256, n / 256 % 256, c]
  {
    OneToken(RunFormat.Rle, c, n);
  }

  /** Bits: zeros take one byte up to 126, two up to 380, and three from there on. */
  lemma BitsZeros(n: nat)
    requires n >= 1
    ensures RunFormat.Encode(RunFormat.Bits, Repeat(0, n)) ==
      if n <= 126 then [0x81 + n] else if n <= 380 then [0x81, n - 127] else [0x80, n % 256, n / 256 % 256]
  {
    OneToken(RunFormat.Bits, 0, n);
  }

  /** A byte of several bits takes four bytes for four or more of it, or five. */
  lemma BitsRun(c: byte, n: nat)
    requires c != 0 && c !in {1, 2, 4, 8, 16, 32, 64, 128} && n >= 4
    ensures RunFormat.Encode(RunFormat.Bits, Repeat(c, n)) ==
      if n <= 255 then [0x81, 0xFE, n, c] else [0x81, 0xFF, n % 256, n / 256 % 256, c]
  {
    OneToken(RunFormat.Bits, c, n);
  }

  /** A byte of one bit is written as the position of the bit. */
  lemma BitsSingles()
    ensures RunFormat.Encode(RunFormat.Bits, [1]) == [0] && RunFormat.Encode(RunFormat.Bits, [2]) == [1]
    ensures RunFormat.Encode(RunFormat.Bits, [16]) == [4] && RunFormat.Encode(RunFormat.Bits, [128]) == [7]
  {
    SingleToken(1);
    SingleToken(2);
    SingleToken(16);
    SingleToken(128);
    hide RunFormat.Encode;
  }

  lemma SingleToken(c: byte)
    requires RunFormat.Single(c)
    ensures RunFormat.Encode(RunFormat.Bits, [c]) == [RunFormat.SingleBit(c)]
  {
    RunFormat.RepeatOnce(c);
    OneToken(RunFormat.Bits, c, 1);
  }

  /** Bytes that go into no token are literal strings of up to 127 bytes, or 120 for bits, behind a byte
      that says how many, plus seven for bits. */
  lemma {:induction false} Literals(f: RunFormat.Coder, s: Bytes, i: nat, lit: Bytes)
    requires i <= |s| && forall k :: 0 <= k < |s| ==> RunFormat.TokenLen(f, s, k) == 0
    requires |lit| < (if f == RunFormat.Bits then 120 else 127)
    requires |lit| + |s| - i <= if f == RunFormat.Bits then 120 else 127
    ensures var t := lit + s[i..];
      RunFormat.EncodeFrom(f, s, i, lit) ==
        if t == [] then [] else [|t| + if f == RunFormat.Bits then 7 else 0] + t
    decreases |s| - i
  {
    hide RunFormat.TokenLen, RunFormat.Token, RunFormat.EncodeFrom, RunFormat.Flush;
    FlushIs(f, lit + s[i..]);
    FlushIs(f, []);
    if i == |s| {
      EncodedEnd(f, s, lit);
      assert lit + s[i..] == lit;
    } else {
      EncodedLiteral(f, s, i, lit);
      if |lit| + 1 == RunFormat.MaxLit(f) {
        EncodedEnd(f, s, []);
        LastByte(lit, s, i);
      } else {
        Literals(f, s, i + 1, lit + [s[i]]);
        OneFurther(lit, s, i);
      }
    }
  }

  lemma EncodedEnd(f: RunFormat.Coder, s: Bytes, lit: Bytes)
    requires |lit| < RunFormat.MaxLit(f)
    ensures RunFormat.EncodeFrom(f, s, |s|, lit) == RunFormat.Flush(f, lit)
  {
  }

  lemma FlushIs(f: RunFormat.Coder, lit: Bytes)
    requires |lit| <= RunFormat.MaxLit(f)
    ensures RunFormat.MaxLit(f) == if f == RunFormat.Bits then 120 else 127
    ensures RunFormat.Flush(f, lit) == if lit == [] then [] else [|lit| + if f == RunFormat.Bits then 7 else 0] + lit
  {
  }

  lemma EncodedLiteral(f: RunFormat.Coder, s: Bytes, i: nat, lit: Bytes)
    requires i < |s| && |lit| < RunFormat.MaxLit(f) && RunFormat.TokenLen(f, s, i) == 0
    ensures RunFormat.EncodeFrom(f, s, i, lit) ==
      if |lit| + 1 == RunFormat.MaxLit(f)
      then RunFormat.Flush(f, lit + [s[i]]) + RunFormat.EncodeFrom(f, s, i + 1, [])
      else RunFormat.EncodeFrom(f, s, i + 1, lit + [s[i]])
  {
    hide RunFormat.TokenLen, RunFormat.Token, RunFormat.Flush;
  }

  lemma LastByte(lit: Bytes, s: Bytes, i: nat)
    requires i + 1 == |s|
    ensures lit + s[i..] == lit + [s[i]] && [] + s[i + 1..] == []
  {
  }

  /** A full string and one byte more. */
  function TwoStrings(f: RunFormat.Coder, t: Bytes): Bytes
    requires |t| == 1 + if f == RunFormat.Bits then 120 else 127
  {
    var max := |t| - 1;
    [127] + t[..max] + [if f == RunFormat.Bits then 8 else 1] + t[max..]
  }

  /** And one more starts a new string. */
  lemma {:induction false} OneTooMany(f: RunFormat.Coder, s: Bytes, i: nat, lit: Bytes)
    requires i <= |s| && forall k :: 0 <= k < |s| ==> RunFormat.TokenLen(f, s, k) == 0
    requires |lit| < (if f == RunFormat.Bits then 120 else 127)
    requires |lit| + |s| - i == 1 + if f == RunFormat.Bits then 120 else 127
    ensures RunFormat.EncodeFrom(f, s, i, lit) == TwoStrings(f, lit + s[i..])
    decreases |s| - i
  {
    hide RunFormat.TokenLen, RunFormat.Token, RunFormat.EncodeFrom, TwoStrings, RunFormat.Flush;
    EncodedLiteral(f, s, i, lit);
    if |lit| + 1 == RunFormat.MaxLit(f) {
      Literals(f, s, i + 1, []);
      FullString(f, lit, s, i);
    } else {
      OneTooMany(f, s, i + 1, lit + [s[i]]);
      OneFurther(lit, s, i);
    }
  }

  lemma FullString(f: RunFormat.Coder, lit: Bytes, s: Bytes, i: nat)
    requires i + 2 == |s| && |lit| + 1 == if f == RunFormat.Bits then 120 else 127
    ensures TwoStrings(f, lit + s[i..]) ==
      RunFormat.Flush(f, lit + [s[i]]) + ([if f == RunFormat.Bits then 8 else 1] + ([] + s[i + 1..]))
  {
    StringEnds(lit, s, i);
  }

  lemma StringEnds(lit: Bytes, s: Bytes, i: nat)
    requires i < |s|
    ensures var t := lit + s[i..]; t[..|lit| + 1] == lit + [s[i]] && t[|lit| + 1..] == s[i + 1..] == [] + s[i + 1..]
  {
  }

  lemma OneFurther(lit: Bytes, s: Bytes, i: nat)
    requires i < |s|
    ensures lit + [s[i]] + s[i + 1..] == lit + s[i..]
  {
  }

  /** Runs that are too short for a token. */
  lemma ShortRuns(c: byte)
    ensures RunFormat.Encode(RunFormat.Nulls, [0]) == [1, 0]
    ensures c != 0 ==> RunFormat.Encode(RunFormat.Nulls, [c, c, c]) == [3, c, c, c]
    ensures RunFormat.Encode(RunFormat.Rle, [c, c]) == [2, c, c]
    ensures c !in {0, 1, 2, 4, 8, 16, 32, 64, 128} ==> RunFormat.Encode(RunFormat.Bits, [c, c, c]) == [10, c, c, c]
  {
    Literals(RunFormat.Nulls, [0], 0, []);
    Literals(RunFormat.Rle, [c, c], 0, []);
    if c != 0 {
      Literals(RunFormat.Nulls, [c, c, c], 0, []);
    }
    if c !in {0, 1, 2, 4, 8, 16, 32, 64, 128} {
      Literals(RunFormat.Bits, [c, c, c], 0, []);
    }
  }

  /** A single byte of several bits is a literal, or a run of one if three more of it lie past the data. */
  lemma BitsOneByte(c: byte, beyond: Bytes)
    requires c !in {0, 1, 2, 4, 8, 16, 32, 64, 128}
    ensures RunCoders.BitsStream([c], beyond) == if beyond == [c, c, c] then [0x81, 0xFE, 1, c] else [8, c]
  {
    Literals(RunFormat.Bits, [c], 0, []);
  }

  // --- the block coder ---

  /** How the tokens look in a stream. */
  lemma BlockTokens(c: byte)
    ensures BlockFormat.TokenBytes(BlockFormat.Lit(c)) == [c]
    ensures BlockFormat.TokenBytes(BlockFormat.Match(3, 15)) == [0x00, 0x3C]
    ensures BlockFormat.TokenBytes(BlockFormat.Match(256, 3)) == [0x10, 0x00]
    ensures BlockFormat.TokenBytes(BlockFormat.Match(4095, 18)) == [0xFF, 0xFF]
    ensures BlockFormat.TokenBytes(BlockFormat.Run(16, c)) == [0x00, 0x00, 0x00, c]
    ensures BlockFormat.TokenBytes(BlockFormat.Run(4095, c)) == [0x00, 0x0F, 0xEF, c]
  {
  }

  /** The match that is taken goes on until the bytes differ, the data ends, or it is 18 long. */
  lemma {:induction false} LongestMatch(s: Bytes, i: nat, pos: nat, k: nat)
    requires pos < i && k <= 18 && i + k <= |s|
    ensures var m := BlockCoder.MatchLen(s, i, pos, k);
      m == 18 || i + m == |s| || s[i + m] != s[pos + m]
    decreases 18 - k
  {
    if k < 18 && i + k < |s| && BlockCoder.Alike(s, i, pos, k) {
      LongestMatch(s, i, pos, k + 1);
    }
  }

  /** The run that is taken goes on until the byte changes, the data ends, or it is 4095 long. */
  lemma LongestRun(s: Bytes, i: nat)
    requires i < |s|
    ensures var n := BlockCoder.RunSize(s, i);
      && (forall k :: i <= k < i + n ==> s[k] == s[i])
      && (n == 4095 || i + n == |s| || s[i + n] != s[i])
  {
    RunIsMaximal(s, i);
  }

  /** A block that is one run of 16 to 4095 bytes: the flags of one token, and its four bytes. */
  lemma BlockOfRun(c: byte, n: nat, mem: Bytes)
    requires 16 <= n <= 4095 && |mem| == n + 2 && mem[..n] == Repeat(c, n)
    ensures BlockCoder.Compressed(mem, n) == [0x40, 0x80, 0x00, 0x00, (n - 16) / 256, (n - 16) % 256, c]
  {
    WholeRun(c, n);
    hide RunLen, Repeat;
    var run := BlockFormat.Run(n, c);
    var hash := BlockCoder.Empty();
    BlockCoder.EmptySlots();
    assert mem[0] == mem[..n][0] == c;
    ChosenRun(mem, n, 0, hash);
    hide BlockCoder.Choose, BlockCoder.Slots;
    assert BlockCoder.Tokens(mem, n, n, hash) == [];
    assert BlockCoder.BlockTokens(mem, n) == [run];
    OneFlag(run);
  }

  lemma OneFlag(t: BlockFormat.Token)
    requires BlockFormat.Flag(t)
    ensures BlockFormat.Pack([t]) == [0x80, 0x00] + BlockFormat.TokenBytes(t)
  {
    hide BlockFormat.TokenBytes;
    var fs := BlockFormat.FlagsOf([t]);
    assert fs == [true] && fs[..0] == [];
    assert BlockFormat.Value(fs) == 1;
    ShiftFifteen();
    hide BlockFormat.Shift;
    assert [t][1..] == [];
    assert BlockFormat.BytesOf([t]) == BlockFormat.TokenBytes(t) + [];
  }

  lemma ShiftFifteen()
    ensures BlockFormat.Shift(1, 15) == 0x8000
  {
    assert BlockFormat.Shift(1, 5) == 32;
    assert BlockFormat.Shift(1, 10) == 1024;
  }

  // --- a block with a match ---

  /** abc six times, and whatever two bytes lie past the end. */
  ghost predicate SixTimes(mem: Bytes) {
    |mem| == 20 && forall i :: 0 <= i < 18 ==> mem[i] == 97 + i % 3
  }

  lemma SlotOfAbc()
    ensures BlockCoder.Slot(97, 98, 99) == 2749
  {
  }

  lemma SlotOfBca()
    ensures BlockCoder.Slot(98, 99, 97) == 896
  {
  }

  lemma SlotOfCab()
    ensures BlockCoder.Slot(99, 97, 98) == 20
  {
  }

  lemma SlotsAt(mem: Bytes, i: nat)
    requires SixTimes(mem) && i < 4
    ensures BlockCoder.SlotAt(mem, i) == if i == 1 then 896 else if i == 2 then 20 else 2749
    ensures BlockCoder.RunSize(mem[..18], i) == 1
  {
    assert mem[0] == 97 && mem[1] == 98 && mem[2] == 99 && mem[3] == 97 && mem[4] == 98 && mem[5] == 99;
    hide BlockCoder.Slot;
    SlotOfAbc();
    SlotOfBca();
    SlotOfCab();
    RunLenIs(mem[..18], i, 1);
  }

  lemma {:induction false} AlikeOn(mem: Bytes, k: nat)
    requires SixTimes(mem) && k <= 15
    ensures BlockCoder.MatchLen(mem[..18], 3, 0, k) == 15
    decreases 15 - k
  {
    if k < 15 {
      assert mem[..18][3 + k] == mem[..18][k];
      AlikeOn(mem, k + 1);
    }
  }

  lemma SmallShort(i: nat)
    requires i < 4
    ensures BlockCoder.Short(i) == i && BlockCoder.Near(3, 0)
  {
  }

  /** Without a run of sixteen and without an entry in its slot a byte is a literal. */
  lemma ChosenLit(mem: Bytes, n: nat, i: nat, hash: seq<int>)
    requires i < n && n + 2 <= |mem| && n + 0x8000 <= 0x1_0000_0000 && BlockCoder.Slots(hash, i)
    requires BlockCoder.RunSize(mem[..n], i) < 16 && hash[BlockCoder.SlotAt(mem, i)] == -1
    ensures BlockCoder.Choose(mem, n, i, hash) ==
      (BlockFormat.Lit(mem[i]), hash[BlockCoder.SlotAt(mem, i) := BlockCoder.Short(i)])
  {
    hide BlockCoder.SlotAt, BlockCoder.RunSize, BlockCoder.MatchLen, BlockCoder.Short, BlockCoder.Slots;
  }

  /** With an entry that is near and at which three bytes are alike it is a match. */
  lemma ChosenMatch(mem: Bytes, n: nat, i: nat, hash: seq<int>, pos: nat)
    requires i < n && n + 2 <= |mem| && n + 0x8000 <= 0x1_0000_0000 && BlockCoder.Slots(hash, i)
    requires BlockCoder.RunSize(mem[..n], i) < 16 && hash[BlockCoder.SlotAt(mem, i)] == pos
    requires pos < i && BlockCoder.Near(i, pos) && BlockCoder.MatchLen(mem[..n], i, pos, 0) >= 3
    ensures BlockCoder.Choose(mem, n, i, hash) ==
      (BlockFormat.Match(i - pos, BlockCoder.MatchLen(mem[..n], i, pos, 0)),
       hash[BlockCoder.SlotAt(mem, i) := BlockCoder.Short(i)])
  {
    hide BlockCoder.SlotAt, BlockCoder.RunSize, BlockCoder.MatchLen, BlockCoder.Short, BlockCoder.Slots;
    hide BlockCoder.Near;
  }

  /** A run of sixteen or more is a run, and the slots stay. */
  lemma ChosenRun(mem: Bytes, n: nat, i: nat, hash: seq<int>)
    requires i < n && n + 2 <= |mem| && n + 0x8000 <= 0x1_0000_0000 && BlockCoder.Slots(hash, i)
    requires BlockCoder.RunSize(mem[..n], i) >= 16
    ensures BlockCoder.Choose(mem, n, i, hash) ==
      (BlockFormat.Run(BlockCoder.RunSize(mem[..n], i), mem[i]), hash)
  {
    hide BlockCoder.SlotAt, BlockCoder.RunSize, BlockCoder.MatchLen, BlockCoder.Short, BlockCoder.Slots;
  }

  /** The first three bytes are literals, each entered in its slot. */
  lemma FirstOfSix(mem: Bytes, i: nat, hash: seq<int>)
    requires SixTimes(mem) && i < 3 && BlockCoder.Slots(hash, i) && hash[BlockCoder.SlotAt(mem, i)] == -1
    ensures BlockCoder.Choose(mem, 18, i, hash) ==
      (BlockFormat.Lit(mem[i]), hash[BlockCoder.SlotAt(mem, i) := i])
  {
    SlotsAt(mem, i);
    SmallShort(i);
    hide BlockCoder.SlotAt, BlockCoder.RunSize, BlockCoder.Choose, BlockCoder.Slots, BlockCoder.Short, SixTimes;
    ChosenLit(mem, 18, i, hash);
  }

  /** The fourth finds the first. */
  lemma FourthOfSix(mem: Bytes, hash: seq<int>)
    requires SixTimes(mem) && BlockCoder.Slots(hash, 3) && hash[2749] == 0
    ensures BlockCoder.Choose(mem, 18, 3, hash) == (BlockFormat.Match(3, 15), hash[2749 := 3])
  {
    SlotsAt(mem, 3);
    AlikeOn(mem, 0);
    SmallShort(3);
    ChosenMatch(mem, 18, 3, hash, 0);
    hide BlockCoder.SlotAt, BlockCoder.RunSize, BlockCoder.Choose, BlockCoder.Slots, BlockCoder.Short;
    hide BlockCoder.MatchLen, BlockCoder.Near, SixTimes;
  }

  lemma TokensNext(mem: Bytes, n: nat, i: nat, hash: seq<int>, t: BlockFormat.Token, next: seq<int>)
    requires i < n && n + 2 <= |mem| && n + 0x8000 <= 0x1_0000_0000 && BlockCoder.Slots(hash, i)
    requires BlockCoder.Choose(mem, n, i, hash) == (t, next)
    ensures i + BlockCoder.Span(t) <= n && BlockCoder.Slots(next, i + BlockCoder.Span(t))
    ensures BlockCoder.Tokens(mem, n, i, hash) == [t] + BlockCoder.Tokens(mem, n, i + BlockCoder.Span(t), next)
  {
    hide BlockCoder.Choose, BlockCoder.Slots;
    BlockCoder.ChooseIsSound(mem, n, i, hash);
  }

  lemma TokensEnd(mem: Bytes, n: nat, hash: seq<int>)
    requires n + 2 <= |mem| && n + 0x8000 <= 0x1_0000_0000 && BlockCoder.Slots(hash, n)
    ensures BlockCoder.Tokens(mem, n, n, hash) == []
  {
  }

  lemma StartOfSix(mem: Bytes)
    requires SixTimes(mem)
    ensures |mem| == 20 && mem[0] == 97 && mem[1] == 98 && mem[2] == 99
  {
  }

  lemma SlotsSize(hash: seq<int>, i: nat)
    requires BlockCoder.Slots(hash, i)
    ensures |hash| == 4096
  {
  }

  lemma SixFromThree(mem: Bytes, hash: seq<int>)
    requires SixTimes(mem) && BlockCoder.Slots(hash, 3) && hash[2749] == 0
    ensures BlockCoder.Tokens(mem, 18, 3, hash) == [BlockFormat.Match(3, 15)]
  {
    SlotsAt(mem, 3);
    assert |mem| == 20 && |hash| == 4096;
    hide BlockCoder.Choose, BlockCoder.SlotAt, BlockCoder.Slots, BlockCoder.Tokens, SixTimes;
    FourthOfSix(mem, hash);
    TokensNext(mem, 18, 3, hash, BlockFormat.Match(3, 15), hash[2749 := 3]);
    TokensEnd(mem, 18, hash[2749 := 3]);
  }

  lemma SixFromTwo(mem: Bytes, hash: seq<int>)
    requires SixTimes(mem) && BlockCoder.Slots(hash, 2) && hash[2749] == 0 && hash[20] == -1
    ensures BlockCoder.Tokens(mem, 18, 2, hash) == [BlockFormat.Lit(99), BlockFormat.Match(3, 15)]
  {
    hide BlockCoder.Choose, BlockCoder.SlotAt, BlockCoder.Slots, BlockCoder.Tokens, SixTimes;
    StartOfSix(mem);
    SlotsSize(hash, 2);
    SlotsAt(mem, 2);
    FirstOfSix(mem, 2, hash);
    TokensNext(mem, 18, 2, hash, BlockFormat.Lit(99), hash[20 := 2]);
    SixFromThree(mem, hash[20 := 2]);
  }

  lemma SixFromOne(mem: Bytes, hash: seq<int>)
    requires SixTimes(mem) && BlockCoder.Slots(hash, 1) && hash[2749] == 0 && hash[896] == -1 && hash[20] == -1
    ensures BlockCoder.Tokens(mem, 18, 1, hash) ==
      [BlockFormat.Lit(98), BlockFormat.Lit(99), BlockFormat.Match(3, 15)]
  {
    hide BlockCoder.Choose, BlockCoder.SlotAt, BlockCoder.Slots, BlockCoder.Tokens, SixTimes;
    StartOfSix(mem);
    SlotsSize(hash, 1);
    SlotsAt(mem, 1);
    FirstOfSix(mem, 1, hash);
    TokensNext(mem, 18, 1, hash, BlockFormat.Lit(98), hash[896 := 1]);
    SixFromTwo(mem, hash[896 := 1]);
  }

  lemma SixFromZero(mem: Bytes, hash: seq<int>)
    requires SixTimes(mem) && BlockCoder.Slots(hash, 0)
    requires hash[2749] == -1 && hash[896] == -1 && hash[20] == -1
    ensures BlockCoder.Tokens(mem, 18, 0, hash) ==
      [BlockFormat.Lit(97), BlockFormat.Lit(98), BlockFormat.Lit(99), BlockFormat.Match(3, 15)]
  {
    hide BlockCoder.Choose, BlockCoder.SlotAt, BlockCoder.Slots, BlockCoder.Tokens, SixTimes;
    StartOfSix(mem);
    SlotsSize(hash, 0);
    SlotsAt(mem, 0);
    FirstOfSix(mem, 0, hash);
    TokensNext(mem, 18, 0, hash, BlockFormat.Lit(97), hash[2749 := 0]);
    SixFromOne(mem, hash[2749 := 0]);
  }

  lemma TokensOfSix(mem: Bytes)
    requires SixTimes(mem)
    ensures BlockCoder.BlockTokens(mem, 18) ==
      [BlockFormat.Lit(97), BlockFormat.Lit(98), BlockFormat.Lit(99), BlockFormat.Match(3, 15)]
  {
    hide BlockCoder.Tokens, BlockCoder.Choose, BlockCoder.Slots;
    BlockCoder.EmptySlots();
    SixFromZero(mem, BlockCoder.Empty());
  }

  lemma FourFlags(a: BlockFormat.Token, b: BlockFormat.Token, c: BlockFormat.Token, m: BlockFormat.Token)
    requires a.Lit? && b.Lit? && c.Lit? && !m.Lit?
    ensures BlockFormat.Pack([a, b, c, m]) ==
      [0x10, 0x00] + (BlockFormat.TokenBytes(a) + BlockFormat.TokenBytes(b) + BlockFormat.TokenBytes(c)
      + BlockFormat.TokenBytes(m))
  {
    hide BlockFormat.TokenBytes;
    var fs := BlockFormat.FlagsOf([a, b, c, m]);
    assert fs == [false, false, false, true];
    assert fs[..3] == [false, false, false] && fs[..3][..2] == [false, false] && [false, false][..1] == [false];
    assert BlockFormat.Value([false]) == 0 && BlockFormat.Value([false, false]) == 0;
    assert BlockFormat.Value(fs[..3]) == 0 && BlockFormat.Value(fs) == 1;
    assert BlockFormat.Shift(1, 6) == 64;
    assert BlockFormat.Shift(1, 12) == 4096;
    hide BlockFormat.Shift;
    FourBytes(a, b, c, m);
  }

  lemma FourBytes(a: BlockFormat.Token, b: BlockFormat.Token, c: BlockFormat.Token, m: BlockFormat.Token)
    ensures BlockFormat.BytesOf([a, b, c, m]) ==
      BlockFormat.TokenBytes(a) + BlockFormat.TokenBytes(b) + BlockFormat.TokenBytes(c) + BlockFormat.TokenBytes(m)
  {
    hide BlockFormat.TokenBytes;
    assert [a, b, c, m] == [a, b] + [c, m] && [a, b] == [a] + [b] && [c, m] == [c] + [m];
    BlockCoder.BytesAppend([a, b], [c, m]);
    BlockCoder.BytesAppend([a], [b]);
    BlockCoder.BytesAppend([c], [m]);
    BlockCoder.BytesOfOne(a);
    BlockCoder.BytesOfOne(b);
    BlockCoder.BytesOfOne(c);
    BlockCoder.BytesOfOne(m);
  }

  /** Eighteen bytes in eight: the flags, the three letters, and a match three back that copies itself. */
  lemma BlockOfSix(mem: Bytes)
    requires SixTimes(mem)
    ensures BlockCoder.Compressed(mem, 18) == [0x40, 0x10, 0x00, 97, 98, 99, 0x00, 0x3C]
  {
    hide BlockCoder.BlockTokens, BlockFormat.Pack, BlockFormat.TokenBytes, BlockCoder.Compressed, SixTimes;
    StartOfSix(mem);
    TokensOfSix(mem);
    FourFlags(BlockFormat.Lit(97), BlockFormat.Lit(98), BlockFormat.Lit(99), BlockFormat.Match(3, 15));
    SixBytes();
    Smaller(mem, 18);
    assert [0x40] + ([0x10, 0x00] + [97, 98, 99, 0x00, 0x3C]) == [0x40, 0x10, 0x00, 97, 98, 99, 0x00, 0x3C];
  }

  lemma Smaller(mem: Bytes, n: nat)
    requires n + 2 <= |mem| && n + 0x8000 <= 0x1_0000_0000
    ensures var p := BlockFormat.Pack(BlockCoder.BlockTokens(mem, n));
      1 + |p| <= n ==> BlockCoder.Compressed(mem, n) == [0x40] + p
  {
    hide BlockCoder.BlockTokens, BlockFormat.Pack;
  }

  /** Packed, a block is three bytes at least, so that fewer are copied. */
  lemma ShortBlock(mem: Bytes, n: nat)
    requires n < 3 && |mem| == n + 2
    ensures BlockCoder.Compressed(mem, n) == [0x80] + mem[..n]
  {
    hide BlockCoder.BlockTokens, BlockFormat.Pack;
    BlockCoder.PackNotEmpty(BlockCoder.BlockTokens(mem, n));
  }

  lemma SixBytes()
    ensures BlockFormat.TokenBytes(BlockFormat.Lit(97)) + BlockFormat.TokenBytes(BlockFormat.Lit(98))
      + BlockFormat.TokenBytes(BlockFormat.Lit(99)) + BlockFormat.TokenBytes(BlockFormat.Match(3, 15))
      == [97, 98, 99, 0x00, 0x3C]
  {
  }

  // --- the Fraenkel coder ---

  /** Three bytes: the one that is set, and a mask with the bit of its place. */
  lemma FraenkelThree()
    ensures Fraenkel.Stream([0, 0, 5]) == [5, 4]
  {
    var s: ByteBits.Octets := [0, 0, 5];
    LastOnly([0, 0], 5);
    LastMask(s, 0);
    hide Fraenkel.Mask, Fraenkel.NonZero;
    assert Fraenkel.Up(s) == [4];
    OneLevel(s);
  }

  lemma LastOnly(zeros: ByteBits.Octets, c: bv8)
    requires c != 0 && forall i :: 0 <= i < |zeros| ==> zeros[i] == 0
    ensures Fraenkel.NonZero(zeros + [c]) == [c]
  {
    assert (zeros + [c])[..|zeros|] == zeros;
    Fraenkel.NothingNonZero(zeros);
  }

  /** The mask of a group whose third byte, at most, is set. */
  lemma LastMask(s: ByteBits.Octets, lo: nat)
    requires lo + 3 == |s| && s[lo] == 0 && s[lo + 1] == 0 && s[lo + 2] != 0
    ensures Fraenkel.Mask(s, lo, lo + 3) == 4
  {
    assert Fraenkel.Mask(s, lo, lo) == 0;
    assert Fraenkel.Mask(s, lo, lo + 1) == 0;
    assert Fraenkel.Mask(s, lo, lo + 2) == 0;
  }

  /** Up to eight bytes have one level of masks, which is the root. */
  lemma OneLevel(s: ByteBits.Octets)
    requires 0 < |s| <= 8
    ensures Fraenkel.Stream(s) == Fraenkel.NonZero(s) + Fraenkel.Up(s)
  {
    DepthOfFew(|s|);
    BelowOne(s);
    hide Fraenkel.NonZero, Fraenkel.Up, Fraenkel.Level, Fraenkel.Below, Fraenkel.Depth;
  }

  lemma DepthOfFew(n: nat)
    ensures 0 < n <= 8 ==> Fraenkel.Depth(n) == 1
    ensures 8 < n <= 64 ==> Fraenkel.Depth(n) == 2
  {
    if 8 < n <= 64 {
      assert Fraenkel.Depth(Fraenkel.Groups(n)) == 1;
    }
  }

  lemma BelowOne(s: ByteBits.Octets)
    ensures Fraenkel.Below(s, 1) == Fraenkel.NonZero(s) && Fraenkel.Level(s, 1) == Fraenkel.Up(s)
  {
    Fraenkel.LevelZero(s);
    Fraenkel.NextLevel(s, 0);
    hide Fraenkel.NonZero, Fraenkel.Up, Fraenkel.Level, Fraenkel.Below;
    NothingBefore(Fraenkel.NonZero(s));
  }

  lemma NothingBefore(x: ByteBits.Octets)
    ensures [] + x == x
  {
  }

  /** Nine to 64 bytes have two: first the bytes that are set, then the masks that are, then the root. */
  lemma TwoLevels(s: ByteBits.Octets)
    requires 8 < |s| <= 64
    ensures Fraenkel.Stream(s) ==
      Fraenkel.NonZero(s) + Fraenkel.NonZero(Fraenkel.Up(s)) + Fraenkel.Up(Fraenkel.Up(s))
  {
    DepthOfFew(|s|);
    BelowOne(s);
    Fraenkel.NextLevel(s, 1);
    hide Fraenkel.NonZero, Fraenkel.Up, Fraenkel.Level, Fraenkel.Below, Fraenkel.Depth;
  }

  // --- the repeated-block coder ---

  /** Headers: the length in four, twelve or 28 bits, the most significant first; 16 and 32 mark the
      longer ones, 64 a period, which follows, and 128 a repetition. */
  lemma MineHeaders()
    ensures Mine.Header(5, 1, false) == [5] && Mine.Header(5, 1, true) == [0x85]
    ensures Mine.Header(5, 3, true) == [0xC5, 3] && Mine.Header(300, 1, true) == [0x91, 0x2C]
    ensures Mine.Header(100, 1, false) == [0x10, 100] && Mine.Header(4095, 2, true) == [0xDF, 0xFF, 2]
    ensures Mine.Header(0x123_4567, 1, true) == [0xA1, 0x23, 0x45, 0x67]
  {
  }

  /** A run of n bytes is repeated n - 1 times, and its last byte is a literal. */
  lemma MineRun(c: byte, n: nat, g: Mine.Segment)
    requires 4 <= n <= 0x1000_0000 && Mine.Chosen(Repeat(c, n), 0, g)
    ensures g == Mine.Rep([c], n - 1)
  {
    var s := Repeat(c, n);
    RunCount(c, n, 2);
    assert Mine.Candidate(s, 0, 1);
    Mine.SpanOf(1, 1);
    assert g.Rep?;
    var v := |g.block|;
    if v > 1 {
      Mine.CountIsTimes(s, 0, v);
      CountBound(Mine.Count(s, 0, v), v, n);
    }
  }

  lemma CountBound(count: nat, v: nat, n: nat)
    requires Mine.Span(count, v) < n && v > 1 && count > 0 && n > 1
    ensures Mine.Ratio(1, n - 1) <= Mine.Ratio(v, count)
  {
    Mine.SpanOf(count, v);
    Fractions(v as real, count as real, (n - 1) as real);
  }

  lemma Fractions(v: real, c: real, m: real)
    requires v >= 1.0 && 0.0 < c <= m
    ensures 1.0 / m <= v / c
  {
    var x, y := 1.0 / m, v / c;
    assert x * m == 1.0 && y * c == v;
    assert y >= 0.0;
    Products(x, m, y, c);
  }

  lemma Products(x: real, m: real, y: real, c: real)
    requires 0.0 < c <= m && x * m <= y * c && y >= 0.0
    ensures x <= y
  {
    if x > y {
      MoreTimes(x, m, y, c);
    }
  }

  lemma MoreTimes(x: real, m: real, y: real, c: real)
    requires 0.0 < c <= m && x > y >= 0.0
    ensures x * m > y * c
  {
    assert x * m > y * m >= y * c;
  }

  lemma {:induction false} RunCount(c: byte, n: nat, k: nat)
    requires 2 <= k <= n - 1 <= 0xFFF_FFFF
    ensures Mine.Extend(Repeat(c, n), 0, 1, k) == n - 1
    decreases n - k
  {
    var s := Repeat(c, n);
    Mine.SpanOf(k, 1);
    if k < n - 1 {
      assert s[0..1] == [c] == s[k..k + 1];
      RunCount(c, n, k + 1);
    }
  }

  /** A block that repeats ten thousand times for each of its bytes ends the search: no longer one is
      looked at. */
  lemma MineGoodEnough(s: Bytes, i: nat, g: Mine.Segment, w: nat)
    requires Mine.Chosen(s, i, g) && Mine.Candidate(s, i, w) && Mine.Count(s, i, w) >= 10000 * w
    ensures g.Rep? && |g.block| <= w
  {
    Tenths(w, Mine.Count(s, i, w));
    hide Mine.Candidate, Mine.Count, Mine.Ratio;
  }

  /** If the chosen block repeats less often than that, none repeats more often for its length. */
  lemma MineBestOfAll(s: Bytes, i: nat, g: Mine.Segment, w: nat)
    requires Mine.Chosen(s, i, g) && Mine.Candidate(s, i, w) && g.Rep? && g.count < 10000 * |g.block|
    ensures Mine.Ratio(w, Mine.Count(s, i, w)) >= Mine.Ratio(|g.block|, g.count)
  {
    Tenths(|g.block|, Mine.Count(s, i, |g.block|));
    hide Mine.Candidate, Mine.Count, Mine.Ratio;
  }

  lemma Tenths(v: nat, count: nat)
    requires count > 0
    ensures Mine.Ratio(v, count) <= 0.0001 <==> count >= 10000 * v
  {
    var r := v as real / count as real;
    assert r * count as real == v as real;
    if r <= 0.0001 {
      TimesMore(r, 0.0001, count as real);
    } else {
      MoreTimes(r, count as real, 0.0001, count as real);
    }
  }

  lemma TimesMore(x: real, y: real, c: real)
    requires x <= y && c > 0.0
    ensures x * c <= y * c
  {
  }

  /** Bytes that all differ are literals, as many as 127 at a time. */
  lemma MineDistinct(s: Bytes, g: Mine.Segment)
    requires s != [] && Mine.Distinct(s) && Mine.Chosen(s, 0, g)
    ensures g == Mine.Lit(if |s| <= 127 then s else s[..127])
  {
    forall v: nat | Mine.Candidate(s, 0, v)
      ensures s[0] == s[v]
    {
      BlockAgain(s, v);
    }
    hide Mine.Candidate, Mine.Best, Mine.Count, Mine.Ratio, Mine.RatioAt;
    LitOfAll(s, g);
  }

  lemma BlockAgain(s: Bytes, v: nat)
    requires Mine.Candidate(s, 0, v)
    ensures 0 < v < |s| && s[0] == s[v]
  {
    assert s[0..v][0] == s[v..2 * v][0];
  }

  lemma LitOfAll(s: Bytes, g: Mine.Segment)
    requires s != [] && Mine.Distinct(s) && (forall v: nat :: !Mine.Candidate(s, 0, v)) && Mine.Chosen(s, 0, g)
    ensures g == Mine.Lit(if |s| <= 127 then s else s[..127])
  {
    hide Mine.Candidate, Mine.Count, Mine.Ratio, Mine.RatioAt;
    assert g.Lit?;
    var n := if |s| <= 127 then |s| else 127;
    assert s[0..n] == s[..n];
    assert Mine.Longest(s, 0, n);
    Mine.LongestOnce(s, 0, |g.bytes|, n);
    Mine.LongestOnce(s, 0, n, |g.bytes|);
  }

  /** A byte that comes back ends a literal string. */
  lemma MinePair(c: byte, g: Mine.Segment)
    requires Mine.Chosen([c, c], 0, g)
    ensures g == Mine.Lit([c])
  {
    assert g.Lit?;
    var s := [c, c];
    assert s[0..1] == [c];
    assert Mine.Longest(s, 0, 1);
    Mine.LongestOnce(s, 0, |g.bytes|, 1);
    Mine.LongestOnce(s, 0, 1, |g.bytes|);
  }
}
