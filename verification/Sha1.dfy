/** SHA-1 the way it runs: a context that takes a message in pieces, on a machine of either byte
    order. */
module Sha1Context {
  import opened ByteString
  import opened ByteBits
  import opened Sha1Spec

  // --- the functions as the code writes them ---

  function F1(x: bv32, y: bv32, z: bv32): bv32 {
    (x & y) | (!x & z)
  }

  function F3(x: bv32, y: bv32, z: bv32): bv32 {
    (x & y) | (x & z) | (y & z)
  }

  lemma ChoiceBits(x: bv32, y: bv32, z: bv32)
    ensures (x & y) | (!x & z) == (x & y) ^ (!x & z)
  {
  }

  lemma MajorityBits(x: bv32, y: bv32, z: bv32)
    ensures (x & y) | (x & z) | (y & z) == (x & y) ^ (x & z) ^ (y & z)
  {
  }

  lemma CodeChoice(x: bv32, y: bv32, z: bv32)
    ensures F1(x, y, z) == Ch(x, y, z)
  {
    ChoiceBits(x, y, z);
  }

  lemma CodeMajority(x: bv32, y: bv32, z: bv32)
    ensures F3(x, y, z) == Maj(x, y, z)
  {
    MajorityBits(x, y, z);
  }

  // --- words in memory ---

  /** The i-th word of some memory, on a machine of the given byte order. */
  function LoadWord(little: bool, mem: Octets, i: nat): bv32
    requires 4 * i + 4 <= |mem|
  {
    if little then BigEndian(mem[4 * i + 3], mem[4 * i + 2], mem[4 * i + 1], mem[4 * i])
    else WordOf(mem, i)
  }

  /** The memory holds the words of a block, in the machine's byte order. */
  ghost predicate Loaded(little: bool, mem: Octets, block: Octets) {
    |mem| == BLOCK && |block| == BLOCK && forall i :: 0 <= i < 16 ==> LoadWord(little, mem, i) == WordOf(block, i)
  }

  class Context {
    const littleEndian: bool
    const digest: array<bv32>
    const data: array<bv8>
    var countLo: nat
    var countHi: nat
    var local: nat
    /** Everything the context was given so far, and how much of it is hashed. */
    ghost var message: Octets
    ghost var blocks: nat

    ghost predicate Shape()
      reads this
    {
      digest.Length == 5 && data.Length == BLOCK
    }

    ghost function State(): Five
      reads digest
      requires digest.Length == 5
    {
      Five(digest[0], digest[1], digest[2], digest[3], digest[4])
    }

    /** hi:lo is eight times the bytes seen, modulo 2^64. */
    ghost predicate Counted()
      reads this
    {
      countLo < WORD && countHi < WORD && countHi * WORD + countLo == 8 * |message| % TWO64
    }

    /** Whole blocks are hashed, the rest waits in data. */
    ghost predicate Valid()
      reads this, digest, data
    {
      && Shape() && Counted() && local < BLOCK && |message| == BLOCK * blocks + local
      && State() == Hashed(message, blocks) && data[..local] == message[BLOCK * blocks..]
    }

    /** SHA1Init. */
    constructor (littleEndian: bool)
      ensures Valid() && message == [] && fresh(digest) && fresh(data)
    {
      this.littleEndian := littleEndian;
      digest := new bv32[5];
      data := new bv8[BLOCK];
      countLo, countHi, local, message, blocks := 0, 0, 0, [], 0;
      new;
      digest[0], digest[1], digest[2], digest[3], digest[4] :=
        0x67452301, 0xefcdab89, 0x98badcfe, 0x10325476, 0xc3d2e1f0;
    }

    /** maybe_byte_reverse: on a little-endian machine, turn every word of the buffer round. */
    method MaybeByteReverse()
      requires Shape()
      modifies data
      ensures Loaded(littleEndian, data[..], old(data[..]))
    {
      ghost var before := data[..];
      if littleEndian {
        for i := 0 to 16
          invariant forall k :: 0 <= k < i ==> Turned(data[..], before, k)
          invariant forall j :: 4 * i <= j < BLOCK ==> data[j] == before[j]
        {
          ghost var was := data[..];
          var cp := 4 * i;
          data[cp], data[cp + 1], data[cp + 2], data[cp + 3] := data[cp + 3], data[cp + 2], data[cp + 1], data[cp];
          forall k | 0 <= k < i
            ensures Turned(data[..], before, k)
          {
            assert Turned(was, before, k);
          }
        }
        TurnedIsLoaded(data[..], before);
      }
    }

    /** The words of the buffer, and those mixed from them. */
    method Expand(ghost block: Octets) returns (w: array<bv32>)
      requires Shape() && Loaded(littleEndian, data[..], block)
      ensures fresh(w) && w.Length == 80 && forall t :: 0 <= t < 80 ==> w[t] == Schedule(block, t)
    {
      hide Mix, WordOf, LoadWord, Schedule;
      w := new bv32[80];
      for i := 0 to 16
        invariant forall t :: 0 <= t < i ==> w[t] == Schedule(block, t)
      {
        ScheduleIs(block, i);
        w[i] := LoadWord(littleEndian, data[..], i);
      }
      for i := 16 to 80
        invariant forall t :: 0 <= t < i ==> w[t] == Schedule(block, t)
      {
        ScheduleIs(block, i);
        w[i] := Mix(w[i - 3], w[i - 8], w[i - 14], w[i - 16]);
      }
    }

    /** sha_transform: mix the words of the buffer into the digest. */
    method Transform(ghost block: Octets)
      requires Shape() && |block| == BLOCK && Loaded(littleEndian, data[..], block)
      modifies digest
      ensures State() == Compress(old(State()), block)
    {
      hide Round, Schedule, Rounds, Compress, Loaded;
      ghost var h := State();
      var w := Expand(block);
      var s := Five(digest[0], digest[1], digest[2], digest[3], digest[4]);
      RoundsStart(h, block);
      for i := 0 to 80
        invariant State() == h && s == Rounds(h, block, i)
        invariant forall t :: 0 <= t < 80 ==> w[t] == Schedule(block, t)
      {
        RoundsNext(h, block, i);
        s := CodeRound(s, i, w[i]);
      }
      AddDigest(s);
    }

    method AddDigest(s: Five)
      requires Shape()
      modifies digest
      ensures State() == Add(old(State()), s)
    {
      hide Plus;
      digest[0] := Plus(digest[0], s.a);
      digest[1] := Plus(digest[1], s.b);
      digest[2] := Plus(digest[2], s.c);
      digest[3] := Plus(digest[3], s.d);
      digest[4] := Plus(digest[4], s.e);
    }

    /** Hash the block in the buffer. */
    method Process()
      requires Shape()
      modifies data, digest
      ensures State() == Compress(old(State()), old(data[..]))
    {
      hide Compress, Loaded;
      ghost var block := data[..];
      MaybeByteReverse();
      Transform(block);
    }

    /** A memcpy into the buffer. */
    method CopyIn(buffer: array<bv8>, from: nat, at: nat, n: nat)
      requires Shape() && buffer != data && from + n <= buffer.Length && at + n <= BLOCK
      modifies data
      ensures data[..at] == old(data[..at]) && data[at..at + n] == buffer[from..from + n]
      ensures data[at + n..] == old(data[at + n..])
    {
      for i := 0 to n
        invariant data[..at] == old(data[..at]) && data[at..at + i] == buffer[from..from + i]
        invariant data[at + n..] == old(data[at + n..])
      {
        data[at + i] := buffer[from + i];
        assert data[at..at + i + 1] == data[at..at + i] + [buffer[from + i]];
      }
    }

    /** Count the bytes to come in the two words of the bit counter. */
    method CountBytes(count: nat, ghost more: Octets)
      requires Counted() && count == |more| && count < WORD
      modifies this`countLo, this`countHi
      ensures countLo < WORD && countHi < WORD
      ensures countHi * WORD + countLo == 8 * |message + more| % TWO64
    {
      CarryRight(countLo, countHi, |message|, count);
      hide Shifted, Wrap;
      var lo := Wrap(countLo, Shifted(count));
      if lo < countLo {
        countHi := Wrap(countHi, 1);
      }
      countLo := lo;
      countHi := Wrap(countHi, count / 0x2000_0000);
    }

    /** Hash the block in the buffer, which is the next one of the message. */
    method ProcessNext(ghost m: Octets)
      requires Shape() && BLOCK * (blocks + 1) <= |m|
      requires State() == Hashed(m, blocks) && data[..] == m[BLOCK * blocks..BLOCK * (blocks + 1)]
      modifies data, digest, this`blocks
      ensures blocks == old(blocks) + 1 && State() == Hashed(m, blocks)
    {
      hide Compress;
      Process();
      blocks := blocks + 1;
    }

    /** Fill up a block that was begun. It is hashed if it gets full. */
    method FillUp(buffer: array<bv8>, count: nat, ghost m: Octets) returns (i: nat)
      requires Shape() && buffer != data && count <= buffer.Length && 0 < local < BLOCK
      requires m == message + buffer[..count] && |message| == BLOCK * blocks + local
      requires State() == Hashed(m, blocks) && data[..local] == message[BLOCK * blocks..]
      modifies data, digest, this`blocks, this`local
      ensures i <= count && (local < BLOCK ==> i == count)
      ensures local <= BLOCK && |message| + i == BLOCK * old(blocks) + local
      ensures blocks == old(blocks) + if local == BLOCK then 1 else 0
      ensures State() == Hashed(m, blocks)
      ensures local < BLOCK ==> data[..local] == m[BLOCK * blocks..]
    {
      hide Hashed;
      ghost var b := blocks;
      i := BLOCK - local;
      if i > count {
        i := count;
      }
      CopyIn(buffer, 0, local, i);
      assert data[..local + i] == data[..local] + data[local..local + i];
      FilledUp(message, buffer[..count], m, blocks, local, i);
      assert buffer[..count][..i] == buffer[0..i];
      local := local + i;
      if local == BLOCK {
        assert data[..] == data[..local];
        ProcessNext(m);
      }
    }

    /** Copy a piece of the buffer to the start of the block. */
    method BlockIn(buffer: array<bv8>, from: nat, n: nat, ghost count: nat, ghost start: Octets, ghost m: Octets)
      requires Shape() && buffer != data && from + n <= count <= buffer.Length && n <= BLOCK
      requires m == start + buffer[..count]
      modifies data
      ensures data[..n] == m[|start| + from..|start| + from + n]
    {
      CopyIn(buffer, from, 0, n);
      BufferPart(start, buffer[..count], m, from, n);
      assert buffer[..count][from..from + n] == buffer[from..from + n] == data[..n];
    }

    /** Hash whole blocks straight from the buffer and keep the rest. */
    method WholeBlocks(buffer: array<bv8>, at: nat, count: nat, ghost start: Octets, ghost m: Octets)
      requires Shape() && buffer != data && at <= count <= buffer.Length && m == start + buffer[..count]
      requires |start| + at == BLOCK * blocks && State() == Hashed(m, blocks)
      modifies this`local, this`blocks, data, digest
      ensures local < BLOCK && |m| == BLOCK * blocks + local
      ensures State() == Hashed(m, blocks) && data[..local] == m[BLOCK * blocks..]
    {
      hide Hashed;
      var from, left := at, count - at;
      while left >= BLOCK
        invariant left == count - from && from <= count && Shape() && m == start + buffer[..count]
        invariant |start| + from == BLOCK * blocks && State() == Hashed(m, blocks)
        decreases left
      {
        BlockIn(buffer, from, BLOCK, count, start, m);
        assert data[..BLOCK] == data[..];
        from := from + BLOCK;
        left := left - BLOCK;
        ProcessNext(m);
      }
      BlockIn(buffer, from, left, count, start, m);
      local := left;
    }

    /** SHA1Update: the message goes on with the first count bytes of the buffer. */
    method Update(buffer: array<bv8>, count: nat)
      requires Valid() && buffer != data && count <= buffer.Length && count < WORD
      modifies this`countLo, this`countHi, this`local, this`message, this`blocks, data, digest
      ensures Valid() && message == old(message) + buffer[..count]
    {
      hide Hashed;
      ghost var start, m := message, message + buffer[..count];
      CountBytes(count, buffer[..count]);
      HashedPrefix(message, buffer[..count], blocks);
      var from := 0;
      if local != 0 {
        from := FillUp(buffer, count, m);
        if local < BLOCK {
          message := m;
          return;
        }
      }
      WholeBlocks(buffer, from, count, start, m);
      message := m;
    }

    /** A memset of zeros. */
    method ClearFrom(at: nat, end: nat)
      requires Shape() && at <= end <= BLOCK
      modifies data
      ensures data[..at] == old(data[..at]) && data[at..end] == Zeros(end - at) && data[end..] == old(data[end..])
    {
      for i := at to end
        invariant data[..at] == old(data[..at]) && data[at..i] == Zeros(i - at) && data[end..] == old(data[end..])
      {
        data[i] := 0;
        assert data[at..i + 1] == data[at..i] + [0] == Zeros(i + 1 - at);
      }
    }

    /** Store a number as the i-th word of the buffer. */
    method StoreWord(i: nat, n: nat)
      requires Shape() && i < 16 && n < WORD
      modifies data
      ensures data[..] == Stored(littleEndian, old(data[..]), i, Four(n))
    {
      hide Four;
      var b := Four(n);
      if littleEndian {
        data[4 * i], data[4 * i + 1], data[4 * i + 2], data[4 * i + 3] := b[3], b[2], b[1], b[0];
      } else {
        data[4 * i], data[4 * i + 1], data[4 * i + 2], data[4 * i + 3] := b[0], b[1], b[2], b[3];
      }
    }

    /** Hash the last block: what is in the buffer, with the bit count in its last two words. */
    method ProcessLast(hi: nat, lo: nat)
      requires Shape() && hi < WORD && lo < WORD
      modifies data, digest
      ensures State() == Compress(old(State()), old(data[..56]) + (Four(hi) + Four(lo)))
    {
      hide Compress, Loaded, Four, Stored;
      ghost var block := data[..];
      MaybeByteReverse();
      LoadedIs(littleEndian, data[..], block);
      StoredLoaded(littleEndian, data[..], block, 14, Four(hi));
      StoreWord(14, hi);
      ghost var block' := block[..56] + Four(hi) + block[60..];
      LoadedIs(littleEndian, data[..], block');
      StoredLoaded(littleEndian, data[..], block', 15, Four(lo));
      StoreWord(15, lo);
      ghost var last := block'[..60] + Four(lo) + block'[64..];
      assert block'[..60] == block[..56] + Four(hi);
      assert last == block[..56] + (Four(hi) + Four(lo));
      Transform(last);
    }

    /** SHA1Final: pad, hash the last block or two, and write the digest out. */
    method Final(out: array<bv8>)
      requires Valid() && out.Length == 20 && out != data
      modifies data, digest, out
      ensures out[..] == DigestBytes(Sha1(message))
    {
      hide Hashed, Compress, BitLength, Zeros, Four, DigestBytes, Sha1;
      ghost var rest, k := data[..local], blocks;
      LastBlocks(message, k, rest);
      LowBits(countHi, countLo, message, k, local);
      var count := countLo / 8 % 64;
      data[count] := 0x80;
      count := count + 1;
      assert data[..count] == rest + [0x80];
      if count > BLOCK - 8 {
        ClearFrom(count, BLOCK);
        assert data[..] == data[..count] + data[count..BLOCK];
        Process();
        ClearFrom(0, BLOCK - 8);
        assert data[..56] == data[0..56];
      } else {
        ClearFrom(count, BLOCK - 8);
        assert data[..56] == data[..count] + data[count..56];
      }
      ProcessLast(countHi, countLo);
      WriteOut(out);
    }

    /** Write the five words out, the most significant byte first. */
    method WriteOut(out: array<bv8>)
      requires Shape() && out.Length == 20
      modifies out
      ensures out[..] == DigestBytes(State())
    {
      hide WordBytes;
      var h := digest[..];
      for i := 0 to 5
        invariant out[..4 * i] == Flat(h, i)
      {
        var b := WordBytes(h[i]);
        out[4 * i], out[4 * i + 1], out[4 * i + 2], out[4 * i + 3] := b[0], b[1], b[2], b[3];
        assert out[..4 * i + 4] == out[..4 * i] + b;
      }
      FlatIs(h);
      assert out[..] == out[..20];
    }
  }

  /** The bytes of the first n words. */
  function Flat(h: seq<bv32>, n: nat): Octets
    requires n <= |h|
  {
    if n == 0 then [] else Flat(h, n - 1) + WordBytes(h[n - 1])
  }

  lemma FlatIs(h: seq<bv32>)
    requires |h| == 5
    ensures Flat(h, 5) == DigestBytes(Five(h[0], h[1], h[2], h[3], h[4]))
  {
    hide WordBytes;
    assert Flat(h, 1) == WordBytes(h[0]);
    assert Flat(h, 2) == WordBytes(h[0]) + WordBytes(h[1]);
    assert Flat(h, 3) == WordBytes(h[0]) + WordBytes(h[1]) + WordBytes(h[2]);
    assert Flat(h, 4) == WordBytes(h[0]) + WordBytes(h[1]) + WordBytes(h[2]) + WordBytes(h[3]);
  }

  /** Memory with the i-th word replaced by one given by its bytes. */
  function Stored(little: bool, mem: Octets, i: nat, b: Octets): Octets
    requires |mem| == BLOCK && i < 16 && |b| == 4
  {
    mem[..4 * i] + (if little then [b[3], b[2], b[1], b[0]] else b) + mem[4 * i + 4..]
  }

  lemma LoadedIs(little: bool, mem: Octets, block: Octets)
    ensures Loaded(little, mem, block) ==> |mem| == BLOCK && |block| == BLOCK
  {
  }

  lemma StoredLoaded(little: bool, mem: Octets, block: Octets, i: nat, b: Octets)
    requires Loaded(little, mem, block) && i < 16 && |b| == 4
    ensures Loaded(little, Stored(little, mem, i, b), block[..4 * i] + b + block[4 * i + 4..])
  {
    hide BigEndian;
    var mem', block' := Stored(little, mem, i, b), block[..4 * i] + b + block[4 * i + 4..];
    forall j | 0 <= j < 16
      ensures LoadWord(little, mem', j) == WordOf(block', j)
    {
      if j != i {
        assert LoadWord(little, mem, j) == WordOf(block, j);
      }
    }
  }

  /** The low word of the counter knows how much of a block is waiting, and both are the bit length. */
  lemma LowBits(hi: nat, lo: nat, m: Octets, k: nat, local: nat)
    requires hi < WORD && lo < WORD && hi * WORD + lo == 8 * |m| % TWO64
    requires |m| == BLOCK * k + local && local < BLOCK
    ensures lo / 8 % 64 == local && BitLength(m) == Four(hi) + Four(lo)
  {
    hide Four;
    var q := 8 * |m| / TWO64;
    var n := k - q * 0x80_0000_0000_0000 - hi * 0x80_0000;
    assert 8 * |m| == q * TWO64 + hi * WORD + lo;
    assert lo == 8 * (64 * n + local);
    BlockOf(n, local);
    TwoWordsApart(hi, lo);
  }

  lemma BlockOf(n: int, local: nat)
    requires local < 64 && 64 * n + local >= 0
    ensures (8 * (64 * n + local)) / 8 % 64 == local
  {
  }

  lemma TwoWordsApart(hi: nat, lo: nat)
    requires lo < WORD
    ensures (hi * WORD + lo) / WORD == hi && (hi * WORD + lo) % WORD == lo
  {
  }

  lemma FilledUp(message: Octets, more: Octets, m: Octets, blocks: nat, local: nat, i: nat)
    requires m == message + more && |message| == BLOCK * blocks + local && i <= |more|
    ensures m[BLOCK * blocks..BLOCK * blocks + local + i] == message[BLOCK * blocks..] + more[..i]
  {
  }

  lemma BufferPart(message: Octets, more: Octets, m: Octets, from: nat, n: nat)
    requires m == message + more && from + n <= |more|
    ensures m[|message| + from..|message| + from + n] == more[from..from + n]
  {
  }

  /** The k-th word is turned round. */
  predicate Turned(after: Octets, before: Octets, k: nat) {
    4 * k + 4 <= |after| && 4 * k + 4 <= |before|
    && after[4 * k] == before[4 * k + 3] && after[4 * k + 1] == before[4 * k + 2]
    && after[4 * k + 2] == before[4 * k + 1] && after[4 * k + 3] == before[4 * k]
  }

  lemma TurnedIsLoaded(after: Octets, before: Octets)
    requires |after| == BLOCK && |before| == BLOCK && forall k :: 0 <= k < 16 ==> Turned(after, before, k)
    ensures Loaded(true, after, before)
  {
    hide BigEndian;
    forall k | 0 <= k < 16
      ensures LoadWord(true, after, k) == WordOf(before, k)
    {
      assert Turned(after, before, k);
    }
  }

  lemma ScheduleIs(block: Octets, t: nat)
    requires |block| == BLOCK && t < 80
    ensures Schedule(block, t) == if t < 16 then WordOf(block, t)
      else Mix(Schedule(block, t - 3), Schedule(block, t - 8), Schedule(block, t - 14), Schedule(block, t - 16))
  {
  }

  lemma RoundsStart(h: Five, block: Octets)
    requires |block| == BLOCK
    ensures Rounds(h, block, 0) == h
    ensures Compress(h, block) == Add(h, Rounds(h, block, 80))
  {
  }

  lemma RoundsNext(h: Five, block: Octets, t: nat)
    requires |block| == BLOCK && t < 80
    ensures Rounds(h, block, t + 1) == Round(Rounds(h, block, t), t, Schedule(block, t))
  {
  }

  /** One FUNC of sha_transform: twenty rounds each with f1 to f4. */
  method CodeRound(s: Five, t: nat, w: bv32) returns (r: Five)
    requires t < 80
    ensures r == Round(s, t, w)
  {
    hide Rotl, F1, F3, Ch, Parity, Maj, Temp, CodeTemp;
    CodeChoice(s.b, s.c, s.d);
    CodeMajority(s.b, s.c, s.d);
    var f :=
      if t < 20 then F1(s.b, s.c, s.d)
      else if t < 40 then Parity(s.b, s.c, s.d)
      else if t < 60 then F3(s.b, s.c, s.d)
      else Parity(s.b, s.c, s.d);
    var k: bv32 := if t < 20 then 0x5a827999 else if t < 40 then 0x6ed9eba1
      else if t < 60 then 0x8f1bbcdc else 0xca62c1d6;
    SameTemp(s.a, f, s.e, k, w);
    r := Five(CodeTemp(s.a, f, s.e, w, k), s.a, Rotl(s.b, 30), s.c, s.d);
  }

  /** The sum in the order of the code. */
  function CodeTemp(a: bv32, f: bv32, e: bv32, w: bv32, k: bv32): bv32 {
    Rotl(a, 5) + f + e + w + k
  }

  lemma TwoOrders(x: bv32, w: bv32, k: bv32)
    ensures x + w + k == x + k + w
  {
  }

  lemma SameTemp(a: bv32, f: bv32, e: bv32, k: bv32, w: bv32)
    ensures CodeTemp(a, f, e, w, k) == Temp(a, f, e, k, w)
  {
    hide Rotl;
    TwoOrders(Rotl(a, 5) + f + e, w, k);
  }

  /** An addition of 32-bit words. */
  function Wrap(x: nat, y: nat): (z: nat)
    ensures z < WORD
  {
    (x + y) % WORD
  }

  /** A count of bytes as a word of bits. */
  function Shifted(count: nat): nat {
    count * 8 % WORD
  }

  /** Adding in two words with a carry is adding modulo 2^64. */
  lemma CarryRight(lo: nat, hi: nat, m: nat, count: nat)
    requires lo < WORD && hi < WORD && hi * WORD + lo == 8 * m % TWO64 && count < WORD
    ensures var lo' := Wrap(lo, Shifted(count));
      var hi' := Wrap(if lo' < lo then Wrap(hi, 1) else hi, count / 0x2000_0000);
      hi' * WORD + lo' == 8 * (m + count) % TWO64
  {
    var shifted := Shifted(count);
    var up := count / 0x2000_0000;
    assert 8 * count == up * WORD + shifted;
    var q := 8 * m / TWO64;
    assert 8 * m == q * TWO64 + hi * WORD + lo;
    assert 8 * (m + count) == q * TWO64 + (hi + up) * WORD + (lo + shifted);
    ModWords(q, hi + up, lo + shifted);
    CarryModulo(hi, if Wrap(lo, shifted) < lo then 1 else 0, up);
  }

  lemma CarryModulo(hi: nat, carry: nat, up: nat)
    ensures ((hi + carry) % WORD + up) % WORD == (hi + up + carry) % WORD
  {
  }

  lemma Remainder(q: nat, r: nat)
    requires r < TWO64
    ensures (q * TWO64 + r) % TWO64 == r
  {
  }

  lemma TwoWords(hi: nat, lo: nat)
    requires hi < WORD && lo < WORD
    ensures hi * WORD + lo < TWO64
  {
  }

  lemma ModWords(q: nat, hi: nat, lo: nat)
    ensures (q * TWO64 + hi * WORD + lo) % TWO64 == (hi + lo / WORD) % WORD * WORD + lo % WORD
  {
    var h := hi + lo / WORD;
    var c := h / WORD;
    var r := h % WORD * WORD + lo % WORD;
    assert q * TWO64 + hi * WORD + lo == (q + c) * TWO64 + r by {
      assert lo == lo / WORD * WORD + lo % WORD;
      assert h == c * WORD + h % WORD;
    }
    TwoWords(h % WORD, lo % WORD);
    Remainder(q + c, r);
  }

  function Joined(pieces: seq<Octets>): Octets {
    if pieces == [] then [] else Joined(pieces[..|pieces| - 1]) + pieces[|pieces| - 1]
  }

  /** However a message is cut into pieces, and whatever the byte order of the machine, the digest
      is that of the whole message. */
  method Digest(littleEndian: bool, pieces: seq<Octets>) returns (out: array<bv8>)
    requires forall i :: 0 <= i < |pieces| ==> |pieces[i]| < WORD
    ensures fresh(out) && out[..] == DigestBytes(Sha1(Joined(pieces)))
  {
    hide DigestBytes, Sha1, Hashed;
    out := new bv8[20];
    var context := new Context(littleEndian);
    for i := 0 to |pieces|
      invariant context.Valid() && fresh(context.data) && fresh(context.digest) && context.data != out
      invariant context.message == Joined(pieces[..i])
    {
      var piece := pieces[i];
      var buffer := new bv8[|piece|](j requires 0 <= j < |piece| => piece[j]);
      assert buffer[..|piece|] == piece;
      assert pieces[..i + 1][..i] == pieces[..i];
      context.Update(buffer, |piece|);
    }
    assert pieces[..|pieces|] == pieces;
    context.Final(out);
  }
}
