/** SHA-1 as section 6.1 of FIPS 180-4 defines it, with the padding of section 5.1.1. */
module Sha1Spec {
  import opened ByteBits

  /** Five working words. */
  datatype Five = Five(a: bv32, b: bv32, c: bv32, d: bv32, e: bv32)

  const INITIAL := Five(0x67452301, 0xefcdab89, 0x98badcfe, 0x10325476, 0xc3d2e1f0)

  const BLOCK := 64

  function Rotl(x: bv32, n: nat): bv32
    requires n <= 32
  {
    (x << n) | (x >> (32 - n))
  }

  // --- the functions and constants of section 4.1.1 and 4.2.1 ---

  function Ch(x: bv32, y: bv32, z: bv32): bv32 {
    (x & y) ^ (!x & z)
  }

  function Parity(x: bv32, y: bv32, z: bv32): bv32 {
    x ^ y ^ z
  }

  function Maj(x: bv32, y: bv32, z: bv32): bv32 {
    (x & y) ^ (x & z) ^ (y & z)
  }

  function F(t: nat, x: bv32, y: bv32, z: bv32): bv32
    requires t < 80
  {
    if t < 20 then Ch(x, y, z)
    else if t < 40 then Parity(x, y, z)
    else if t < 60 then Maj(x, y, z)
    else Parity(x, y, z)
  }

  function K(t: nat): bv32
    requires t < 80
  {
    if t < 20 then 0x5a827999 else if t < 40 then 0x6ed9eba1 else if t < 60 then 0x8f1bbcdc else 0xca62c1d6
  }

  // --- a block ---

  /** Four bytes as a word, the most significant first. */
  function BigEndian(p: bv8, q: bv8, r: bv8, s: bv8): bv32 {
    ((p as bv32) << 24) | ((q as bv32) << 16) | ((r as bv32) << 8) | (s as bv32)
  }

  function WordOf(block: Octets, i: nat): bv32
    requires 4 * i + 4 <= |block|
  {
    BigEndian(block[4 * i], block[4 * i + 1], block[4 * i + 2], block[4 * i + 3])
  }

  function Mix(x: bv32, y: bv32, z: bv32, u: bv32): bv32 {
    Rotl(x ^ y ^ z ^ u, 1)
  }

  function Schedule(block: Octets, t: nat): bv32
    requires |block| == BLOCK && t < 80
  {
    if t < 16 then WordOf(block, t)
    else Mix(Schedule(block, t - 3), Schedule(block, t - 8), Schedule(block, t - 14), Schedule(block, t - 16))
  }

  /** The sum modulo 2^32. */
  function Sum(r: bv32, f: bv32, e: bv32, k: bv32, w: bv32): bv32 {
    r + f + e + k + w
  }

  function Temp(a: bv32, f: bv32, e: bv32, k: bv32, w: bv32): bv32 {
    Sum(Rotl(a, 5), f, e, k, w)
  }

  function Step(s: Five, f: bv32, k: bv32, w: bv32): Five {
    Five(Temp(s.a, f, s.e, k, w), s.a, Rotl(s.b, 30), s.c, s.d)
  }

  function Round(s: Five, t: nat, w: bv32): Five
    requires t < 80
  {
    Step(s, F(t, s.b, s.c, s.d), K(t), w)
  }

  function Rounds(h: Five, block: Octets, t: nat): Five
    requires |block| == BLOCK && t <= 80
  {
    if t == 0 then h else Round(Rounds(h, block, t - 1), t - 1, Schedule(block, t - 1))
  }

  function Plus(x: bv32, y: bv32): bv32 {
    x + y
  }

  function Add(h: Five, s: Five): Five {
    Five(Plus(h.a, s.a), Plus(h.b, s.b), Plus(h.c, s.c), Plus(h.d, s.d), Plus(h.e, s.e))
  }

  function Compress(h: Five, block: Octets): Five
    requires |block| == BLOCK
  {
    Add(h, Rounds(h, block, 80))
  }

  /** The first k blocks of a message, one after the other. */
  function Hashed(m: Octets, k: nat): Five
    requires BLOCK * k <= |m|
  {
    if k == 0 then INITIAL else Compress(Hashed(m, k - 1), m[BLOCK * (k - 1)..BLOCK * k])
  }

  // --- a message ---

  const TWO64 := 0x1_0000_0000_0000_0000

  /** A number below 2^32 as four bytes, the most significant first. */
  function Four(n: nat): (b: Octets)
    requires n < 0x1_0000_0000
    ensures |b| == 4
  {
    [(n / 0x100_0000) as bv8, (n / 0x1_0000 % 0x100) as bv8, (n / 0x100 % 0x100) as bv8, (n % 0x100) as bv8]
  }

  /** The length of a message in bits, as a 64-bit number. */
  function BitLength(m: Octets): (b: Octets)
    ensures |b| == 8
  {
    var n := 8 * |m| % TWO64;
    Four(n / 0x1_0000_0000) + Four(n % 0x1_0000_0000)
  }

  /** How many zeros bring a message, a one bit and the length to whole blocks. */
  function Filler(n: nat): nat {
    (119 - n % BLOCK) % BLOCK
  }

  function Padded(m: Octets): Octets {
    m + [0x80] + Zeros(Filler(|m|)) + BitLength(m)
  }

  /** The five words of the digest. */
  function Sha1(m: Octets): Five {
    Hashed(Padded(m), |Padded(m)| / BLOCK)
  }

  /** The padding comes out even: one block more than the message has, or two. */
  lemma PaddedBlocks(m: Octets, k: nat, rest: nat)
    requires |m| == BLOCK * k + rest && rest < BLOCK
    ensures Filler(|m|) == if rest <= 55 then 55 - rest else 119 - rest
    ensures |Padded(m)| == BLOCK * (k + if rest <= 55 then 1 else 2)
  {
    hide BitLength, Zeros;
    BlockRest(k, rest);
  }

  lemma BlockRest(k: nat, rest: nat)
    requires rest < BLOCK
    ensures (BLOCK * k + rest) % BLOCK == rest && (BLOCK * k + rest) / BLOCK == k
  {
  }

  /** What has been hashed does not depend on what comes after. */
  lemma {:induction false} HashedPrefix(m: Octets, x: Octets, k: nat)
    requires BLOCK * k <= |m|
    ensures Hashed(m + x, k) == Hashed(m, k)
  {
    hide Compress;
    if k > 0 {
      HashedPrefix(m, x, k - 1);
      assert (m + x)[BLOCK * (k - 1)..BLOCK * k] == m[BLOCK * (k - 1)..BLOCK * k];
    }
  }

  /** A word as four bytes, the most significant first. */
  function WordBytes(w: bv32): (b: Octets)
    ensures |b| == 4
  {
    [((w >> 24) & 0xff) as bv8, ((w >> 16) & 0xff) as bv8, ((w >> 8) & 0xff) as bv8, (w & 0xff) as bv8]
  }

  /** The digest as twenty bytes. */
  function DigestBytes(h: Five): (b: Octets)
    ensures |b| == 20
  {
    WordBytes(h.a) + WordBytes(h.b) + WordBytes(h.c) + WordBytes(h.d) + WordBytes(h.e)
  }

  /** The padded message from the block on that is not full. */
  lemma PaddedTail(m: Octets, k: nat, rest: Octets)
    requires |rest| < BLOCK && |m| == BLOCK * k + |rest| && m[BLOCK * k..] == rest
    ensures Hashed(Padded(m), k) == Hashed(m, k)
    ensures Padded(m)[BLOCK * k..] == rest + [0x80] + Zeros(Filler(|m|)) + BitLength(m)
  {
    hide Hashed;
    var tail: Octets := [0x80] + Zeros(Filler(|m|)) + BitLength(m);
    assert Padded(m) == m + tail;
    HashedPrefix(m, tail, k);
    assert (m + tail)[BLOCK * k..] == m[BLOCK * k..] + tail;
  }

  lemma NextBlock(m: Octets, k: nat)
    requires BLOCK * (k + 1) <= |m|
    ensures Hashed(m, k + 1) == Compress(Hashed(m, k), m[BLOCK * k..][..BLOCK])
  {
    assert m[BLOCK * k..][..BLOCK] == m[BLOCK * k..BLOCK * (k + 1)];
  }

  /** What is left to hash when the whole blocks of a message are done: one block if there is room
      for the length, or else two. */
  lemma LastBlocks(m: Octets, k: nat, rest: Octets)
    requires |rest| < BLOCK && |m| == BLOCK * k + |rest| && m[BLOCK * k..] == rest
    ensures var begun := rest + [0x80];
      Sha1(m) ==
        if |rest| <= 55 then Compress(Hashed(m, k), begun + Zeros(55 - |rest|) + BitLength(m))
        else Compress(Compress(Hashed(m, k), begun + Zeros(63 - |rest|)), Zeros(56) + BitLength(m))
  {
    hide Hashed, Compress, BitLength, Padded;
    var p := Padded(m);
    PaddedBlocks(m, k, |rest|);
    PaddedTail(m, k, rest);
    NextBlock(p, k);
    var tail := p[BLOCK * k..];
    if |rest| <= 55 {
      BlockRest(k + 1, 0);
      assert tail[..BLOCK] == tail;
    } else {
      BlockRest(k + 2, 0);
      NextBlock(p, k + 1);
      assert Zeros(119 - |rest|) == Zeros(63 - |rest|) + Zeros(56);
      assert tail == (rest + [0x80] + Zeros(63 - |rest|)) + (Zeros(56) + BitLength(m));
      assert tail[..BLOCK] == rest + [0x80] + Zeros(63 - |rest|);
      assert p[BLOCK * (k + 1)..] == tail[BLOCK..] == Zeros(56) + BitLength(m);
      assert (Zeros(56) + BitLength(m))[..BLOCK] == Zeros(56) + BitLength(m);
      assert Hashed(p, k + 2) == Compress(Hashed(p, k + 1), p[BLOCK * (k + 1)..][..BLOCK]);
    }
  }

  // --- the padding in numbers ---

  /** The most significant byte comes first. */
  lemma FourExample()
    ensures Four(0x0102_0304) == [1, 2, 3, 4]
  {
    var n := 0x0102_0304;
    assert n / 0x100_0000 == 1 && n / 0x1_0000 % 0x100 == 2 && n / 0x100 % 0x100 == 3 && n % 0x100 == 4;
  }

  /** A padded message is whole blocks: the message, a one bit, fewer than a block of zeros, and the
      number of bits modulo 2^64 in eight bytes, the most significant first. */
  lemma PaddedShape(m: Octets)
    ensures var p, n := Padded(m), |Padded(m)|;
      && n % 64 == 0 && |m| + 9 <= n < |m| + 9 + 64
      && p[..|m|] == m && p[|m|] == 0x80 && (forall i :: |m| < i < n - 8 ==> p[i] == 0)
      && p[n - 8..n - 4] == Four(8 * |m| / 0x1_0000_0000 % 0x1_0000_0000)
      && p[n - 4..] == Four(8 * |m| % 0x1_0000_0000)
  {
    hide Four;
    var k, rest := |m| / 64, |m| % 64;
    assert |m| == BLOCK * k + rest;
    PaddedBlocks(m, k, rest);
    HighAndLow(8 * |m|);
  }

  lemma HighAndLow(n: nat)
    ensures n % TWO64 / 0x1_0000_0000 == n / 0x1_0000_0000 % 0x1_0000_0000
    ensures n % TWO64 % 0x1_0000_0000 == n % 0x1_0000_0000
  {
    var q, r := n / TWO64, n % TWO64;
    var h, l := r / 0x1_0000_0000, r % 0x1_0000_0000;
    assert n == 0x1_0000_0000 * (0x1_0000_0000 * q + h) + l;
    assert n / 0x1_0000_0000 == 0x1_0000_0000 * q + h;
  }
}
