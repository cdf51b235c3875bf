/** The first example for SHA-1 in FIPS 180: the message "abc", worked out round by round. */
module Sha1Example {
  import opened ByteBits
  import opened Sha1Spec

  const ABC: Octets := [0x61, 0x62, 0x63]

  /** The one block that is hashed. */
  function Block(): (b: Octets)
    ensures |b| == 64
  {
    ABC + [0x80] + Zeros(52) + [0, 0, 0, 0, 0, 0, 0, 24]
  }

  lemma FourBytes()
    ensures Four(0) == [0, 0, 0, 0] && Four(24) == [0, 0, 0, 24]
  {
  }

  lemma AbcLength()
    ensures BitLength(ABC) == [0, 0, 0, 0, 0, 0, 0, 24]
  {
    FourBytes();
    hide Four;
    assert 8 * |ABC| % TWO64 == 24;
  }

  lemma AbcPadded()
    ensures Padded(ABC) == Block()
  {
    AbcLength();
    hide BitLength, Zeros;
    assert Filler(3) == 52;
  }

  // --- the message schedule ---

  /** The words of the schedule. */
  function Word(t: nat): bv32 {
    if t == 0 then 0x61626380
    else if t < 15 then 0
    else if t == 15 then 24
    else if t < 24 then Words16To23(t)
    else if t < 32 then Words24To31(t)
    else if t < 40 then Words32To39(t)
    else if t < 48 then Words40To47(t)
    else if t < 56 then Words48To55(t)
    else if t < 64 then Words56To63(t)
    else if t < 72 then Words64To71(t)
    else if t < 80 then Words72To79(t)
    else 0
  }

  function Words16To23(t: nat): bv32 {
    if t == 16 then 0xc2c4c700
    else if t == 17 then 0x00000000
    else if t == 18 then 0x00000030
    else if t == 19 then 0x85898e01
    else if t == 20 then 0x00000000
    else if t == 21 then 0x00000060
    else if t == 22 then 0x0b131c03
    else 0x00000030
  }

  function Words24To31(t: nat): bv32 {
    if t == 24 then 0x85898ec1
    else if t == 25 then 0x16263806
    else if t == 26 then 0x00000000
    else if t == 27 then 0x00000180
    else if t == 28 then 0x2c4c700c
    else if t == 29 then 0x000000f0
    else if t == 30 then 0x93afb507
    else 0x5898e048
  }

  function Words32To39(t: nat): bv32 {
    if t == 32 then 0x8e9a9202
    else if t == 33 then 0x00000600
    else if t == 34 then 0xb131c0f0
    else if t == 35 then 0x16263bc6
    else if t == 36 then 0x4ebed41e
    else if t == 37 then 0x626380a1
    else if t == 38 then 0x16263806
    else 0x000018c0
  }

  function Words40To47(t: nat): bv32 {
    if t == 40 then 0xd2e138c4
    else if t == 41 then 0x00000f00
    else if t == 42 then 0x3afb5079
    else if t == 43 then 0x898e04e5
    else if t == 44 then 0xe2ba3c2b
    else if t == 45 then 0x000060c0
    else if t == 46 then 0x053a37cd
    else 0x74458547
  }

  function Words48To55(t: nat): bv32 {
    if t == 48 then 0xda9415ed
    else if t == 49 then 0x26380a16
    else if t == 50 then 0x626383a1
    else if t == 51 then 0x4ebf54de
    else if t == 52 then 0x3835b44b
    else if t == 53 then 0x0000f600
    else if t == 54 then 0x1e84c7a3
    else 0x98e04d98
  }

  function Words56To63(t: nat): bv32 {
    if t == 56 then 0x651d16a0
    else if t == 57 then 0x62658ca1
    else if t == 58 then 0x458544d6
    else if t == 59 then 0x44584cb7
    else if t == 60 then 0x7ba06619
    else if t == 61 then 0x6380aea2
    else if t == 62 then 0x0ae55269
    else 0x627b49a1
  }

  function Words64To71(t: nat): bv32 {
    if t == 64 then 0x7cd45c9d
    else if t == 65 then 0x000f0000
    else if t == 66 then 0xfb50753a
    else if t == 67 then 0xec6765e8
    else if t == 68 then 0xba3c2be2
    else if t == 69 then 0x0060c000
    else if t == 70 then 0x3a37cd05
    else 0x458546f4
  }

  function Words72To79(t: nat): bv32 {
    if t == 72 then 0xb8599dd6
    else if t == 73 then 0x380a1a26
    else if t == 74 then 0x01e02203
    else if t == 75 then 0xe7cc3456
    else if t == 76 then 0xe6e60b69
    else if t == 77 then 0x00f60a00
    else if t == 78 then 0x5795ef4f
    else 0x822e0879
  }

  /** The schedule up to a word is as listed. */
  ghost predicate Listed(n: nat) {
    n <= 80 && forall t :: 0 <= t < n ==> Schedule(Block(), t) == Word(t)
  }

  lemma BlockWords()
    ensures WordOf(Block(), 0) == BigEndian(0x61, 0x62, 0x63, 0x80)
    ensures forall t :: 1 <= t < 15 ==> WordOf(Block(), t) == BigEndian(0, 0, 0, 0)
    ensures WordOf(Block(), 15) == BigEndian(0, 0, 0, 24)
  {
    hide BigEndian;
    var b := Block();
    assert b[0] == 0x61 && b[1] == 0x62 && b[2] == 0x63 && b[3] == 0x80;
    assert b[60] == 0 && b[61] == 0 && b[62] == 0 && b[63] == 24;
    assert forall i :: 4 <= i < 60 ==> b[i] == 0;
  }

  lemma BigEndianIs()
    ensures BigEndian(0x61, 0x62, 0x63, 0x80) == 0x61626380 && BigEndian(0, 0, 0, 24) == 24
    ensures BigEndian(0, 0, 0, 0) == 0
  {
  }

  lemma FirstWords()
    ensures Listed(16)
  {
    BlockWords();
    BigEndianIs();
    hide BigEndian, WordOf, Block;
  }

  /** One more word, from four before it. */
  lemma NextWord(n: nat, x: bv32, y: bv32, z: bv32, u: bv32, w: bv32)
    requires Listed(n) && 16 <= n < 80
    requires Word(n - 3) == x && Word(n - 8) == y && Word(n - 14) == z && Word(n - 16) == u
    requires Rotl(w, 1) == Word(n) && x ^ y ^ z ^ u == w
    ensures Listed(n + 1)
  {
    hide Rotl, Word;
  }

  lemma Words16()
    requires Listed(16)
    ensures Listed(24)
  {
    hide Listed;
    NextWord(16, 0x00000000, 0x00000000, 0x00000000, 0x61626380, 0x61626380);
    NextWord(17, 0x00000000, 0x00000000, 0x00000000, 0x00000000, 0x00000000);
    NextWord(18, 0x00000018, 0x00000000, 0x00000000, 0x00000000, 0x00000018);
    NextWord(19, 0xc2c4c700, 0x00000000, 0x00000000, 0x00000000, 0xc2c4c700);
    NextWord(20, 0x00000000, 0x00000000, 0x00000000, 0x00000000, 0x00000000);
    NextWord(21, 0x00000030, 0x00000000, 0x00000000, 0x00000000, 0x00000030);
    NextWord(22, 0x85898e01, 0x00000000, 0x00000000, 0x00000000, 0x85898e01);
    NextWord(23, 0x00000000, 0x00000018, 0x00000000, 0x00000000, 0x00000018);
  }

  lemma Words24()
    requires Listed(24)
    ensures Listed(32)
  {
    hide Listed;
    NextWord(24, 0x00000060, 0xc2c4c700, 0x00000000, 0x00000000, 0xc2c4c760);
    NextWord(25, 0x0b131c03, 0x00000000, 0x00000000, 0x00000000, 0x0b131c03);
    NextWord(26, 0x00000030, 0x00000030, 0x00000000, 0x00000000, 0x00000000);
    NextWord(27, 0x85898ec1, 0x85898e01, 0x00000000, 0x00000000, 0x000000c0);
    NextWord(28, 0x16263806, 0x00000000, 0x00000000, 0x00000000, 0x16263806);
    NextWord(29, 0x00000000, 0x00000060, 0x00000018, 0x00000000, 0x00000078);
    NextWord(30, 0x00000180, 0x0b131c03, 0xc2c4c700, 0x00000000, 0xc9d7da83);
    NextWord(31, 0x2c4c700c, 0x00000030, 0x00000000, 0x00000018, 0x2c4c7024);
  }

  lemma Words32()
    requires Listed(32)
    ensures Listed(40)
  {
    hide Listed;
    NextWord(32, 0x000000f0, 0x85898ec1, 0x00000030, 0xc2c4c700, 0x474d4901);
    NextWord(33, 0x93afb507, 0x16263806, 0x85898e01, 0x00000000, 0x00000300);
    NextWord(34, 0x5898e048, 0x00000000, 0x00000000, 0x00000030, 0x5898e078);
    NextWord(35, 0x8e9a9202, 0x00000180, 0x00000060, 0x85898e01, 0x0b131de3);
    NextWord(36, 0x00000600, 0x2c4c700c, 0x0b131c03, 0x00000000, 0x275f6a0f);
    NextWord(37, 0xb131c0f0, 0x000000f0, 0x00000030, 0x00000060, 0xb131c050);
    NextWord(38, 0x16263bc6, 0x93afb507, 0x85898ec1, 0x0b131c03, 0x0b131c03);
    NextWord(39, 0x4ebed41e, 0x5898e048, 0x16263806, 0x00000030, 0x00000c60);
  }

  lemma Words40()
    requires Listed(40)
    ensures Listed(48)
  {
    hide Listed;
    NextWord(40, 0x626380a1, 0x8e9a9202, 0x00000000, 0x85898ec1, 0x69709c62);
    NextWord(41, 0x16263806, 0x00000600, 0x00000180, 0x16263806, 0x00000780);
    NextWord(42, 0x000018c0, 0xb131c0f0, 0x2c4c700c, 0x00000000, 0x9d7da83c);
    NextWord(43, 0xd2e138c4, 0x16263bc6, 0x000000f0, 0x00000180, 0xc4c70272);
    NextWord(44, 0x00000f00, 0x4ebed41e, 0x93afb507, 0x2c4c700c, 0xf15d1e15);
    NextWord(45, 0x3afb5079, 0x626380a1, 0x5898e048, 0x000000f0, 0x00003060);
    NextWord(46, 0x898e04e5, 0x16263806, 0x8e9a9202, 0x93afb507, 0x829d1be6);
    NextWord(47, 0xe2ba3c2b, 0x000018c0, 0x00000600, 0x5898e048, 0xba22c2a3);
  }

  lemma Words48()
    requires Listed(48)
    ensures Listed(56)
  {
    hide Listed;
    NextWord(48, 0x000060c0, 0xd2e138c4, 0xb131c0f0, 0x8e9a9202, 0xed4a0af6);
    NextWord(49, 0x053a37cd, 0x00000f00, 0x16263bc6, 0x00000600, 0x131c050b);
    NextWord(50, 0x74458547, 0x3afb5079, 0x4ebed41e, 0xb131c0f0, 0xb131c1d0);
    NextWord(51, 0xda9415ed, 0x898e04e5, 0x626380a1, 0x16263bc6, 0x275faa6f);
    NextWord(52, 0x26380a16, 0xe2ba3c2b, 0x16263806, 0x4ebed41e, 0x9c1ada25);
    NextWord(53, 0x626383a1, 0x000060c0, 0x000018c0, 0x626380a1, 0x00007b00);
    NextWord(54, 0x4ebf54de, 0x053a37cd, 0xd2e138c4, 0x16263806, 0x8f4263d1);
    NextWord(55, 0x3835b44b, 0x74458547, 0x00000f00, 0x000018c0, 0x4c7026cc);
  }

  lemma Words56()
    requires Listed(56)
    ensures Listed(64)
  {
    hide Listed;
    NextWord(56, 0x0000f600, 0xda9415ed, 0x3afb5079, 0xd2e138c4, 0x328e8b50);
    NextWord(57, 0x1e84c7a3, 0x26380a16, 0x898e04e5, 0x00000f00, 0xb132c650);
    NextWord(58, 0x98e04d98, 0x626383a1, 0xe2ba3c2b, 0x3afb5079, 0x22c2a26b);
    NextWord(59, 0x651d16a0, 0x4ebf54de, 0x000060c0, 0x898e04e5, 0xa22c265b);
    NextWord(60, 0x62658ca1, 0x3835b44b, 0x053a37cd, 0xe2ba3c2b, 0xbdd0330c);
    NextWord(61, 0x458544d6, 0x0000f600, 0x74458547, 0x000060c0, 0x31c05751);
    NextWord(62, 0x44584cb7, 0x1e84c7a3, 0xda9415ed, 0x053a37cd, 0x8572a934);
    NextWord(63, 0x7ba06619, 0x98e04d98, 0x26380a16, 0x74458547, 0xb13da4d0);
  }

  lemma Words64()
    requires Listed(64)
    ensures Listed(72)
  {
    hide Listed;
    NextWord(64, 0x6380aea2, 0x651d16a0, 0x626383a1, 0xda9415ed, 0xbe6a2e4e);
    NextWord(65, 0x0ae55269, 0x62658ca1, 0x4ebf54de, 0x26380a16, 0x00078000);
    NextWord(66, 0x627b49a1, 0x458544d6, 0x3835b44b, 0x626383a1, 0x7da83a9d);
    NextWord(67, 0x7cd45c9d, 0x44584cb7, 0x0000f600, 0x4ebf54de, 0x7633b2f4);
    NextWord(68, 0x000f0000, 0x7ba06619, 0x1e84c7a3, 0x3835b44b, 0x5d1e15f1);
    NextWord(69, 0xfb50753a, 0x6380aea2, 0x98e04d98, 0x0000f600, 0x00306000);
    NextWord(70, 0xec6765e8, 0x0ae55269, 0x651d16a0, 0x1e84c7a3, 0x9d1be682);
    NextWord(71, 0xba3c2be2, 0x627b49a1, 0x62658ca1, 0x98e04d98, 0x22c2a37a);
  }

  lemma Words72()
    requires Listed(72)
    ensures Listed(80)
  {
    hide Listed;
    NextWord(72, 0x0060c000, 0x7cd45c9d, 0x458544d6, 0x651d16a0, 0x5c2cceeb);
    NextWord(73, 0x3a37cd05, 0x000f0000, 0x44584cb7, 0x62658ca1, 0x1c050d13);
    NextWord(74, 0x458546f4, 0xfb50753a, 0x7ba06619, 0x458544d6, 0x80f01101);
    NextWord(75, 0xb8599dd6, 0xec6765e8, 0x6380aea2, 0x44584cb7, 0x73e61a2b);
    NextWord(76, 0x380a1a26, 0xba3c2be2, 0x0ae55269, 0x7ba06619, 0xf37305b4);
    NextWord(77, 0x01e02203, 0x0060c000, 0x627b49a1, 0x6380aea2, 0x007b0500);
    NextWord(78, 0xe7cc3456, 0x3a37cd05, 0x7cd45c9d, 0x0ae55269, 0xabcaf7a7);
    NextWord(79, 0xe6e60b69, 0x458546f4, 0x000f0000, 0x627b49a1, 0xc117043c);
  }

  // --- the rounds ---

  /** The working words after t rounds. */
  ghost predicate Reached(t: nat, s: Five) {
    t <= 80 && Listed(80) && Rounds(INITIAL, Block(), t) == s
  }

  /** One more round: r is the first word turned by five, f the function of the round on the next
      three, and v the second word turned by thirty. */
  lemma NextRound(t: nat, s: Five, w: bv32, r: bv32, f: bv32, v: bv32)
    requires Reached(t, s) && t < 80 && Word(t) == w
    requires Rotl(s.a, 5) == r && F(t, s.b, s.c, s.d) == f && Rotl(s.b, 30) == v
    ensures Reached(t + 1, Five(Sum(r, f, s.e, K(t), w), s.a, v, s.c, s.d))
  {
    hide Rotl, F, K, Word, Sum;
  }

  lemma Rounds0()
    requires Reached(0,
      Five(0x67452301, 0xefcdab89, 0x98badcfe, 0x10325476, 0xc3d2e1f0))
    ensures Reached(5,
      Five(0xcfd499de, 0xcdd8e11b, 0x284e43c2, 0x626414db, 0xc045bf0c))
  {
    hide Reached;
    NextRound(0, Five(0x67452301, 0xefcdab89, 0x98badcfe, 0x10325476, 0xc3d2e1f0),
              0x61626380, 0xe8a4602c, 0x98badcfe, 0x7bf36ae2);
    NextRound(1, Five(0x0116fc33, 0x67452301, 0x7bf36ae2, 0x98badcfe, 0x10325476),
              0x00000000, 0x22df8660, 0xfbfbfefe, 0x59d148c0);
    NextRound(2, Five(0x8990536d, 0x0116fc33, 0x59d148c0, 0x7bf36ae2, 0x98badcfe),
              0x00000000, 0x320a6db1, 0x7bf14ac0, 0xc045bf0c);
    NextRound(3, Five(0xa1390f08, 0x8990536d, 0xc045bf0c, 0x59d148c0, 0x7bf36ae2),
              0x00000000, 0x2721e114, 0xd0411b8c, 0x626414db);
    NextRound(4, Five(0xcdd8e11b, 0xa1390f08, 0x626414db, 0xc045bf0c, 0x59d148c0),
              0x00000000, 0xbb1c2379, 0x6064b40c, 0x284e43c2);
  }

  lemma Rounds5()
    requires Reached(5,
      Five(0xcfd499de, 0xcdd8e11b, 0x284e43c2, 0x626414db, 0xc045bf0c))
    ensures Reached(10,
      Five(0x8351f929, 0x4b6ae328, 0x27a301f5, 0x664f8c30, 0x0ff1f290))
  {
    hide Reached;
    NextRound(5, Five(0xcfd499de, 0xcdd8e11b, 0x284e43c2, 0x626414db, 0xc045bf0c),
              0x00000000, 0xfa933bd9, 0x2a6c55c2, 0xf3763846);
    NextRound(6, Five(0x3fc7ca40, 0xcfd499de, 0xf3763846, 0x284e43c2, 0x626414db),
              0x00000000, 0xf8f94807, 0xe35e5a46, 0xb3f52677);
    NextRound(7, Five(0x993e30c1, 0x3fc7ca40, 0xb3f52677, 0xf3763846, 0x284e43c2),
              0x00000000, 0x27c61833, 0xf3f53246, 0x0ff1f290);
    NextRound(8, Five(0x9e8c07d4, 0x993e30c1, 0x0ff1f290, 0xb3f52677, 0xf3763846),
              0x00000000, 0xd180fa93, 0x2bf136b6, 0x664f8c30);
    NextRound(9, Five(0x4b6ae328, 0x9e8c07d4, 0x664f8c30, 0x0ff1f290, 0xb3f52677),
              0x00000000, 0x6d5c6509, 0x077df410, 0x27a301f5);
  }

  lemma Rounds10()
    requires Reached(10,
      Five(0x8351f929, 0x4b6ae328, 0x27a301f5, 0x664f8c30, 0x0ff1f290))
    ensures Reached(15,
      Five(0x196bee77, 0x9128f695, 0x1181ed99, 0x18c623f9, 0x7ef6a7a2))
  {
    hide Reached;
    NextRound(10, Five(0x8351f929, 0x4b6ae328, 0x27a301f5, 0x664f8c30, 0x0ff1f290),
              0x00000000, 0x6a3f2530, 0x27270d30, 0x12dab8ca);
    NextRound(11, Five(0xfbda9e89, 0x8351f929, 0x12dab8ca, 0x27a301f5, 0x664f8c30),
              0x00000000, 0x7b53d13f, 0x26f2b8dc, 0x60d47e4a);
    NextRound(12, Five(0x63188fe4, 0xfbda9e89, 0x60d47e4a, 0x12dab8ca, 0x27a301f5),
              0x00000000, 0x6311fc8c, 0x60d03e4a, 0x7ef6a7a2);
    NextRound(13, Five(0x4607b664, 0x63188fe4, 0x7ef6a7a2, 0x60d47e4a, 0x12dab8ca),
              0x00000000, 0xc0f6cc88, 0x62d4f7aa, 0x18c623f9);
    NextRound(14, Five(0x9128f695, 0x4607b664, 0x18c623f9, 0x7ef6a7a2, 0x60d47e4a),
              0x00000000, 0x251ed2b2, 0x38f623e2, 0x1181ed99);
  }

  lemma Rounds15()
    requires Reached(15,
      Five(0x196bee77, 0x9128f695, 0x1181ed99, 0x18c623f9, 0x7ef6a7a2))
    ensures Reached(20,
      Five(0xfd9e1d7d, 0xdc64901d, 0x20aa99ca, 0xd3a49608, 0xc82f758b))
  {
    hide Reached;
    NextRound(15, Five(0x196bee77, 0x9128f695, 0x1181ed99, 0x18c623f9, 0x7ef6a7a2),
              0x00000018, 0x2d7dcee3, 0x19c6e5f9, 0x644a3da5);
    NextRound(16, Five(0x20bdd62f, 0x196bee77, 0x644a3da5, 0x1181ed99, 0x18c623f9),
              0xc2c4c700, 0x17bac5e4, 0x00ca2dad, 0xc65afb9d);
    NextRound(17, Five(0x4e925823, 0x20bdd62f, 0xc65afb9d, 0x644a3da5, 0x1181ed99),
              0x00000000, 0xd24b0469, 0x445afb8d, 0xc82f758b);
    NextRound(18, Five(0x82aa6728, 0x4e925823, 0xc82f758b, 0xc65afb9d, 0x644a3da5),
              0x00000030, 0x554ce510, 0xc84af39f, 0xd3a49608);
    NextRound(19, Five(0xdc64901d, 0x82aa6728, 0xd3a49608, 0xc82f758b, 0xc65afb9d),
              0x85898e01, 0x8c9203bb, 0xcaa5168b, 0x20aa99ca);
  }

  lemma Rounds20()
    requires Reached(20,
      Five(0xfd9e1d7d, 0xdc64901d, 0x20aa99ca, 0xd3a49608, 0xc82f758b))
    ensures Reached(25,
      Five(0xc7567dc6, 0xd541f12d, 0x884a0d21, 0x0ce88eff, 0x868dec32))
  {
    hide Reached;
    NextRound(20, Five(0xfd9e1d7d, 0xdc64901d, 0x20aa99ca, 0xd3a49608, 0xc82f758b),
              0x00000000, 0xb3c3afbf, 0x2f6a9fdf, 0x77192407);
    NextRound(21, Five(0x1a37b0ca, 0xfd9e1d7d, 0x77192407, 0x20aa99ca, 0xd3a49608),
              0x00000060, 0x46f61943, 0xaa2da0b0, 0x7f67875f);
    NextRound(22, Five(0x33a23bfc, 0x1a37b0ca, 0x7f67875f, 0x77192407, 0x20aa99ca),
              0x0b131c03, 0x74477f86, 0x12491392, 0x868dec32);
    NextRound(23, Five(0x21283486, 0x33a23bfc, 0x868dec32, 0x7f67875f, 0x77192407),
              0x00000030, 0x250690c4, 0xca485091, 0x0ce88eff);
    NextRound(24, Five(0xd541f12d, 0x21283486, 0x0ce88eff, 0x868dec32, 0x7f67875f),
              0x85898ec1, 0xa83e25ba, 0xab4d564b, 0x884a0d21);
  }

  lemma Rounds25()
    requires Reached(25,
      Five(0xc7567dc6, 0xd541f12d, 0x884a0d21, 0x0ce88eff, 0x868dec32))
    ensures Reached(30,
      Five(0xc5fbaf5d, 0x8370b52e, 0xd2aa1365, 0x6f8d7ef5, 0x12104ee9))
  {
    hide Reached;
    NextRound(25, Five(0xc7567dc6, 0xd541f12d, 0x884a0d21, 0x0ce88eff, 0x868dec32),
              0x16263806, 0xeacfb8d8, 0x51e372f3, 0x75507c4b);
    NextRound(26, Five(0x48413ba4, 0xc7567dc6, 0x75507c4b, 0x884a0d21, 0x0ce88eff),
              0x00000000, 0x08277489, 0x3a4c0cac, 0xb1d59f71);
    NextRound(27, Five(0xbe35fbd5, 0x48413ba4, 0xb1d59f71, 0x75507c4b, 0x884a0d21),
              0x00000180, 0xc6bf7ab7, 0x8cc4d89e, 0x12104ee9);
    NextRound(28, Five(0x4aa84d97, 0xbe35fbd5, 0x12104ee9, 0xb1d59f71, 0x75507c4b),
              0x2c4c700c, 0x5509b2e9, 0x1df02a4d, 0x6f8d7ef5);
    NextRound(29, Five(0x8370b52e, 0x4aa84d97, 0x6f8d7ef5, 0x12104ee9, 0xb1d59f71),
              0x000000f0, 0x6e16a5d0, 0x37357d8b, 0xd2aa1365);
  }

  lemma Rounds30()
    requires Reached(30,
      Five(0xc5fbaf5d, 0x8370b52e, 0xd2aa1365, 0x6f8d7ef5, 0x12104ee9))
    ensures Reached(35,
      Five(0x21796ad4, 0x2c0ebc11, 0x811bea82, 0xcee1174c, 0xc499ed01))
  {
    hide Reached;
    NextRound(30, Five(0xc5fbaf5d, 0x8370b52e, 0xd2aa1365, 0x6f8d7ef5, 0x12104ee9),
              0x93afb507, 0xbf75ebb8, 0x3e57d8be, 0xa0dc2d4b);
    NextRound(31, Five(0x1267b407, 0xc5fbaf5d, 0xa0dc2d4b, 0xd2aa1365, 0x6f8d7ef5),
              0x5898e048, 0x4cf680e2, 0xb78d9173, 0x717eebd7);
    NextRound(32, Five(0x3b845d33, 0x1267b407, 0x717eebd7, 0xa0dc2d4b, 0xd2aa1365),
              0x8e9a9202, 0x708ba667, 0xc3c5729b, 0xc499ed01);
    NextRound(33, Five(0x046faa0a, 0x3b845d33, 0xc499ed01, 0x717eebd7, 0xa0dc2d4b),
              0x00000600, 0x8df54140, 0x8e635be5, 0xcee1174c);
    NextRound(34, Five(0x2c0ebc11, 0x046faa0a, 0xcee1174c, 0xc499ed01, 0x717eebd7),
              0xb131c0f0, 0x81d78225, 0x0e175047, 0x811bea82);
  }

  lemma Rounds35()
    requires Reached(35,
      Five(0x21796ad4, 0x2c0ebc11, 0x811bea82, 0xcee1174c, 0xc499ed01))
    ensures Reached(40,
      Five(0x32de1cba, 0x4c986405, 0xf718e5cf, 0x03d447f6, 0xf72eec32))
  {
    hide Reached;
    NextRound(35, Five(0x21796ad4, 0x2c0ebc11, 0x811bea82, 0xcee1174c, 0xc499ed01),
              0x16263bc6, 0x2f2d5a84, 0x63f441df, 0x4b03af04);
    NextRound(36, Five(0xdcbbb0cb, 0x21796ad4, 0x4b03af04, 0x811bea82, 0xcee1174c),
              0x4ebed41e, 0x9776197b, 0xeb612f52, 0x085e5ab5);
    NextRound(37, Five(0x0f511fd8, 0xdcbbb0cb, 0x085e5ab5, 0x4b03af04, 0x811bea82),
              0x626380a1, 0xea23fb01, 0x9fe6457a, 0xf72eec32);
    NextRound(38, Five(0xdc63973f, 0x0f511fd8, 0xf72eec32, 0x085e5ab5, 0x4b03af04),
              0x16263806, 0x8c72e7fb, 0xf021a95f, 0x03d447f6);
    NextRound(39, Five(0x4c986405, 0xdc63973f, 0x03d447f6, 0xf72eec32, 0x085e5ab5),
              0x000018c0, 0x930c80a9, 0x28993cfb, 0xf718e5cf);
  }

  lemma Rounds40()
    requires Reached(40,
      Five(0x32de1cba, 0x4c986405, 0xf718e5cf, 0x03d447f6, 0xf72eec32))
    ensures Reached(45,
      Five(0x40f28e09, 0xee1b1aaf, 0x5fc64f71, 0x25c28357, 0xff21f7b7))
  {
    hide Reached;
    NextRound(40, Five(0x32de1cba, 0x4c986405, 0xf718e5cf, 0x03d447f6, 0xf72eec32),
              0xd2e138c4, 0x5bc39746, 0x479865c7, 0x53261901);
    NextRound(41, Five(0xfc87dedf, 0x32de1cba, 0x53261901, 0xf718e5cf, 0x03d447f6),
              0x00000f00, 0x90fbdbff, 0x731e1d8b, 0x8cb7872e);
    NextRound(42, Five(0x970a0d5c, 0xfc87dedf, 0x8cb7872e, 0x53261901, 0xf718e5cf),
              0x3afb5079, 0xe141ab92, 0xdca79f0f, 0xff21f7b7);
    NextRound(43, Five(0x7f193dc5, 0x970a0d5c, 0xff21f7b7, 0x8cb7872e, 0x53261901),
              0x898e04e5, 0xe327b8af, 0x9f23873e, 0x25c28357);
    NextRound(44, Five(0xee1b1aaf, 0x7f193dc5, 0x25c28357, 0xff21f7b7, 0x8cb7872e),
              0xe2ba3c2b, 0xc36355fd, 0x7f01b7d7, 0x5fc64f71);
  }

  lemma Rounds45()
    requires Reached(45,
      Five(0x40f28e09, 0xee1b1aaf, 0x5fc64f71, 0x25c28357, 0xff21f7b7))
    ensures Reached(50,
      Five(0x120731c5, 0xbaf39337, 0xafab40b2, 0x2806e11b, 0x8714787c))
  {
    hide Reached;
    NextRound(45, Five(0x40f28e09, 0xee1b1aaf, 0x5fc64f71, 0x25c28357, 0xff21f7b7),
              0x000060c0, 0x1e51c128, 0x6fc20b77, 0xfb86c6ab);
    NextRound(46, Five(0x1c51e1f2, 0x40f28e09, 0xfb86c6ab, 0x5fc64f71, 0x25c28357),
              0x053a37cd, 0x8a3c3e43, 0x5bc6ce29, 0x503ca382);
    NextRound(47, Five(0xa01b846c, 0x1c51e1f2, 0x503ca382, 0xfb86c6ab, 0x5fc64f71),
              0x74458547, 0x03708d94, 0x5814e3a2, 0x8714787c);
    NextRound(48, Five(0xbead02ca, 0xa01b846c, 0x8714787c, 0x503ca382, 0xfb86c6ab),
              0xda9415ed, 0xd5a05957, 0x801ca06c, 0x2806e11b);
    NextRound(49, Five(0xbaf39337, 0xbead02ca, 0x2806e11b, 0x8714787c, 0x503ca382),
              0x26380a16, 0x5e7266f7, 0xae04605a, 0xafab40b2);
  }

  lemma Rounds50()
    requires Reached(50,
      Five(0x120731c5, 0xbaf39337, 0xafab40b2, 0x2806e11b, 0x8714787c))
    ensures Reached(55,
      Five(0x7b71f76d, 0x27e9f1d8, 0x792410db, 0x8e11eb59, 0x99076cb3))
  {
    hide Reached;
    NextRound(50, Five(0x120731c5, 0xbaf39337, 0xafab40b2, 0x2806e11b, 0x8714787c),
              0x626383a1, 0x40e638a2, 0xaaa3c133, 0xeebce4cd);
    NextRound(51, Five(0x641db2ce, 0x120731c5, 0xeebce4cd, 0xafab40b2, 0x2806e11b),
              0x4ebf54de, 0x83b659cc, 0xaeaf60c5, 0x4481cc71);
    NextRound(52, Five(0x3847ad66, 0x641db2ce, 0x4481cc71, 0xeebce4cd, 0xafab40b2),
              0x3835b44b, 0x08f5acc7, 0x649de4cd, 0x99076cb3);
    NextRound(53, Five(0xe490436d, 0x3847ad66, 0x99076cb3, 0x4481cc71, 0xeebce4cd),
              0x0000f600, 0x92086dbc, 0x1807ec73, 0x8e11eb59);
    NextRound(54, Five(0x27e9f1d8, 0xe490436d, 0x8e11eb59, 0x99076cb3, 0x4481cc71),
              0x1e84c7a3, 0xfd3e3b04, 0x8c116b79, 0x792410db);
  }

  lemma Rounds55()
    requires Reached(55,
      Five(0x7b71f76d, 0x27e9f1d8, 0x792410db, 0x8e11eb59, 0x99076cb3))
    ensures Reached(60,
      Five(0x3f52de5a, 0x09d785fd, 0x3498bfd4, 0xf211824f, 0xd79915ab))
  {
    hide Reached;
    NextRound(55, Five(0x7b71f76d, 0x27e9f1d8, 0x792410db, 0x8e11eb59, 0x99076cb3),
              0x98e04d98, 0x6e3eedaf, 0x2f21f1d9, 0x09fa7c76);
    NextRound(56, Five(0x5e6456af, 0x7b71f76d, 0x09fa7c76, 0x792410db, 0x8e11eb59),
              0x651d16a0, 0xcc8ad5eb, 0x7970747f, 0x5edc7ddb);
    NextRound(57, Five(0xc846093f, 0x5e6456af, 0x5edc7ddb, 0x09fa7c76, 0x792410db),
              0x62658ca1, 0x08c127f9, 0x5efc7cff, 0xd79915ab);
    NextRound(58, Five(0xd262ff50, 0xc846093f, 0xd79915ab, 0x5edc7ddb, 0x09fa7c76),
              0x458544d6, 0x4c5fea1a, 0xdedc1dbb, 0xf211824f);
    NextRound(59, Five(0x09d785fd, 0xd262ff50, 0xf211824f, 0xd79915ab, 0x5edc7ddb),
              0x44584cb7, 0x3af0bfa1, 0xd211974b, 0x3498bfd4);
  }

  lemma Rounds60()
    requires Reached(60,
      Five(0x3f52de5a, 0x09d785fd, 0x3498bfd4, 0xf211824f, 0xd79915ab))
    ensures Reached(65,
      Five(0x19dfa7ac, 0x6b61c9e1, 0xed9b0082, 0x9523272c, 0xf5d5b051))
  {
    hide Reached;
    NextRound(60, Five(0x3f52de5a, 0x09d785fd, 0x3498bfd4, 0xf211824f, 0xd79915ab),
              0x7ba06619, 0xea5bcb47, 0xcf5eb866, 0x4275e17f);
    NextRound(61, Five(0xd756c147, 0x3f52de5a, 0x4275e17f, 0x3498bfd4, 0xf211824f),
              0x6380aea2, 0xead828fa, 0x49bf80f1, 0x8fd4b796);
    NextRound(62, Five(0x548c9cb2, 0xd756c147, 0x8fd4b796, 0x4275e17f, 0x3498bfd4),
              0x0ae55269, 0x9193964a, 0x1af797ae, 0xf5d5b051);
    NextRound(63, Five(0xb66c020b, 0x548c9cb2, 0xf5d5b051, 0x8fd4b796, 0x4275e17f),
              0x627b49a1, 0xcd804176, 0x2e8d9b75, 0x9523272c);
    NextRound(64, Five(0x6b61c9e1, 0xb66c020b, 0x9523272c, 0xf5d5b051, 0x8fd4b796),
              0x7cd45c9d, 0x6c393c2d, 0xd69a9576, 0xed9b0082);
  }

  lemma Rounds65()
    requires Reached(65,
      Five(0x19dfa7ac, 0x6b61c9e1, 0xed9b0082, 0x9523272c, 0xf5d5b051))
    ensures Reached(70,
      Five(0x3f2588c2, 0x497093c0, 0xde37534a, 0x030f7cad, 0x4405957e))
  {
    hide Reached;
    NextRound(65, Five(0x19dfa7ac, 0x6b61c9e1, 0xed9b0082, 0x9523272c, 0xf5d5b051),
              0x000f0000, 0x3bf4f583, 0x13d9ee4f, 0x5ad87278);
    NextRound(66, Five(0x101655f9, 0x19dfa7ac, 0x5ad87278, 0xed9b0082, 0x9523272c),
              0xfb50753a, 0x02cabf22, 0xae9cd556, 0x0677e9eb);
    NextRound(67, Five(0x0c3df2b4, 0x101655f9, 0x0677e9eb, 0x5ad87278, 0xed9b0082),
              0xec6765e8, 0x87be5681, 0x4cb9ce6a, 0x4405957e);
    NextRound(68, Five(0x78dd4d2b, 0x0c3df2b4, 0x4405957e, 0x0677e9eb, 0x5ad87278),
              0xba3c2be2, 0x1ba9a56f, 0x4e4f8e21, 0x030f7cad);
    NextRound(69, Five(0x497093c0, 0x78dd4d2b, 0x030f7cad, 0x4405957e, 0x0677e9eb),
              0x0060c000, 0x2e127809, 0x3fd7a4f8, 0xde37534a);
  }

  lemma Rounds70()
    requires Reached(70,
      Five(0x3f2588c2, 0x497093c0, 0xde37534a, 0x030f7cad, 0x4405957e))
    ensures Reached(75,
      Five(0x5ee76897, 0x11793f6f, 0x3b6d0b79, 0xce616779, 0xf0667e31))
  {
    hide Reached;
    NextRound(70, Five(0x3f2588c2, 0x497093c0, 0xde37534a, 0x030f7cad, 0x4405957e),
              0x3a37cd05, 0xe4b11847, 0x9448bc27, 0x125c24f0);
    NextRound(71, Five(0xc199f8c7, 0x3f2588c2, 0x125c24f0, 0xde37534a, 0x030f7cad),
              0x458546f4, 0x333f18f8, 0xf34eff78, 0x8fc96230);
    NextRound(72, Five(0x39859de7, 0xc199f8c7, 0x8fc96230, 0x125c24f0, 0xde37534a),
              0xb8599dd6, 0x30b3bce7, 0x5c0cbe07, 0xf0667e31);
    NextRound(73, Five(0xedb42de4, 0x39859de7, 0xf0667e31, 0x8fc96230, 0x125c24f0),
              0x380a1a26, 0xb685bc9d, 0x462a81e6, 0xce616779);
    NextRound(74, Five(0x11793f6f, 0xedb42de4, 0xce616779, 0xf0667e31, 0x8fc96230),
              0x01e02203, 0x2f27ede2, 0xd3b334ac, 0x3b6d0b79);
  }

  lemma Rounds75()
    requires Reached(75,
      Five(0x5ee76897, 0x11793f6f, 0x3b6d0b79, 0xce616779, 0xf0667e31))
    ensures Reached(80,
      Five(0x42541b35, 0x5738d5e1, 0x21834873, 0x681e6df6, 0xd8fdf6ad))
  {
    hide Reached;
    NextRound(75, Five(0x5ee76897, 0x11793f6f, 0x3b6d0b79, 0xce616779, 0xf0667e31),
              0xe7cc3456, 0xdced12eb, 0xe475536f, 0xc45e4fdb);
    NextRound(76, Five(0x63f7dab7, 0x5ee76897, 0xc45e4fdb, 0x3b6d0b79, 0xce616779),
              0xe6e60b69, 0x7efb56ec, 0xa1d42c35, 0xd7b9da25);
    NextRound(77, Five(0xa079b7d9, 0x63f7dab7, 0xd7b9da25, 0xc45e4fdb, 0x3b6d0b79),
              0x00f60a00, 0x0f36fb34, 0x70104f49, 0xd8fdf6ad);
    NextRound(78, Five(0x860d21cc, 0xa079b7d9, 0xd8fdf6ad, 0xd7b9da25, 0xc45e4fdb),
              0x5795ef4f, 0xc1a43990, 0xaf3d9b51, 0x681e6df6);
    NextRound(79, Five(0x5738d5e1, 0x860d21cc, 0x681e6df6, 0xd8fdf6ad, 0xd7b9da25),
              0x822e0879, 0xe71abc2a, 0x36eeba97, 0x21834873);
  }

  lemma RoundsStart()
    requires Listed(80)
    ensures Reached(0, Five(0x67452301, 0xefcdab89, 0x98badcfe, 0x10325476, 0xc3d2e1f0))
  {
    hide Listed;
  }

  lemma OneBlock()
    ensures Hashed(Block(), 1) == Compress(INITIAL, Block())
  {
    hide Compress;
    assert Block()[0..64] == Block();
    assert Hashed(Block(), 0) == INITIAL;
  }

  lemma AllWords()
    ensures Listed(80)
  {
    hide Listed;
    FirstWords();
    Words16();
    Words24();
    Words32();
    Words40();
    Words48();
    Words56();
    Words64();
    Words72();
  }

  lemma AllRounds()
    ensures Reached(80,
      Five(0x42541b35, 0x5738d5e1, 0x21834873, 0x681e6df6, 0xd8fdf6ad))
  {
    hide Listed, Reached;
    AllWords();
    RoundsStart();
    Rounds0();
    Rounds5();
    Rounds10();
    Rounds15();
    Rounds20();
    Rounds25();
    Rounds30();
    Rounds35();
    Rounds40();
    Rounds45();
    Rounds50();
    Rounds55();
    Rounds60();
    Rounds65();
    Rounds70();
    Rounds75();
  }

  /** The digest of "abc". */
  lemma AbcDigest()
    ensures Sha1(ABC) == Five(0xa9993e36, 0x4706816a, 0xba3e2571, 0x7850c26c, 0x9cd0d89d)
  {
    AbcPadded();
    OneBlock();
    AllRounds();
    hide Rounds, Block, Padded, Listed;
  }

  /** And as twenty bytes. */
  lemma AbcBytes()
    ensures DigestBytes(Sha1(ABC)) == [
      0xa9, 0x99, 0x3e, 0x36, 0x47, 0x06, 0x81, 0x6a, 0xba, 0x3e,
      0x25, 0x71, 0x78, 0x50, 0xc2, 0x6c, 0x9c, 0xd0, 0xd8, 0x9d]
  {
    AbcDigest();
    hide Sha1;
  }
}
