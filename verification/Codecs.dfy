/** The coders as the store uses them, and which sets of ids each of them brings back. */
module Codecs {
  import opened ByteString
  import opened ByteBits
  import opened BitVectors
  import opened Iterators
  import opened Options
  import opened Runs
  import opened RunFormat
  import opened RunLoss
  import opened Statements
  import opened TripleStore
  import BlockFormat
  import BlockCoder

  function Bytewise(r: Option<Bytes>): Vector {
    match r
    case None => []
    case Some(b) => AsOctets(b)
  }

  /** A run-length coder; nulls is what a store uses unless told otherwise. */
  function RunCodec(f: Coder): Codec {
    Codec(v => Encode(f, Numbers(v)), b => Bytewise(Expand(f, b)))
  }

  ghost function BlockCodec(): Codec {
    Codec(
      v => if |v| <= BYTES then BlockCoder.Compressed(Numbers(v) + [0, 0], |v|) else [],
      b => Bytewise(BlockFormat.Expand(b)))
  }

  /** The block coder brings back every vector of the store. */
  lemma BlockRestores(v: Vector)
    requires v != [] && |v| <= BYTES
    ensures BlockCodec().encode(v) != [] && BlockCodec().decode(BlockCodec().encode(v)) == v
    ensures Restores(BlockCodec(), v)
  {
    var c := BlockCodec();
    var mem := Numbers(v) + [0, 0];
    BlockCoder.BlockRoundTrip(mem, |v|);
    assert mem[..|v|] == Numbers(v);
    OctetsOfNumbers(v);
    assert c.encode(v) == BlockCoder.Compressed(mem, |v|);
    assert BlockFormat.Expand([]) != Some(Numbers(v));
  }

  /** The block coder serves every set of ids a store can hold. */
  lemma BlockServes(ids: set<nat>)
    ensures Workable(BlockCodec()) && Serves(BlockCodec(), ids)
  {
    forall v: Vector | v != [] && |v| <= BYTES
      ensures BlockCodec().encode(v) != [] && |BlockCodec().decode(BlockCodec().encode(v))| <= BYTES
      ensures Restores(BlockCodec(), v)
    {
      BlockRestores(v);
    }
  }

  lemma BlockServesAll(w: World, nodes: map<nat, Statement>)
    ensures Served(BlockCodec(), w, nodes)
  {
    hide Serves, Matching;
    forall key
      ensures Serves(BlockCodec(), Matching(w, nodes, key))
    {
      BlockServes(Matching(w, nodes, key));
    }
  }

  lemma RunCodecGives(f: Coder, v: Vector)
    requires v != []
    ensures var c := RunCodec(f);
      c.encode(v) != [] && c.decode(c.encode(v)) == AsOctets(Kept(f, Numbers(v), 0))
  {
    hide Encode, Expand, Kept;
    var c := RunCodec(f);
    ExpandEncode(f, Numbers(v));
    assert c.encode(v) == Encode(f, Numbers(v));
    WritesSomething(f, Numbers(v), 0, []);
    EncodeIs(f, Numbers(v));
  }

  lemma EncodeIs(f: Coder, s: Bytes)
    ensures Encode(f, s) == EncodeFrom(f, s, 0, [])
  {
  }

  lemma {:induction false} WritesSomething(f: Coder, s: Bytes, i: nat, lit: Bytes)
    requires i <= |s| && |lit| < MaxLit(f) && (i < |s| || lit != [])
    ensures EncodeFrom(f, s, i, lit) != []
    decreases |s| - i
  {
    hide TokenLen, Token;
    if i < |s| {
      var n := TokenLen(f, s, i);
      if n > 0 {
        TokenNotEmpty(f, s[i], n);
      } else if |lit| + 1 < MaxLit(f) {
        WritesSomething(f, s, i + 1, lit + [s[i]]);
      }
    }
  }

  lemma RunCodecWorks(f: Coder)
    ensures Workable(RunCodec(f))
  {
    hide Encode, Expand, Kept;
    forall v: Vector | v != [] && |v| <= BYTES
      ensures RunCodec(f).encode(v) != [] && |RunCodec(f).decode(RunCodec(f).encode(v))| <= BYTES
    {
      RunCodecGives(f, v);
      KeptNoMore(f, Numbers(v), 0);
    }
  }

  /** A run-length coder brings back a vector exactly if it has no run of more than 65535 equal
      bytes with anything set in it or behind it. */
  lemma RunRestoresWhen(f: Coder, v: Vector)
    requires v != []
    ensures Restores(RunCodec(f), v) <==> !Spoilt(f, Numbers(v), 0)
  {
    hide Encode, Expand, Kept, Ids, Spoilt;
    RunCodecGives(f, v);
    IdsKept(f, v);
  }

  /** And so it depends on the ids alone. */
  lemma RunServesWhen(f: Coder, v: Vector)
    requires v != [] && |v| <= BYTES
    ensures Serves(RunCodec(f), Ids(v)) <==> !Spoilt(f, Numbers(v), 0)
  {
    hide Restores, Ids, Spoilt;
    RunRestoresWhen(f, v);
    forall u: Vector | u != [] && |u| <= BYTES && Ids(u) == Ids(v)
      ensures Restores(RunCodec(f), u) <==> !Spoilt(f, Numbers(v), 0)
    {
      RunRestoresWhen(f, u);
      SpoiltByIds(f, u, v);
    }
  }

  /** With a run-length coder, an insert keeps the store valid exactly if none of the vectors it
      stores has a run of more than 65535 equal bytes with anything set in it or behind it. */
  lemma RunPostableWhen(f: Coder, w: World, tables: map<Key, Bytes>, id: nat, s: Statement)
    ensures Postable(RunCodec(f), w, tables, id, s) <==>
      forall key :: key in Keys(w, s) ==> !Spoilt(f, Numbers(Widened(RunCodec(f), tables, id, key)), 0)
  {
    hide Restores, Ids, Spoilt, Keys;
    forall key
      ensures Restores(RunCodec(f), Widened(RunCodec(f), tables, id, key)) <==>
        !Spoilt(f, Numbers(Widened(RunCodec(f), tables, id, key)), 0)
    {
      RunRestoresWhen(f, Widened(RunCodec(f), tables, id, key));
    }
  }

  lemma ShortIsWhole(f: Coder, s: Bytes)
    requires |s| <= LONGEST
    ensures !Spoilt(f, s, 0)
  {
  }

  /** A run-length coder serves all sets of numbers below 524280. */
  lemma RunServesBelow(f: Coder, ids: set<nat>)
    requires forall id :: id in ids ==> id < 8 * LONGEST
    ensures Serves(RunCodec(f), ids)
  {
    hide Restores, Spoilt;
    forall v: Vector | v != [] && |v| <= BYTES && Ids(v) == ids
      ensures Restores(RunCodec(f), v)
    {
      var u := Shortened(v);
      ShortenedIs(v);
      ShortBelow(u, LONGEST);
      ShortIsWhole(f, Numbers(u));
      SpoiltByIds(f, u, v);
      RunRestoresWhen(f, v);
    }
  }

  lemma RunServesAllBelow(f: Coder, w: World, nodes: map<nat, Statement>)
    requires forall id :: id in nodes ==> id < 8 * LONGEST
    ensures Served(RunCodec(f), w, nodes)
  {
    hide Serves, Keys;
    forall key
      ensures Serves(RunCodec(f), Matching(w, nodes, key))
    {
      RunServesBelow(f, Matching(w, nodes, key));
    }
  }

  lemma ShortBelow(u: Vector, n: nat)
    requires Short(u) && forall id :: id in Ids(u) ==> id < 8 * n
    ensures |u| <= n
  {
    hide HasBit;
    if u != [] {
      var k := SomeBit(u[|u| - 1]);
      assert Has(u, 8 * (|u| - 1) + k);
      IdsHas(u);
      assert 8 * (|u| - 1) + k in Ids(u);
    }
  }

  /** The vector of one id, as setmask extends it. */
  function OneId(zeros: nat): Vector {
    seq(zeros, _ => 0) + [1] + seq(STEP - 1, _ => 0)
  }

  lemma OneIdHolds(zeros: nat)
    ensures Ids(OneId(zeros)) == {8 * zeros}
  {
    hide HasBit;
    var v := OneId(zeros);
    IdsHas(v);
    forall i: nat
      ensures Has(v, i) <==> i == 8 * zeros
    {
      NoBits(0);
      if i / 8 == zeros {
        OneBitBit(0, i % 8);
      }
    }
  }

  lemma ZerosThenOne(s: Bytes)
    requires s == Repeat(0, 0x1_0000) + [1] + Repeat(0, STEP - 1)
    ensures RunLen(s, 0) == 0x1_0000
    ensures forall k :: 0x1_0000 <= k < |s| ==> RunLen(s, k) <= STEP
  {
    RunLenIs(s, 0, 0x1_0000);
  }

  lemma ZerosAreLost(f: Coder, s: Bytes)
    requires s == Repeat(0, 0x1_0000) + [1] + Repeat(0, STEP - 1)
    ensures Kept(f, s, 0) == s[0x1_0000..]
  {
    ZerosThenOne(s);
    hide RunLen, Repeat;
    assert TokenLen(f, s, 0) == 0x1_0000;
    hide TokenLen;
    assert Kept(f, s, 0) == Repeat(0, 0) + Kept(f, s, 0x1_0000);
    KeptAll(f, s, 0x1_0000);
    NoRepeat(0);
  }

  /** The first id the run-length coders lose when it is alone under its key: it comes back as id 0. */
  lemma LostId(f: Coder)
    ensures var c := RunCodec(f);
      && Ids(OneId(0x1_0000)) == {0x8_0000}
      && c.encode(OneId(0x1_0000)) != [] && Ids(c.decode(c.encode(OneId(0x1_0000)))) == {0}
  {
    hide Ids, Encode, Expand;
    var v := OneId(0x1_0000);
    var s := Numbers(v);
    OneIdHolds(0x1_0000);
    OneIdHolds(0);
    assert s == Repeat(0, 0x1_0000) + [1] + Repeat(0, STEP - 1);
    ZerosAreLost(f, s);
    hide Kept;
    assert AsOctets(s[0x1_0000..]) == OneId(0);
    RunCodecGives(f, v);
  }

  /** A new statement with the number 524288 is not found under a key of its own; statement 0 is
      found there instead. */
  lemma LostStatement(f: Coder, before: map<Key, Bytes>, after: map<Key, Bytes>, key: Key, keys: set<Key>)
    requires AddedUnder(RunCodec(f), before, after, 0x8_0000, keys) && key in keys && key !in before
    ensures Posting(RunCodec(f), after, key) == {0}
  {
    hide Ids, Encode, Expand, WithBit;
    var c := RunCodec(f);
    var v := Widened(c, before, 0x8_0000, key);
    LostId(f);
    NoIds([]);
    WithBitIds([], 0x8_0000, true);
    SameVector(v, OneId(0x1_0000));
    assert Lookup(after, key) == Some(c.encode(v));
  }

  /** Removing one statement can lose another: of two ids, the one with the other in front comes back,
      and the same id alone does not. */
  lemma RemoveLosesExample(f: Coder, tables: map<Key, Bytes>, key: Key, id: nat)
    requires WellStored(RunCodec(f), tables) && Posting(RunCodec(f), tables, key) == {id, 0x8_0000}
    requires id != 0x8_0000 && id < MAXRECORDS
    ensures !Right(RunCodec(f), tables, map[], id, key)
  {
    hide Ids, Encode, Expand, Cleared, WellStored, Read, Spoilt;
    var c := RunCodec(f);
    ReadIs(c, tables, map[], key);
    ClearedIs(c, tables, map[], id, key);
    var v := Cleared(c, tables, map[], id, key);
    assert 0x8_0000 in Ids(v);
    LostId(f);
    RunRestoresWhen(f, OneId(0x1_0000));
    RunRestoresWhen(f, v);
    SpoiltByIds(f, v, OneId(0x1_0000));
  }

  lemma AllOnes(s: Bytes)
    requires s == Repeat(0xFF, 0x1_0000)
    ensures RunLen(s, 0) == 0x1_0000
  {
    RunLenIs(s, 0, 0x1_0000);
  }

  /** The run-length coders bring back all vectors of a size exactly up to 65535 bytes. */
  lemma RunCodecLimit(f: Coder, limit: nat)
    ensures (forall v: Vector :: v != [] && |v| <= limit ==> Restores(RunCodec(f), v)) <==> limit <= LONGEST
  {
    hide Restores, SomethingFrom;
    forall v: Vector | v != [] && |v| <= LONGEST
      ensures Restores(RunCodec(f), v)
    {
      ShortIsWhole(f, Numbers(v));
      RunRestoresWhen(f, v);
    }
    var v: Vector := seq(0x1_0000, _ => 0xFF);
    var s := Numbers(v);
    assert s == Repeat(0xFF, 0x1_0000);
    AllOnes(s);
    hide RunLen;
    assert LostAt(f, s, 0) && s[0] != 0;
    SomethingAt(s, 0);
    RunRestoresWhen(f, v);
  }

  lemma SomethingAt(s: Bytes, i: nat)
    requires i < |s| && s[i] != 0
    ensures SomethingFrom(s, i)
  {
  }
}
