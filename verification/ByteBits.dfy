/** The eight bits of a byte. Bytes are bit vectors here, numbers in the modules that count. */
module ByteBits {
  import opened ByteString

  type Octets = seq<bv8>

  function Zeros(n: nat): (z: Octets)
    ensures |z| == n
  {
    seq(n, _ => 0)
  }

  /** The byte with bit k alone. */
  function OneBit(k: nat): (m: bv8)
    requires k < 8
    ensures IsOneBit(m)
  {
    if k == 0 then 1 else if k == 1 then 2 else if k == 2 then 4 else if k == 3 then 8
    else if k == 4 then 16 else if k == 5 then 32 else if k == 6 then 64 else 128
  }

  predicate Test(c: bv8, m: bv8) {
    c & m != 0
  }

  predicate HasBit(c: bv8, k: nat)
    requires k < 8
  {
    Test(c, OneBit(k))
  }

  lemma OneBitBit(j: nat, k: nat)
    requires j < 8 && k < 8
    ensures HasBit(OneBit(j), k) <==> j == k
  {
  }

  predicate IsOneBit(m: bv8) {
    m == 1 || m == 2 || m == 4 || m == 8 || m == 16 || m == 32 || m == 64 || m == 128
  }

  lemma OperatorsAt(c: bv8, d: bv8, m: bv8)
    requires IsOneBit(m)
    ensures Test(c | d, m) <==> Test(c, m) || Test(d, m)
    ensures Test(c & d, m) <==> Test(c, m) && Test(d, m)
    ensures Test(c ^ d, m) <==> Test(c, m) != Test(d, m)
    ensures Test(!c, m) <==> !Test(c, m)
  {
  }

  /** How the operators of the language act on a single bit. */
  lemma BitOf(c: bv8, d: bv8, k: nat)
    requires k < 8
    ensures HasBit(c | d, k) <==> HasBit(c, k) || HasBit(d, k)
    ensures HasBit(c & d, k) <==> HasBit(c, k) && HasBit(d, k)
    ensures HasBit(c ^ d, k) <==> HasBit(c, k) != HasBit(d, k)
    ensures HasBit(!c, k) <==> !HasBit(c, k)
  {
    hide IsOneBit, OneBit, Test;
    OperatorsAt(c, d, OneBit(k));
  }

  /** The byte c with the bits of the mask m set or cleared. */
  function Masked(c: bv8, m: bv8, on: bool): bv8 {
    (c & !m) | if on then m else 0
  }

  lemma MaskedAt(c: bv8, m: bv8, on: bool, n: bv8)
    requires IsOneBit(m) && IsOneBit(n)
    ensures Test(Masked(c, m, on), n) <==> if m == n then on else Test(c, n)
  {
  }

  lemma MaskedBit(c: bv8, k: nat, on: bool, j: nat)
    requires k < 8 && j < 8
    ensures HasBit(Masked(c, OneBit(k), on), j) <==> if j == k then on else HasBit(c, j)
  {
    OneBitBit(k, j);
    assert OneBit(k) == OneBit(j) <==> k == j;
    hide IsOneBit, OneBit, Test, Masked;
    MaskedAt(c, OneBit(k), on, OneBit(j));
  }

  /** A byte is the set of its bits. */
  lemma SameBits(c: bv8, d: bv8)
    requires forall k :: 0 <= k < 8 ==> (HasBit(c, k) <==> HasBit(d, k))
    ensures c == d
  {
    assert HasBit(c, 0) == HasBit(d, 0) && HasBit(c, 1) == HasBit(d, 1) && HasBit(c, 2) == HasBit(d, 2);
    assert HasBit(c, 3) == HasBit(d, 3) && HasBit(c, 4) == HasBit(d, 4) && HasBit(c, 5) == HasBit(d, 5);
    assert HasBit(c, 6) == HasBit(d, 6) && HasBit(c, 7) == HasBit(d, 7);
  }

  lemma NoBits(c: bv8)
    ensures c == 0 <==> forall k :: 0 <= k < 8 ==> !HasBit(c, k)
  {
    if forall k :: 0 <= k < 8 ==> !HasBit(c, k) {
      SameBits(c, 0);
    }
  }

  // --- the same bytes as numbers ---

  function Numbers(v: seq<bv8>): (b: Bytes)
    ensures |b| == |v|
  {
    seq(|v|, i requires 0 <= i < |v| => v[i] as byte)
  }

  function AsOctets(b: Bytes): (v: seq<bv8>)
    ensures |v| == |b|
  {
    seq(|b|, i requires 0 <= i < |b| => b[i] as bv8)
  }

  lemma OctetOfNumber(x: bv8)
    ensures (x as byte) as bv8 == x
  {
  }

  lemma OctetsOfNumbers(v: seq<bv8>)
    ensures AsOctets(Numbers(v)) == v
  {
    forall i | 0 <= i < |v|
      ensures AsOctets(Numbers(v))[i] == v[i]
    {
      OctetOfNumber(v[i]);
    }
  }
}
