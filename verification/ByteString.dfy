/** Bytes, and the order the store keeps its keys in. */
module ByteString {

  type byte = b: int | 0 <= b < 256

  type Bytes = seq<byte>

  /** The C library's memcmp over the first n bytes: the sign of the first difference. */
  function MemCmp(a: Bytes, b: Bytes, n: nat): int
    requires n <= |a| && n <= |b|
  {
    if n == 0 then 0
    else if a[0] != b[0] then a[0] - b[0]
    else MemCmp(a[1..], b[1..], n - 1)
  }

  function Min(x: nat, y: nat): nat {
    if x < y then x else y
  }

  /** Key comparison: common prefix first, then the shorter key is the smaller one. */
  function Cmp(a: Bytes, b: Bytes): int {
    var c := MemCmp(a, b, Min(|a|, |b|));
    if c != 0 then c
    else if |a| < |b| then -1
    else if |a| > |b| then 1
    else 0
  }

  predicate Less(a: Bytes, b: Bytes) {
    Cmp(a, b) < 0
  }

  lemma {:induction false} CmpTail(a: Bytes, b: Bytes)
    requires a != [] && b != [] && a[0] == b[0]
    ensures Cmp(a, b) == Cmp(a[1..], b[1..])
  {
  }

  /** Comparing equal means being the same key; swapping the keys flips the sign. */
  lemma {:induction false} CmpAntisymmetric(a: Bytes, b: Bytes)
    ensures Cmp(a, b) == 0 <==> a == b
    ensures Cmp(a, b) < 0 <==> Cmp(b, a) > 0
    decreases |a|
  {
    if a != [] && b != [] && a[0] == b[0] {
      CmpTail(a, b);
      CmpTail(b, a);
      CmpAntisymmetric(a[1..], b[1..]);
      assert a == [a[0]] + a[1..] && b == [b[0]] + b[1..];
    }
  }

  lemma {:induction false} LessTransitive(a: Bytes, b: Bytes, c: Bytes)
    requires Less(a, b) && Less(b, c)
    ensures Less(a, c)
    decreases |a|
  {
    if a != [] && b != [] && c != [] && a[0] == b[0] == c[0] {
      CmpTail(a, b);
      CmpTail(b, c);
      CmpTail(a, c);
      LessTransitive(a[1..], b[1..], c[1..]);
    }
  }

  /** Keys are totally and strictly ordered. */
  lemma {:induction false} KeyOrderIsTotal(a: Bytes, b: Bytes)
    ensures !Less(a, a)
    ensures a == b || Less(a, b) || Less(b, a)
    ensures !(Less(a, b) && Less(b, a))
  {
    CmpAntisymmetric(a, a);
    CmpAntisymmetric(a, b);
    CmpAntisymmetric(b, a);
  }

  /** b goes on where a ends, or is greater at the first byte in which they differ. */
  predicate Precedes(a: Bytes, b: Bytes) {
    || (|a| < |b| && a == b[..|a|])
    || exists i :: 0 <= i < |a| && i < |b| && a[..i] == b[..i] && a[i] < b[i]
  }

  /** The order is that of a dictionary: by the first byte that differs, and otherwise the shorter
      key first. */
  lemma {:induction false} LessIsPrecedes(a: Bytes, b: Bytes)
    ensures Less(a, b) <==> Precedes(a, b)
    decreases |a|
  {
    if a != [] && b != [] {
      if a[0] == b[0] {
        CmpTail(a, b);
        LessIsPrecedes(a[1..], b[1..]);
        PrecedesTail(a, b);
      } else {
        assert a[..0] == b[..0];
        FirstDiffers(a, b);
      }
    }
  }

  lemma FirstDiffers(a: Bytes, b: Bytes)
    requires a != [] && b != [] && a[0] != b[0]
    ensures Precedes(a, b) <==> a[0] < b[0]
  {
    assert a[..0] == b[..0];
    forall i | 0 < i < |a| && i < |b|
      ensures a[..i] != b[..i]
    {
      assert a[..i][0] != b[..i][0];
    }
    if |a| < |b| {
      assert a[0] != b[..|a|][0];
    }
  }

  lemma PrecedesTail(a: Bytes, b: Bytes)
    requires a != [] && b != [] && a[0] == b[0]
    ensures Precedes(a, b) <==> Precedes(a[1..], b[1..])
  {
    var x, y := a[1..], b[1..];
    assert a == [a[0]] + x && b == [b[0]] + y;
    if |a| < |b| {
      assert b[..|a|] == [b[0]] + y[..|x|];
    }
    if i :| 0 <= i < |a| && i < |b| && a[..i] == b[..i] && a[i] < b[i] {
      assert x[..i - 1] == a[..i][1..] && y[..i - 1] == b[..i][1..];
      assert x[i - 1] < y[i - 1];
    }
    if i :| 0 <= i < |x| && i < |y| && x[..i] == y[..i] && x[i] < y[i] {
      assert a[..i + 1] == [a[0]] + x[..i] && b[..i + 1] == [b[0]] + y[..i];
      assert a[i + 1] < b[i + 1];
    }
  }

  /** Is the bit of weight w set? */
  predicate Bit(c: byte, w: nat)
    requires w > 0
  {
    c as int / w % 2 == 1
  }

  // --- 32-bit integers in network byte order ---

  const WORD := 0x1_0000_0000

  function PackInt(n: nat): (b: Bytes)
    requires n < WORD
    ensures |b| == 4
  {
    [n / 0x1_000000, n / 0x1_0000 % 0x100, n / 0x1_00 % 0x100, n % 0x100]
  }

  function UnpackInt(b: Bytes): (n: nat)
    requires |b| >= 4
    ensures n < WORD
  {
    (b[0] as int) * 0x1_000000 + (b[1] as int) * 0x1_0000 + (b[2] as int) * 0x1_00 + b[3] as int
  }

  lemma UnpackPack(n: nat)
    requires n < WORD
    ensures UnpackInt(PackInt(n)) == n
  {
    assert n / 0x1_0000 == n / 0x1_000000 * 0x100 + n / 0x1_0000 % 0x100;
    assert n / 0x1_00 == n / 0x1_0000 * 0x100 + n / 0x1_00 % 0x100;
  }

  /** The four bytes of a number, the most significant first. */
  lemma PackDigits(a: byte, b: byte, c: byte, d: byte)
    ensures PackInt(a as nat * 0x1_000000 + b as nat * 0x1_0000 + c as nat * 0x1_00 + d as nat) == [a, b, c, d]
  {
    var n := a as nat * 0x1_000000 + b as nat * 0x1_0000 + c as nat * 0x1_00 + d as nat;
    Quotient(a as nat * 0x1_0000 + b as nat * 0x1_00 + c as nat, d);
    Quotient(a as nat * 0x1_00 + b as nat, c);
    Quotient(a as nat, b);
    assert n / 0x1_0000 == n / 0x1_00 / 0x1_00 && n / 0x1_000000 == n / 0x1_0000 / 0x1_00;
  }

  lemma Quotient(q: nat, r: byte)
    ensures (q * 0x1_00 + r as nat) / 0x1_00 == q && (q * 0x1_00 + r as nat) % 0x1_00 == r as nat
  {
  }

  /** And back. */
  lemma UnpackDigits(v: Bytes)
    requires |v| >= 4
    ensures UnpackInt(v) == v[0] as nat * 0x1_000000 + v[1] as nat * 0x1_0000 + v[2] as nat * 0x1_00 + v[3] as nat
    ensures PackInt(UnpackInt(v)) == v[..4]
  {
    PackDigits(v[0], v[1], v[2], v[3]);
  }
}
