/** What the three run-length coders share: runs of equal bytes, and the scan that ends
    at a sentinel planted just past the data. */
module Runs {
  import opened ByteString
  import opened Options

  function Repeat(c: byte, n: nat): (r: Bytes)
    ensures |r| == n
    ensures forall i :: 0 <= i < n ==> r[i] == c
  {
    seq(n, _ => c)
  }

  /** How many bytes from i on are equal to s[i]. */
  function RunLen(s: Bytes, i: nat): (n: nat)
    requires i < |s|
    ensures 1 <= n <= |s| - i
    decreases |s| - i
  {
    if i + 1 < |s| && s[i + 1] == s[i] then 1 + RunLen(s, i + 1) else 1
  }

  /** The run is the longest stretch of equal bytes from i on. */
  lemma {:induction false} RunIsMaximal(s: Bytes, i: nat)
    requires i < |s|
    ensures var n := RunLen(s, i);
      && (forall k :: i <= k < i + n ==> s[k] == s[i])
      && (i + n < |s| ==> s[i + n] != s[i])
    decreases |s| - i
  {
    if i + 1 < |s| && s[i + 1] == s[i] {
      RunIsMaximal(s, i + 1);
    }
  }

  /** The longest run a coder can write down in its two length bytes. */
  const LONGEST := 0xFFFF

  lemma RunLenAtLeastTwo(s: Bytes, i: nat)
    requires i < |s|
    ensures RunLen(s, i) >= 2 <==> i + 1 < |s| && s[i + 1] == s[i]
  {
  }

  lemma {:induction false} RunLenInside(s: Bytes, i: nat, j: nat)
    requires i < |s| && i <= j < i + RunLen(s, i)
    ensures j < |s| && RunLen(s, j) == RunLen(s, i) - (j - i)
    decreases j - i
  {
    if i < j {
      RunLenInside(s, i + 1, j);
    }
  }

  /** An exact stretch of equal bytes is the run. */
  lemma RunLenIs(s: Bytes, i: nat, n: nat)
    requires i < |s| && 1 <= n <= |s| - i
    requires forall k :: i <= k < i + n ==> s[k] == s[i]
    requires i + n < |s| ==> s[i + n] != s[i]
    ensures RunLen(s, i) == n
  {
    RunIsMaximal(s, i);
    assert !(RunLen(s, i) < n) && !(n < RunLen(s, i));
  }

  /** Any start of a run is a repetition of its byte. */
  lemma PartOfRun(s: Bytes, i: nat, n: nat)
    requires i < |s| && n <= RunLen(s, i)
    ensures s[i..i + n] == Repeat(s[i], n)
  {
    RunIsMaximal(s, i);
  }

  /** A byte that differs from c: the C code's !c. */
  function Not(c: byte): byte {
    if c == 0 then 1 else 0
  }

  /** Plant the sentinel past the data and scan from `from` to the first byte that is not c. */
  method ScanRun(src: array<byte>, n: nat, from: nat, c: byte, sentinel: byte) returns (end: nat)
    requires 0 < from <= n < src.Length && src[from - 1] == c && sentinel != c
    modifies src
    ensures src[..n] == old(src[..n])
    ensures forall k :: n < k < src.Length ==> src[k] == old(src[k])
    ensures from <= end <= n && end - from + 1 == RunLen(src[..n], from - 1)
  {
    src[n] := sentinel;
    end := from;
    while src[end] == c
      invariant from <= end <= n
      invariant forall k :: from <= k < end ==> src[k] == c
      decreases n - end
    {
      end := end + 1;
    }
    RunLenIs(src[..n], from - 1, end - from + 1);
  }

  /** A C memset into dst at position `at`. */
  method Fill(dst: array<byte>, at: nat, c: byte, n: nat)
    requires at + n <= dst.Length
    modifies dst
    ensures dst[..at + n] == old(dst[..at]) + Repeat(c, n)
  {
    var i := 0;
    while i < n
      invariant 0 <= i <= n
      invariant dst[..at + i] == old(dst[..at]) + Repeat(c, i)
    {
      dst[at + i] := c;
      assert dst[..at + i + 1] == dst[..at + i] + [c];
      assert Repeat(c, i + 1) == Repeat(c, i) + [c];
      i := i + 1;
    }
  }

  /** A C memcpy of src[from..from + n] into dst at position `at`. */
  method Copy(src: array<byte>, from: nat, dst: array<byte>, at: nat, n: nat)
    requires src != dst && from + n <= src.Length && at + n <= dst.Length
    modifies dst
    ensures dst[..at + n] == old(dst[..at]) + src[from..from + n]
  {
    var i := 0;
    while i < n
      invariant 0 <= i <= n
      invariant dst[..at + i] == old(dst[..at]) + src[from..from + i]
    {
      dst[at + i] := src[from + i];
      assert dst[..at + i + 1] == dst[..at + i] + [src[from + i]];
      i := i + 1;
    }
  }

  /** Write a short string of bytes into dst at position `at`. */
  method Put(dst: array<byte>, at: nat, b: Bytes) returns (at': nat)
    requires at + |b| <= dst.Length
    modifies dst
    ensures at' == at + |b| && dst[..at'] == old(dst[..at]) + b
  {
    var i := 0;
    while i < |b|
      invariant 0 <= i <= |b|
      invariant dst[..at + i] == old(dst[..at]) + b[..i]
    {
      dst[at + i] := b[i];
      assert dst[..at + i + 1] == dst[..at + i] + [b[i]];
      i := i + 1;
    }
    at' := at + |b|;
  }

  lemma Regroup(a: Bytes, b: Bytes, c: Bytes, d: Bytes)
    ensures a + (b + c + d) == a + b + c + d
    ensures a + (b + c) == a + b + c
  {
  }

  // --- decoding ---

  /** Bytes consumed and bytes produced by the first token of a stream. */
  type Head = Option<(nat, Bytes)>

  /** Where a decoder stands after prefixing what one token produced. */
  function Prefixed(p: Bytes, rest: Option<Bytes>): Option<Bytes> {
    match rest
    case None => None
    case Some(r) => Some(p + r)
  }

  lemma PrefixedTwice(p: Bytes, q: Bytes, rest: Option<Bytes>)
    ensures Prefixed([], rest) == rest
    ensures Prefixed(p, Prefixed(q, rest)) == Prefixed(p + q, rest)
  {
    match rest
    case None =>
    case Some(r) =>
      assert [] + r == r;
      assert p + (q + r) == (p + q) + r;
  }
}
