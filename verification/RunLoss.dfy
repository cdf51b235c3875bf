/** What the run-length coders lose: exactly which vectors of ids they do not bring back. */
module RunLoss {
  import opened ByteString
  import opened ByteBits
  import opened BitVectors
  import opened Runs
  import opened RunFormat

  /** There is a byte that is not zero from i on. */
  predicate SomethingFrom(s: Bytes, i: nat) {
    exists j :: i <= j < |s| && s[j] != 0
  }

  /** From i on there is a run too long for its two length bytes, and it is not followed, or made
      up, by nothing but zeros. */
  predicate Spoilt(f: Coder, s: Bytes, i: nat) {
    exists k :: i <= k < |s| && LostAt(f, s, k) && SomethingFrom(s, k)
  }

  /** The positions of the bytes that are not zero, added up; o is the position of the first byte. */
  function Weight(b: Bytes, o: nat): nat {
    if b == [] then 0 else (if b[0] != 0 then o + 1 else 0) + Weight(b[1..], o + 1)
  }

  lemma {:induction false} WeightAppend(a: Bytes, b: Bytes, o: nat)
    ensures Weight(a + b, o) == Weight(a, o) + Weight(b, o + |a|)
    decreases |a|
  {
    if a == [] {
      assert a + b == b;
    } else {
      assert (a + b)[1..] == a[1..] + b;
      WeightAppend(a[1..], b, o + 1);
    }
  }

  lemma RepeatMore(c: byte, n: nat)
    requires n > 0
    ensures Repeat(c, n)[0] == c && Repeat(c, n)[1..] == Repeat(c, n - 1)
  {
  }

  lemma {:induction false} WeightZeros(n: nat, o: nat)
    ensures Weight(Repeat(0, n), o) == 0
  {
    if n > 0 {
      RepeatMore(0, n);
      WeightZeros(n - 1, o + 1);
    }
  }

  /** Fewer bytes, or the same further in front, do not weigh more. */
  lemma {:induction false} RepeatWeighs(c: byte, m: nat, n: nat, o: nat, i: nat)
    requires m <= n && o <= i
    ensures Weight(Repeat(c, m), o) <= Weight(Repeat(c, n), i)
    ensures c != 0 && n > 0 && (m < n || o < i) ==> Weight(Repeat(c, m), o) < Weight(Repeat(c, n), i)
  {
    hide Repeat;
    if n > 0 {
      RepeatMore(c, n);
      if m > 0 {
        RepeatMore(c, m);
        RepeatWeighs(c, m - 1, n - 1, o + 1, i + 1);
      }
    }
  }

  /** How many bytes one token or literal stands for. */
  function Taken(f: Coder, s: Bytes, i: nat): (n: nat)
    requires i < |s|
    ensures 0 < n <= |s| - i
  {
    if TokenLen(f, s, i) > 0 then TokenLen(f, s, i) else 1
  }

  lemma TakenAre(f: Coder, s: Bytes, i: nat)
    requires i < |s|
    ensures var n := Taken(f, s, i);
      s[i..] == Repeat(s[i], n) + s[i + n..] && forall k :: i <= k < i + n ==> s[k] == s[i]
  {
    var n := Taken(f, s, i);
    hide TokenLen;
    RunIsMaximal(s, i);
    hide RunLen;
    PartOfRun(s, i, n);
    assert s[i..] == s[i..i + n] + s[i + n..];
  }

  /** A token loses bytes exactly if a lost run starts in it, and then one starts at its own start. */
  lemma TakenLoses(f: Coder, s: Bytes, i: nat)
    requires i < |s|
    ensures var n := Taken(f, s, i);
      && (n % 0x1_0000 < n <==> LostAt(f, s, i))
      && forall k :: i <= k < i + n && LostAt(f, s, k) ==> n % 0x1_0000 < n
  {
    var n := Taken(f, s, i);
    if LostAt(f, s, i) {
      LostIsWritten(f, s, i);
      LostTokens(f, s, i, i);
    }
    forall k | i <= k < i + n && LostAt(f, s, k)
      ensures n % 0x1_0000 < n
    {
      if k > i {
        LostTokens(f, s, i, k);
      }
    }
  }

  /** The bytes of one token: m of n are kept. */
  lemma TokenKeeps(f: Coder, s: Bytes, i: nat) returns (m: nat, n: nat)
    requires i < |s|
    ensures m <= n && 0 < n && i + n <= |s| && s[i..] == Repeat(s[i], n) + s[i + n..]
    ensures Kept(f, s, i) == Repeat(s[i], m) + Kept(f, s, i + n)
    ensures forall k :: i <= k < i + n ==> s[k] == s[i]
    ensures m < n <==> LostAt(f, s, i)
    ensures forall k :: i <= k < i + n && LostAt(f, s, k) ==> m < n
  {
    hide RunLen, Repeat, LostAt, TokenLen;
    n := Taken(f, s, i);
    TakenAre(f, s, i);
    TakenLoses(f, s, i);
    m := n % 0x1_0000;
    RepeatOnce(s[i]);
  }

  /** What is kept weighs no more, and less if it moved to the front or something was lost. */
  lemma {:induction false} KeptWeighs(f: Coder, s: Bytes, i: nat, o: nat)
    requires o <= i <= |s|
    ensures Weight(Kept(f, s, i), o) <= Weight(s[i..], i)
    ensures (o < i && SomethingFrom(s, i)) || Spoilt(f, s, i) ==> Weight(Kept(f, s, i), o) < Weight(s[i..], i)
    decreases |s| - i
  {
    hide Kept, Weight, Repeat, LostAt;
    if i < |s| {
      var m, n := TokenKeeps(f, s, i);
      KeptWeighs(f, s, i + n, o + m);
      RepeatWeighs(s[i], m, n, o, i);
      WeightAppend(Repeat(s[i], m), Kept(f, s, i + n), o);
      WeightAppend(Repeat(s[i], n), s[i + n..], i);
    } else {
      KeptEnd(f, s);
      WeightZeros(0, o);
      NoRepeat(0);
    }
  }

  lemma NoRepeat(c: byte)
    ensures Repeat(c, 0) == []
  {
  }

  lemma KeptEnd(f: Coder, s: Bytes)
    ensures Kept(f, s, |s|) == []
  {
  }

  lemma {:induction false} KeptZeros(f: Coder, s: Bytes, i: nat)
    requires i <= |s| && !SomethingFrom(s, i)
    ensures forall k :: 0 <= k < |Kept(f, s, i)| ==> Kept(f, s, i)[k] == 0
    decreases |s| - i
  {
    hide Kept, LostAt;
    KeptEnd(f, s);
    if i < |s| {
      var m, n := TokenKeeps(f, s, i);
      KeptZeros(f, s, i + n);
    }
  }

  /** Where nothing is spoilt, only zeros at the end are lost. */
  lemma {:induction false} KeptButZeros(f: Coder, s: Bytes, i: nat)
    requires i <= |s| && !Spoilt(f, s, i)
    ensures var k := Kept(f, s, i);
      |k| <= |s| - i && s[i..] == k + Repeat(0, |s| - i - |k|)
    decreases |s| - i
  {
    hide Kept, LostAt;
    KeptEnd(f, s);
    KeptNoMore(f, s, i);
    if i < |s| {
      var m, n := TokenKeeps(f, s, i);
      if m < n {
        KeptZeros(f, s, i);
      } else {
        KeptButZeros(f, s, i + n);
      }
    }
  }

  // --- as sets of ids ---

  /** Two vectors with the same ids differ in zeros at the end only. */
  lemma SameButZeros(u: Vector, v: Vector)
    requires Ids(u) == Ids(v) && |u| <= |v|
    ensures v == u + Zeros(|v| - |u|)
    ensures Numbers(v) == Numbers(u) + Repeat(0, |v| - |u|)
  {
    var w := u + Zeros(|v| - |u|);
    TrimmedIds(w, |u|);
    assert w[..|u|] == u;
    SameVector(w, v);
  }

  lemma SameWeight(u: Vector, v: Vector)
    requires Ids(u) == Ids(v)
    ensures Weight(Numbers(u), 0) == Weight(Numbers(v), 0)
  {
    hide Ids, Weight;
    if |u| <= |v| {
      SameButZeros(u, v);
      WeightAppend(Numbers(u), Repeat(0, |v| - |u|), 0);
      WeightZeros(|v| - |u|, |u|);
    } else {
      SameButZeros(v, u);
      WeightAppend(Numbers(v), Repeat(0, |u| - |v|), 0);
      WeightZeros(|u| - |v|, |v|);
    }
  }

  /** The ids of a vector are kept exactly if nothing in it is spoilt. */
  lemma IdsKept(f: Coder, v: Vector)
    ensures Ids(AsOctets(Kept(f, Numbers(v), 0))) == Ids(v) <==> !Spoilt(f, Numbers(v), 0)
  {
    hide Ids, Kept, LostAt;
    var s := Numbers(v);
    var k := Kept(f, s, 0);
    assert s[0..] == s;
    if Spoilt(f, s, 0) {
      KeptWeighs(f, s, 0, 0);
      KeptIsThere(f, s, 0);
      NumbersOfOctets(k, v);
      if Ids(AsOctets(k)) == Ids(v) {
        SameWeight(AsOctets(k), v);
      }
    } else {
      KeptButZeros(f, s, 0);
      OctetsOfNumbers(v);
      TrimmedIds(v, |k|);
      assert AsOctets(k) == v[..|k|];
    }
  }

  /** Nothing but bytes of the data is kept. */
  lemma {:induction false} KeptIsThere(f: Coder, s: Bytes, i: nat)
    requires i <= |s|
    ensures forall k :: 0 <= k < |Kept(f, s, i)| ==> Kept(f, s, i)[k] in s
    decreases |s| - i
  {
    hide Kept, LostAt;
    KeptEnd(f, s);
    if i < |s| {
      var m, n := TokenKeeps(f, s, i);
      KeptIsThere(f, s, i + n);
      assert s[i] in s;
    }
  }

  lemma NumbersOfOctets(b: Bytes, v: Vector)
    requires forall k :: 0 <= k < |b| ==> b[k] in Numbers(v)
    ensures Numbers(AsOctets(b)) == b
  {
    forall i | 0 <= i < |b|
      ensures Numbers(AsOctets(b))[i] == b[i]
    {
      var s := Numbers(v);
      assert b[i] in s;
      var j :| 0 <= j < |s| && s[j] == b[i];
      OctetOfNumber(v[j]);
    }
  }

  /** Zeros at the end make no difference. */
  lemma RunBeforeZeros(s: Bytes, z: nat, k: nat)
    requires k < |s| && SomethingFrom(s, k)
    ensures RunLen(s + Repeat(0, z), k) == RunLen(s, k)
  {
    RunIsMaximal(s, k);
    var n := RunLen(s, k);
    hide RunLen;
    RunLenIs(s + Repeat(0, z), k, n);
  }

  lemma SpoiltBeforeZeros(f: Coder, s: Bytes, z: nat)
    ensures Spoilt(f, s + Repeat(0, z), 0) <==> Spoilt(f, s, 0)
  {
    hide RunLen;
    var t := s + Repeat(0, z);
    forall k | 0 <= k < |t|
      ensures SomethingFrom(t, k) <==> k < |s| && SomethingFrom(s, k)
    {
      if k < |s| && SomethingFrom(s, k) {
        var j :| k <= j < |s| && s[j] != 0;
        assert t[j] == s[j];
      }
    }
    forall k | 0 <= k < |s| && SomethingFrom(s, k)
      ensures LostAt(f, t, k) <==> LostAt(f, s, k)
    {
      RunBeforeZeros(s, z, k);
    }
  }

  /** Whether a vector is spoilt depends on its ids only. */
  lemma SpoiltByIds(f: Coder, u: Vector, v: Vector)
    requires Ids(u) == Ids(v)
    ensures Spoilt(f, Numbers(u), 0) <==> Spoilt(f, Numbers(v), 0)
  {
    hide Ids, Spoilt;
    if |u| <= |v| {
      SameButZeros(u, v);
      SpoiltBeforeZeros(f, Numbers(u), |v| - |u|);
    } else {
      SameButZeros(v, u);
      SpoiltBeforeZeros(f, Numbers(v), |u| - |v|);
    }
  }
}
