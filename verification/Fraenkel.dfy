/** The hierarchical bitmap coder: the non-zero bytes of the data, then those of a mask that
    says where they were, then those of the mask of that mask, up to a single root byte.
    The expander reads the stream backwards, from the root down. */
module Fraenkel {
  import opened ByteBits

  function NonZero(s: Octets): (r: Octets)
    ensures |r| <= |s|
  {
    if s == [] then []
    else
      var last := s[|s| - 1];
      NonZero(s[..|s| - 1]) + if last != 0 then [last] else []
  }

  lemma NonZeroPrefix(s: Octets, i: nat)
    requires i < |s|
    ensures NonZero(s[..i + 1]) == if s[i] != 0 then NonZero(s[..i]) + [s[i]] else NonZero(s[..i])
  {
    assert s[..i + 1][..i] == s[..i];
  }

  lemma {:induction false} NothingNonZero(s: Octets)
    ensures NonZero(s) == [] <==> forall i :: 0 <= i < |s| ==> s[i] == 0
  {
    if s != [] {
      var r := s[..|s| - 1];
      NothingNonZero(r);
      assert forall i :: 0 <= i < |r| ==> r[i] == s[i];
    }
  }

  // --- the levels ---

  /** One bit for each of up to eight bytes: is it non-zero? */
  function Mask(s: Octets, lo: nat, hi: nat): bv8
    requires lo <= hi <= |s| && hi <= lo + 8
    decreases hi
  {
    if lo == hi then 0
    else
      var m := Mask(s, lo, hi - 1);
      if s[hi - 1] != 0 then m | OneBit(hi - 1 - lo) else m
  }

  lemma {:induction false} MaskBit(s: Octets, lo: nat, hi: nat, k: nat)
    requires lo <= hi <= |s| && hi <= lo + 8 && k < 8
    ensures HasBit(Mask(s, lo, hi), k) <==> lo + k < hi && s[lo + k] != 0
    decreases hi
  {
    hide HasBit, OneBit, IsOneBit;
    if lo == hi {
      NoBits(0);
    } else {
      MaskBit(s, lo, hi - 1, k);
      BitOf(Mask(s, lo, hi - 1), OneBit(hi - 1 - lo), k);
      OneBitBit(hi - 1 - lo, k);
    }
  }

  function Groups(n: nat): nat {
    (n + 7) / 8
  }

  function GroupEnd(n: nat, g: nat): nat {
    if 8 * g + 8 <= n then 8 * g + 8 else n
  }

  function Up(s: Octets): (r: Octets)
    ensures |r| == Groups(|s|)
  {
    seq(Groups(|s|), g requires 0 <= g < Groups(|s|) => Mask(s, 8 * g, GroupEnd(|s|, g)))
  }

  function Level(s: Octets, t: nat): Octets {
    if t == 0 then s else Up(Level(s, t - 1))
  }

  /** How many masks are stacked above n bytes of data. */
  function Depth(n: nat): (k: nat)
    requires n > 0
    ensures k > 0
  {
    if n <= 8 then 1 else 1 + Depth(Groups(n))
  }

  /** The stream of everything below level t. */
  function Below(s: Octets, t: nat): Octets {
    if t == 0 then [] else Below(s, t - 1) + NonZero(Level(s, t - 1))
  }

  function Stream(s: Octets): Octets
    requires s != []
  {
    Below(s, Depth(|s|)) + Level(s, Depth(|s|))
  }

  function Pow8(k: nat): (p: nat)
    ensures p > 0
  {
    if k == 0 then 1 else 8 * Pow8(k - 1)
  }

  /** The levels end with the root, a single byte. */
  lemma {:induction false} RootIsOne(s: Octets, t: nat)
    requires s != [] && t <= Depth(|s|)
    ensures Level(s, t) != []
    ensures t < Depth(|s|) ==> Depth(|s|) == t + Depth(|Level(s, t)|)
    ensures t == Depth(|s|) ==> |Level(s, t)| == 1
  {
    if t > 0 {
      RootIsOne(s, t - 1);
    }
  }

  /** The depth is the least positive k with n <= 8^k. */
  lemma {:induction false} DepthIsLeast(n: nat)
    requires n > 0
    ensures n <= Pow8(Depth(n))
    ensures Depth(n) > 1 ==> Pow8(Depth(n) - 1) < n
  {
    if n <= 8 {
      assert Pow8(1) == 8 * Pow8(0);
    } else {
      DepthIsLeast(Groups(n));
      assert Pow8(Depth(n)) == 8 * Pow8(Depth(n) - 1);
      if Depth(n) > 2 {
        assert Pow8(Depth(n) - 1) == 8 * Pow8(Depth(n) - 2);
      }
    }
  }

  lemma {:induction false} LevelFits(s: Octets, t: nat)
    requires s != [] && t <= Depth(|s|)
    ensures |Level(s, t)| <= Pow8(Depth(|s|) - t)
    decreases Depth(|s|) - t
  {
    hide Up;
    RootIsOne(s, t);
    if t < Depth(|s|) {
      LevelFits(s, t + 1);
      assert Pow8(Depth(|s|) - t) == 8 * Pow8(Depth(|s|) - (t + 1));
    }
  }

  lemma GroupsOf(n: nat)
    ensures n > 8 ==> Groups(n) + Groups(n) / 4 <= n / 4
    ensures n > 0 ==> Groups(n) > 0
    ensures 0 < n <= 8 ==> Groups(n) == 1
  {
  }

  lemma {:induction false} BelowSize(s: Octets, t: nat)
    requires s != [] && t <= Depth(|s|)
    ensures var w := |Level(s, t)|;
      |Below(s, t)| + w + w / 4 <= |s| + |s| / 4 + if t == Depth(|s|) then 1 else 0
  {
    hide NonZero, Up, Groups;
    if t > 0 {
      BelowSize(s, t - 1);
      RootIsOne(s, t - 1);
      GroupsOf(|Level(s, t - 1)|);
    }
  }

  /** The stream is at most a quarter and one byte longer than the data. */
  lemma StreamSize(s: Octets)
    requires s != []
    ensures |Stream(s)| <= |s| + |s| / 4 + 1
  {
    BelowSize(s, Depth(|s|));
  }

  // --- compression ---

  lemma UpAt(s: Octets, g: nat)
    requires g < Groups(|s|)
    ensures 8 * g < GroupEnd(|s|, g) <= |s| && Up(s)[g] == Mask(s, 8 * g, GroupEnd(|s|, g))
  {
  }

  /** What dst holds when the first i bytes of a level have been looked at. */
  predicate Copied(out: Octets, before: Octets, l: Octets, i: nat) {
    i <= |l| && out == before + NonZero(l[..i])
  }

  lemma CopiedEnds(out: Octets, before: Octets, l: Octets)
    ensures Copied(before, before, l, 0)
    ensures Copied(out, before, l, |l|) ==> out == before + NonZero(l)
  {
    assert l[..|l|] == l;
  }

  method TakeByte(dst: array<bv8>, q: nat, c: bv8, r: bv8, i: nat, ghost before: Octets, ghost l: Octets, ghost lo: nat)
    returns (q': nat, r': bv8)
    requires lo <= i < |l| && i < lo + 8 && lo % 8 == 0
    requires |before| + |NonZero(l)| <= dst.Length
    requires q <= dst.Length && Copied(dst[..q], before, l, i) && r == Mask(l, lo, i) && c == l[i]
    modifies dst
    ensures q' <= dst.Length && Copied(dst[..q'], before, l, i + 1) && r' == Mask(l, lo, i + 1)
  {
    hide NonZero, Mask, OneBit;
    NonZeroPrefix(l, i);
    NonZeroPart(l, i + 1);
    MaskStep(l, lo, i);
    q', r' := q, r;
    if c != 0 {
      dst[q] := c;
      q' := q + 1;
      r' := r | OneBit(i % 8);
    }
  }

  /** One level: copy its non-zero bytes to dst and leave its masks in tmp, which may be the
      very array the level is read from. */
  method CompressLevel(from: array<bv8>, tmp: array<bv8>, dst: array<bv8>, len: nat, q: nat, ghost l: Octets)
    returns (s: nat, q': nat)
    requires dst != from && dst != tmp && len <= from.Length && len <= tmp.Length
    requires from[..len] == l && q + |NonZero(l)| <= dst.Length
    modifies tmp, dst
    ensures s == Groups(len) && tmp[..s] == Up(l)
    ensures q' <= dst.Length && dst[..q'] == old(dst[..q]) + NonZero(l)
  {
    hide NonZero, Mask, OneBit, Up, Copied;
    ghost var before := dst[..q];
    var r: bv8 := 0;
    var i := 0;
    s, q' := 0, q;
    MaskStart(l, 0);
    CopiedEnds([], before, l);
    while i < len
      invariant i <= len && s == i / 8
      invariant forall x :: i <= x < len ==> from[x] == l[x]
      invariant r == Mask(l, 8 * s, i)
      invariant forall g :: 0 <= g < s ==> tmp[g] == Up(l)[g]
      invariant q' <= dst.Length && Copied(dst[..q'], before, l, i)
    {
      q', r := TakeByte(dst, q', from[i], r, i, before, l, 8 * s);
      if i % 8 == 7 {
        UpAt(l, s);
        tmp[s] := r;
        s := s + 1;
        r := 0;
        MaskStart(l, 8 * s);
      }
      i := i + 1;
    }
    CopiedEnds(dst[..q'], before, l);
    if len % 8 != 0 {
      UpAt(l, s);
      tmp[s] := r;
      s := s + 1;
    }
  }

  lemma MaskStart(l: Octets, lo: nat)
    requires lo <= |l|
    ensures Mask(l, lo, lo) == 0
  {
  }

  lemma MaskStep(l: Octets, lo: nat, i: nat)
    requires lo <= i < |l| && i < lo + 8
    ensures Mask(l, lo, i + 1) == if l[i] != 0 then Mask(l, lo, i) | OneBit(i - lo) else Mask(l, lo, i)
  {
  }

  lemma {:induction false} NonZeroPart(l: Octets, i: nat)
    requires i <= |l|
    ensures |NonZero(l[..i])| <= |NonZero(l)|
    decreases |l| - i
  {
    if i < |l| {
      NonZeroPart(l, i + 1);
      NonZeroPrefix(l, i);
    } else {
      assert l[..i] == l;
    }
  }

  lemma {:induction false} BelowPart(s: Octets, t: nat)
    requires s != [] && t <= Depth(|s|)
    ensures |Below(s, t)| <= |Below(s, Depth(|s|))|
    decreases Depth(|s|) - t
  {
    if t < Depth(|s|) {
      BelowPart(s, t + 1);
    }
  }

  /** compress_fraenkel. On no data at all it would never stop. */
  method CompressFraenkel(src: array<bv8>, dst: array<bv8>, n: nat) returns (q: nat)
    requires src != dst && 0 < n <= src.Length && n < BUFFER
    requires n + n / 4 + 1 <= dst.Length
    modifies dst
    ensures q <= dst.Length && dst[..q] == Stream(src[..n])
  {
    hide NonZero, Up, Groups, Level, Below, Depth;
    ghost var data := src[..n];
    StreamSize(data);
    var tmp := new bv8[n];
    var from, len := src, n;
    ghost var t := 0;
    q := 0;
    ghost var k := Depth(n);
    LevelZero(data);
    assert dst[..0] == [];
    while true
      invariant t < k && src[..n] == data && 0 < len <= n && dst != from && len <= from.Length
      invariant from == src || from == tmp
      invariant from[..len] == Level(data, t)
      invariant q <= dst.Length && dst[..q] == Below(data, t)
      decreases k - t
    {
      RootIsOne(data, t);
      BelowPart(data, t + 1);
      NextLevel(data, t);
      LevelDepth(len);
      len, q := CompressLevel(from, tmp, dst, len, q, Level(data, t));
      t := t + 1;
      from := tmp;
      RootIsOne(data, t);
      if len == 1 {
        break;
      }
    }
    dst[q] := tmp[0];
    q := q + 1;
    assert dst[..q] == Below(data, k) + Level(data, k);
  }

  lemma LevelZero(s: Octets)
    ensures Level(s, 0) == s && Below(s, 0) == []
  {
  }

  lemma NextLevel(s: Octets, t: nat)
    ensures Level(s, t + 1) == Up(Level(s, t))
    ensures Below(s, t + 1) == Below(s, t) + NonZero(Level(s, t))
  {
  }

  lemma LevelDepth(n: nat)
    requires n > 0
    ensures 0 < Groups(n) <= n
    ensures Groups(n) == 1 <==> Depth(n) == 1
  {
  }

  // --- expansion ---

  /** The size of the local buffer the expander unfolds all levels in. */
  const BUFFER := 0x4_0000

  function Pad(s: Octets, n: nat): (r: Octets)
    requires |s| <= n
    ensures |r| == n
  {
    s + Zeros(n - |s|)
  }

  /** out is the end of p, read backwards. */
  predicate Backwards(out: Octets, p: Octets) {
    |out| <= |p| && forall x :: 0 <= x < |out| ==> out[x] == p[|p| - 1 - x]
  }

  lemma BackwardsNext(out: Octets, p: Octets)
    requires Backwards(out, p) && |out| < |p|
    ensures Backwards(out + [p[|p| - 1 - |out|]], p)
  {
  }

  predicate Reversed(a: Octets, b: Octets) {
    |a| == |b| && Backwards(a, b)
  }

  lemma ReversedSize(a: Octets, b: Octets)
    requires Reversed(a, b)
    ensures |a| == |b|
  {
  }

  lemma ReversedAt(a: Octets, b: Octets, x: nat)
    requires Reversed(a, b) && x < |a|
    ensures |a| == |b| && a[x] == b[|b| - 1 - x]
  {
  }

  /** The bits of q say which bytes of p are non-zero. */
  predicate Parent(q: Octets, p: Octets) {
    && |p| == 8 * |q|
    && forall g, e | 0 <= g < |q| && 0 <= e < 8 :: HasBit(q[g], e) <==> p[8 * g + e] != 0
  }

  lemma ParentAt(q: Octets, p: Octets, g: nat, e: nat)
    requires Parent(q, p) && g < |q| && e < 8
    ensures 8 * g + e < |p| && (HasBit(q[g], e) <==> p[8 * g + e] != 0)
  {
  }

  /** Padding a level and its masks keeps the one the parent of the other. */
  lemma PaddedParent(s: Octets, w: nat)
    requires |Up(s)| <= w
    ensures Parent(Pad(Up(s), w), Pad(s, 8 * w))
  {
    hide HasBit;
    var q, p := Pad(Up(s), w), Pad(s, 8 * w);
    forall g, e | 0 <= g < w && 0 <= e < 8
      ensures HasBit(q[g], e) <==> p[8 * g + e] != 0
    {
      if g < |Up(s)| {
        MaskBit(s, 8 * g, GroupEnd(|s|, g), e);
      } else {
        NoBits(0);
      }
    }
  }

  lemma {:induction false} NonZeroPadded(s: Octets, n: nat)
    requires |s| <= n
    ensures NonZero(Pad(s, n)) == NonZero(s)
    decreases n
  {
    if |s| < n {
      NonZeroPadded(s, n - 1);
      assert Pad(s, n)[..n - 1] == Pad(s, n - 1);
    } else {
      assert Pad(s, n) == s;
    }
  }

  /** Where the expander stands when the last `done` bytes of p are unfolded. */
  predicate Unfolded(out: Octets, rest: Octets, p: Octets, below: Octets, done: nat) {
    done <= |p| && |out| == done && Backwards(out, p) && rest == below + NonZero(p[..|p| - done])
  }

  lemma UnfoldedStart(rest: Octets, p: Octets, below: Octets)
    requires rest == below + NonZero(p)
    ensures Unfolded([], rest, p, below, 0)
  {
    assert p[..|p|] == p;
  }

  lemma UnfoldedEnd(out: Octets, rest: Octets, p: Octets, below: Octets)
    requires Unfolded(out, rest, p, below, |p|)
    ensures Reversed(out, p) && rest == below
  {
    assert p[..0] == [];
  }

  /** The next byte backwards is the next one of the stream, or a zero. */
  lemma UnfoldedNext(out: Octets, rest: Octets, p: Octets, below: Octets, done: nat)
    requires Unfolded(out, rest, p, below, done) && done < |p|
    ensures var c := p[|p| - 1 - done];
      if c != 0 then rest != [] && rest[|rest| - 1] == c
        && Unfolded(out + [c], rest[..|rest| - 1], p, below, done + 1)
      else Unfolded(out + [c], rest, p, below, done + 1)
  {
    hide NonZero, Backwards;
    var at := |p| - 1 - done;
    var few := NonZero(p[..at]);
    NonZeroPrefix(p, at);
    BackwardsNext(out, p);
    if p[at] != 0 {
      assert rest == below + few + [p[at]];
      assert rest[..|rest| - 1] == below + few;
    }
  }

  /** Unfold one mask into eight bytes, the highest bit first. */
  method ExpandMask(src: array<bv8>, buf: array<bv8>, f: nat, i: nat, s: nat, m: bv8,
                    ghost p: Octets, ghost below: Octets, ghost g: nat)
    returns (i': nat, s': nat)
    requires src != buf && f <= i && i + 8 <= buf.Length && s <= src.Length
    requires 8 * g + 8 <= |p| && i - f == |p| - 8 * g - 8
    requires forall e :: 0 <= e < 8 ==> (HasBit(m, e) <==> p[8 * g + e] != 0)
    requires Unfolded(buf[f..i], src[..s], p, below, i - f)
    modifies buf
    ensures buf[..f] == old(buf[..f])
    ensures i' == i + 8 && s' <= src.Length && Unfolded(buf[f..i'], src[..s'], p, below, i' - f)
  {
    hide Unfolded, HasBit;
    i', s' := i, s;
    for k := 0 to 8
      invariant i' == i + k && s' <= src.Length
      invariant buf[..f] == old(buf[..f])
      invariant Unfolded(buf[f..i'], src[..s'], p, below, i' - f)
    {
      var bit := 7 - k;
      ghost var out, rest := buf[f..i'], src[..s'];
      UnfoldedNext(out, rest, p, below, i' - f);
      assert |p| - 1 - (i' - f) == 8 * g + bit;
      if HasBit(m, bit) {
        s' := s' - 1;
        buf[i'] := src[s'];
        assert src[..s'] == rest[..|rest| - 1];
      } else {
        buf[i'] := 0;
      }
      i' := i' + 1;
      assert buf[f..i'] == out + [p[8 * g + bit]];
    }
  }

  /** Unfold the run at F, of pass bytes, into the run at f, of eight times as many. The run
      is the reverse of q; its children, read from the end of src, make the reverse of p. */
  method ExpandRun(src: array<bv8>, buf: array<bv8>, F: nat, f: nat, pass: nat, s: nat,
                   ghost q: Octets, ghost p: Octets, ghost below: Octets)
    returns (i: nat, s': nat)
    requires src != buf && F + pass <= f && f + 8 * pass <= buf.Length && |q| == pass
    requires Parent(q, p) && Reversed(buf[F..F + pass], q)
    requires s <= src.Length && src[..s] == below + NonZero(p)
    modifies buf
    ensures i == f + 8 * pass && Reversed(buf[f..i], p)
    ensures s' <= src.Length && src[..s'] == below
  {
    hide NonZero, HasBit, Parent, Unfolded, Reversed;
    ghost var run, front := buf[F..F + pass], buf[..f];
    assert run == front[F..F + pass];
    ParentSize(q, p);
    UnfoldedStart(src[..s], p, below);
    assert buf[f..f] == [];
    i, s' := f, s;
    for j := 0 to pass
      invariant i == f + 8 * j && s' <= src.Length && buf[..f] == front
      invariant Unfolded(buf[f..i], src[..s'], p, below, 8 * j)
    {
      ghost var g := pass - 1 - j;
      var m := buf[F + j];
      assert m == front[F + j] == run[j];
      ReversedAt(run, q, j);
      forall e | 0 <= e < 8
        ensures HasBit(m, e) <==> p[8 * g + e] != 0
      {
        ParentAt(q, p, g, e);
      }
      i, s' := ExpandMask(src, buf, f, i, s', m, p, below, g);
    }
    UnfoldedEnd(buf[f..i], src[..s'], p, below);
  }

  lemma ParentSize(q: Octets, p: Octets)
    requires Parent(q, p)
    ensures |p| == 8 * |q|
  {
  }

  /** How much of the buffer the root and m more runs take. */
  function Filled(m: nat): nat {
    if m == 0 then 1 else Filled(m - 1) + Pow8(m)
  }

  lemma {:induction false} PowersGrow(k: nat, m: nat)
    requires k <= m
    ensures Pow8(k) <= Pow8(m) && Filled(k) <= Filled(m)
    decreases m - k
  {
    if k < m {
      PowersGrow(k + 1, m);
    }
  }

  lemma FiveLevels()
    ensures Pow8(5) == 32768 && Pow8(6) == BUFFER
    ensures Filled(5) <= BUFFER < Filled(6)
  {
    assert Pow8(1) == 8 && Pow8(2) == 64 && Pow8(3) == 512;
    assert Pow8(4) == 4096 && Pow8(5) == 32768 && Pow8(6) == 262144;
    assert Filled(1) == 9 && Filled(2) == 73 && Filled(3) == 585;
    assert Filled(4) == 4681 && Filled(5) == 37449;
  }

  predicate AllZero(s: Octets) {
    forall i :: 0 <= i < |s| ==> s[i] == 0
  }

  /** What comes back: the data padded to a power of eight, or eight zeros for no bit at all. */
  function Restored(s: Octets): Octets
    requires s != []
  {
    DepthIsLeast(|s|);
    if AllZero(s) then Zeros(8) else Pad(s, Pow8(Depth(|s|)))
  }

  lemma {:induction false} ZeroMask(s: Octets, lo: nat, hi: nat)
    requires lo <= hi <= |s| && hi <= lo + 8 && AllZero(s)
    ensures Mask(s, lo, hi) == 0
    decreases hi
  {
    if lo < hi {
      ZeroMask(s, lo, hi - 1);
    }
  }

  lemma ZeroUp(s: Octets)
    requires AllZero(s)
    ensures AllZero(Up(s))
  {
    forall g | 0 <= g < |Up(s)|
      ensures Up(s)[g] == 0
    {
      ZeroMask(s, 8 * g, GroupEnd(|s|, g));
    }
  }

  /** Without a bit set there is nothing below the root. */
  lemma {:induction false} ZeroLevels(s: Octets, t: nat)
    requires AllZero(s)
    ensures AllZero(Level(s, t)) && Below(s, t) == []
  {
    hide NonZero, Up;
    if t == 0 {
      LevelZero(s);
    } else {
      ZeroLevels(s, t - 1);
      NothingNonZero(Level(s, t - 1));
      ZeroUp(Level(s, t - 1));
      NextLevel(s, t - 1);
    }
  }

  lemma {:induction false} SomethingBelow(s: Octets, t: nat)
    requires !AllZero(s) && t > 0
    ensures Below(s, t) != []
  {
    if t == 1 {
      NothingNonZero(s);
      LevelZero(s);
      NextLevel(s, 0);
    } else {
      SomethingBelow(s, t - 1);
    }
  }

  /** The run after which the expander stops: the first one that leaves nothing of the stream. */
  predicate LastUnfolded(s: Octets, t: nat)
    requires s != []
  {
    t < Depth(|s|) && Below(s, t) == [] && forall u :: t < u < Depth(|s|) ==> Below(s, u) != []
  }

  /** Only data of zeros is given up above its lowest level. */
  lemma UnfoldsTo(s: Octets, t: nat)
    requires s != []
    ensures LastUnfolded(s, t) <==> t == if AllZero(s) then Depth(|s|) - 1 else 0
  {
    hide Level, Depth;
    forall u: nat
      ensures Below(s, u) == [] <==> AllZero(s) || u == 0
    {
      if AllZero(s) {
        ZeroLevels(s, u);
      } else if u > 0 {
        SomethingBelow(s, u);
      }
      LevelZero(s);
    }
    assert t < Depth(|s|) - 1 && Below(s, t) == [] && AllZero(s) ==> Below(s, Depth(|s|) - 1) == [];
  }

  lemma DepthFits(n: nat)
    requires n > 0
    ensures Filled(Depth(n)) <= BUFFER <==> n <= 32768
  {
    hide Pow8, Filled, Depth;
    DepthIsLeast(n);
    FiveLevels();
    if n <= 32768 {
      if Depth(n) > 5 {
        PowersGrow(5, Depth(n) - 1);
      }
      PowersGrow(Depth(n), 5);
    } else {
      if Depth(n) <= 5 {
        PowersGrow(Depth(n), 5);
      }
      PowersGrow(6, Depth(n));
    }
  }

  /** The runs the expander unfolds fit its buffer exactly for data of up to 32768 bytes and for
      data of zeros, although the compressor accepts eight times as much. */
  lemma BufferSuffices(s: Octets, t: nat)
    requires s != [] && LastUnfolded(s, t)
    ensures Filled(Depth(|s|) - t) <= BUFFER <==> |s| <= 32768 || AllZero(s)
  {
    UnfoldsTo(s, t);
    DepthFits(|s|);
    SmallPowers();
  }

  /** On no data at all the compressor never gets to a single byte, and so never stops. */
  lemma {:induction false} NothingNeverEnds(t: nat)
    ensures Level([], t) == []
  {
    if t > 0 {
      NothingNeverEnds(t - 1);
    }
  }

  /** Where the expander stands after unfolding level t into the last run of the buffer. */
  ghost predicate AtLevel(data: Octets, run: Octets, rest: Octets, t: nat) {
    && data != [] && t <= Depth(|data|)
    && |Level(data, t)| <= Pow8(Depth(|data|) - t)
    && Reversed(run, Pad(Level(data, t), Pow8(Depth(|data|) - t)))
    && rest == Below(data, t)
  }

  lemma AtRoot(data: Octets, stream: Octets)
    requires data != [] && stream == Stream(data)
    ensures stream != []
    ensures AtLevel(data, [stream[|stream| - 1]], stream[..|stream| - 1], Depth(|data|))
  {
    hide Level, Below;
    RootIsOne(data, Depth(|data|));
    assert stream[..|stream| - 1] == Below(data, Depth(|data|));
    assert Pow8(0) == 1;
  }

  /** What unfolding one more level takes. */
  lemma NextRun(data: Octets, t: nat)
    requires data != [] && t < Depth(|data|)
    ensures var w := Pow8(Depth(|data|) - t - 1);
      && Pow8(Depth(|data|) - t) == 8 * w
      && |Level(data, t)| <= 8 * w && |Level(data, t + 1)| <= w
      && Parent(Pad(Level(data, t + 1), w), Pad(Level(data, t), 8 * w))
      && Below(data, t + 1) == Below(data, t) + NonZero(Pad(Level(data, t), 8 * w))
  {
    hide Up, NonZero, Parent, Pad;
    LevelFits(data, t);
    LevelFits(data, t + 1);
    NextLevel(data, t);
    hide Level, Below;
    PaddedParent(Level(data, t), Pow8(Depth(|data|) - t - 1));
    NonZeroPadded(Level(data, t), Pow8(Depth(|data|) - t));
  }

  lemma PaddedZeros(s: Octets, n: nat)
    requires AllZero(s) && |s| <= n
    ensures Pad(s, n) == Zeros(n)
  {
  }

  lemma RestoredIs(s: Octets)
    requires s != []
    ensures |s| <= Pow8(Depth(|s|))
    ensures Restored(s) == if AllZero(s) then Zeros(8) else Pad(s, Pow8(Depth(|s|)))
  {
    DepthIsLeast(|s|);
  }

  /** The run of level t is the padded level. */
  lemma RunIs(data: Octets, run: Octets, rest: Octets, t: nat)
    requires AtLevel(data, run, rest, t)
    ensures t <= Depth(|data|) && |Level(data, t)| <= Pow8(Depth(|data|) - t) && rest == Below(data, t)
    ensures Reversed(run, Pad(Level(data, t), Pow8(Depth(|data|) - t)))
  {
  }

  /** The stream is used up only with the last level, or at once if no bit is set. */
  lemma LastRun(data: Octets, run: Octets, t: nat)
    requires AtLevel(data, run, [], t) && data != [] && t < Depth(|data|)
    requires AllZero(data) ==> t == Depth(|data|) - 1
    ensures Reversed(run, Restored(data))
  {
    hide Level, Below, Depth, Pad, Reversed, AllZero, Pow8, AtLevel, Restored, Zeros;
    RestoredIs(data);
    RunIs(data, run, [], t);
    if AllZero(data) {
      ZeroLevels(data, t);
      SmallPowers();
      assert Depth(|data|) - t == 1;
      PaddedZeros(Level(data, t), 8);
    } else {
      if t > 0 {
        SomethingBelow(data, t);
      }
      LevelZero(data);
      assert Depth(|data|) - t == Depth(|data|);
    }
  }

  /** expand_fraenkel, on any stream the compressor writes for data the buffer is enough for. */
  method ExpandFraenkel(src: array<bv8>, odst: array<bv8>, len: nat, ghost data: Octets) returns (j: nat)
    requires src != odst && len <= src.Length
    requires data != [] && (|data| <= 32768 || AllZero(data)) && src[..len] == Stream(data)
    requires |Restored(data)| <= odst.Length
    modifies odst
    ensures j <= odst.Length && odst[..j] == Restored(data)
  {
    hide Level, Below, Depth, Pad, NonZero, Parent, Reversed, Pow8, Filled, Restored, AllZero, LastUnfolded;
    ghost var k := Depth(|data|);
    ghost var t := k;
    ghost var last := if AllZero(data) then k - 1 else 0;
    UnfoldsTo(data, last);
    BufferSuffices(data, last);
    var dst := new bv8[BUFFER];
    var s: nat := len;
    var pass: nat, i: nat, f: nat := 1, 0, 0;
    AtRoot(data, src[..len]);
    SmallPowers();
    PowersGrow(0, k - last);
    s := s - 1;
    dst[i] := src[s];
    i := i + 1;
    assert src[..s] == src[..len][..len - 1];
    assert dst[0..1] == [src[..len][len - 1]];
    while true
      invariant 0 < t <= k && pass == Pow8(k - t) && s <= len
      invariant i == f + pass && i == Filled(k - t) && i <= dst.Length
      invariant AtLevel(data, dst[f..i], src[..s], t)
      invariant AllZero(data) ==> t == k
      decreases t
    {
      var F := f;
      f := i;
      NextRun(data, t - 1);
      FilledNext(k - t);
      PowersGrow(k - t + 1, k - last);
      ghost var p := Pad(Level(data, t - 1), 8 * pass);
      assert dst[F..F + pass] == dst[F..i];
      i, s := ExpandRun(src, dst, F, f, pass, s, Pad(Level(data, t), pass), p, Below(data, t - 1));
      pass := pass * 8;
      t := t - 1;
      if s == 0 {
        break;
      }
      if AllZero(data) {
        ZeroLevels(data, t);
      }
      if t == 0 {
        LevelZero(data);
      }
    }
    assert src[..0] == [];
    LastRun(data, dst[f..i], t);
    ReversedSize(dst[f..i], Restored(data));
    j := ReadBackwards(dst, odst, f, i, Restored(data));
  }

  /** The last run, from f until i, swapped. */
  method ReadBackwards(dst: array<bv8>, odst: array<bv8>, f: nat, i: nat, ghost r: Octets) returns (j: nat)
    requires dst != odst && f <= i <= dst.Length && Reversed(dst[f..i], r) && i - f <= odst.Length
    modifies odst
    ensures j == |r| && odst[..j] == r
  {
    ghost var run := dst[f..i];
    j := 0;
    var at := i;
    while at > f
      invariant f <= at <= i && j == i - at && dst[f..i] == run
      invariant odst[..j] == r[..j]
    {
      at := at - 1;
      ReversedAt(run, r, at - f);
      assert dst[at] == run[at - f];
      odst[j] := dst[at];
      j := j + 1;
      assert odst[..j] == odst[..j - 1] + [r[j - 1]];
    }
  }

  lemma SmallPowers()
    ensures Pow8(0) == 1 && Filled(0) == 1 && Pow8(1) == 8
  {
  }

  lemma FilledNext(m: nat)
    ensures Filled(m + 1) == Filled(m) + Pow8(m + 1) && Pow8(m + 1) == 8 * Pow8(m)
  {
  }

  /** Compressing and expanding pads the data with zeros, no more than it has to. */
  method FraenkelThereAndBack(src: array<bv8>, n: nat) returns (out: array<bv8>, size: nat)
    requires 0 < n <= src.Length && (n <= 32768 || (n < BUFFER && AllZero(src[..n])))
    ensures fresh(out) && size <= out.Length && out[..size] == Restored(src[..n])
  {
    hide Stream, Depth, Pow8;
    var data := src[..n];
    var mid := new bv8[n + n / 4 + 1];
    var m := CompressFraenkel(src, mid, n);
    out := new bv8[|Restored(data)|];
    size := ExpandFraenkel(mid, out, m, data);
  }

  /** The length that comes back, and the data in front of the padding. */
  lemma RestoredIsPadded(s: Octets)
    requires s != []
    ensures var r := Restored(s);
      if AllZero(s) then r == Zeros(8)
      else (|s| <= |r| && r[..|s|] == s && r[|s|..] == Zeros(|r| - |s|)
        && exists k: nat :: k > 0 && |r| == Pow8(k) && (k > 1 ==> Pow8(k - 1) < |s|))
  {
    DepthIsLeast(|s|);
    hide Depth;
    assert |s| <= Pow8(Depth(|s|));
  }
}
