/** Vectors of bytes as sets of statement ids: bit k of byte j stands for the id 8 * j + k,
    and everything past the end is zero. */
module BitVectors {
  import opened ByteBits

  type Vector = seq<bv8>

  predicate Has(v: Vector, i: nat) {
    i / 8 < |v| && HasBit(v[i / 8], i % 8)
  }

  /** The ids in a vector. */
  ghost function Ids(v: Vector): set<nat> {
    set i: nat | 0 <= i < 8 * |v| && Has(v, i)
  }

  lemma IdsHas(v: Vector)
    ensures forall i: nat :: i in Ids(v) <==> Has(v, i)
  {
  }

  /** No zero byte at the end. */
  predicate Short(v: Vector) {
    v != [] ==> v[|v| - 1] != 0
  }

  lemma TrimmedIds(v: Vector, len: nat)
    requires len <= |v| && forall j :: len <= j < |v| ==> v[j] == 0
    ensures Ids(v[..len]) == Ids(v)
  {
    hide HasBit;
    IdsHas(v);
    IdsHas(v[..len]);
    forall i: nat
      ensures Has(v, i) <==> Has(v[..len], i)
    {
      NoBits(0);
    }
  }

  lemma SomeBit(c: bv8) returns (k: nat)
    requires c != 0
    ensures k < 8 && HasBit(c, k)
  {
    NoBits(c);
    k :| 0 <= k < 8 && HasBit(c, k);
  }

  lemma ShortFits(u: Vector, v: Vector)
    requires Short(u) && Ids(u) <= Ids(v)
    ensures |u| <= |v|
  {
    hide HasBit;
    if u != [] {
      var k := SomeBit(u[|u| - 1]);
      var i := 8 * (|u| - 1) + k;
      assert Has(u, i);
      IdsHas(u);
      IdsHas(v);
      assert i in Ids(v);
    }
  }

  /** Vectors of one length are the same if they hold the same ids. */
  lemma SameVector(u: Vector, v: Vector)
    requires |u| == |v| && Ids(u) == Ids(v)
    ensures u == v
  {
    hide HasBit;
    IdsHas(u);
    IdsHas(v);
    forall j | 0 <= j < |u|
      ensures u[j] == v[j]
    {
      forall k | 0 <= k < 8
        ensures HasBit(u[j], k) <==> HasBit(v[j], k)
      {
        assert Has(u, 8 * j + k) <==> Has(v, 8 * j + k);
      }
      SameBits(u[j], v[j]);
    }
  }

  /** A set of ids has one vector without zeros at the end. */
  lemma ShortOnce(u: Vector, v: Vector)
    requires Short(u) && Short(v) && Ids(u) == Ids(v)
    ensures u == v
  {
    ShortFits(u, v);
    ShortFits(v, u);
    SameVector(u, v);
  }

  lemma ShortIsEmpty(v: Vector)
    requires Short(v)
    ensures v == [] <==> Ids(v) == {}
  {
    if v != [] {
      var k := SomeBit(v[|v| - 1]);
      assert Has(v, 8 * (|v| - 1) + k);
      IdsHas(v);
      assert 8 * (|v| - 1) + k in Ids(v);
    }
  }

  // --- changing a bit ---

  /** Vectors grow by this many bytes at a time. */
  const STEP := 16

  lemma ByteChanged(v: Vector, at: nat, on: bool)
    requires at / 8 < |v|
    ensures var c := Masked(v[at / 8], OneBit(at % 8), on);
      && Ids(v[at / 8 := c]) == (if on then Ids(v) + {at} else Ids(v) - {at})
      && (c != v[at / 8] <==> (at in Ids(v)) != on)
  {
    hide HasBit, OneBit, Masked;
    var c := Masked(v[at / 8], OneBit(at % 8), on);
    var w := v[at / 8 := c];
    IdsHas(v);
    IdsHas(w);
    forall k | 0 <= k < 8
      ensures HasBit(c, k) <==> if k == at % 8 then on else HasBit(v[at / 8], k)
    {
      MaskedBit(v[at / 8], at % 8, on, k);
    }
    assert forall i: nat :: Has(w, i) <==> if i == at then on else Has(v, i);
    if (at in Ids(v)) == on {
      SameBits(c, v[at / 8]);
    }
  }

  /** The size after setmask: a vector that is too short grows by whole steps. */
  function Grown(size: nat, at: nat): (n: nat)
    ensures at / 8 < n && size <= n
  {
    if at / 8 >= size then STEP * (1 + at / 8 / STEP) else size
  }

  /** A vector stays as long as it is if it has room for the id, and else ends with the sixteen bytes, or
      128 ids, in which the new id is. */
  lemma GrownIs(size: nat, at: nat)
    ensures Grown(size, at) == if at < 8 * size then size else 16 * (at / 128 + 1)
  {
  }

  /** The vector with one bit set or cleared, extended with zeros if it is too short. */
  function WithBit(v: Vector, at: nat, on: bool): (w: Vector)
    ensures |w| == Grown(|v|, at)
  {
    var w := v + Zeros(Grown(|v|, at) - |v|);
    w[at / 8 := Masked(w[at / 8], OneBit(at % 8), on)]
  }

  lemma WithBitIds(v: Vector, at: nat, on: bool)
    ensures Ids(WithBit(v, at, on)) == if on then Ids(v) + {at} else Ids(v) - {at}
  {
    var w := v + Zeros(Grown(|v|, at) - |v|);
    TrimmedIds(w, |v|);
    assert w[..|v|] == v;
    ByteChanged(w, at, on);
  }

  /** setmask with a mask of one bit, which is how the store calls it. The vector is extended
      with zeros if it is too short; a bit past max bytes ends the program. */
  method SetMask(size: nat, bits: array<bv8>, at: nat, value: bool, max: nat)
    returns (size': nat, change: bool)
    requires size <= max <= bits.Length && max % STEP == 0 && at / 8 < max
    modifies bits
    ensures size' == Grown(size, at) <= max
    ensures bits[..size'] == WithBit(old(bits[..size]), at, value)
    ensures Ids(bits[..size']) == if value then Ids(old(bits[..size])) + {at} else Ids(old(bits[..size])) - {at}
    ensures change <==> (at in Ids(old(bits[..size]))) != value
  {
    hide HasBit, OneBit, Masked;
    size' := size;
    if at / 8 >= size {
      size' := STEP * (1 + at / 8 / STEP);
      for j := size to size'
        invariant bits[..size] == old(bits[..size])
        invariant forall i :: size <= i < j ==> bits[i] == 0
      {
        bits[j] := 0;
      }
      TrimmedIds(bits[..size'], size);
      assert bits[..size'][..size] == old(bits[..size]);
    }
    ghost var v := bits[..size'];
    ByteChanged(v, at, value);
    var c := bits[at / 8];
    var d := Masked(c, OneBit(at % 8), value);
    change := d != c;
    if change {
      bits[at / 8] := d;
    }
    assert bits[..size'] == v[at / 8 := d];
    assert v == old(bits[..size]) + Zeros(size' - size);
  }

  // --- looking for a bit ---

  /** r is the least id of v that is at least `at`; past the end if there is none. */
  ghost predicate FirstAfter(v: Vector, at: nat, r: nat) {
    && (forall i :: i in Ids(v) && i >= at ==> r <= i)
    && (r < 8 * |v| ==> r in Ids(v) && r >= at)
  }

  /** The bits of c from k on. */
  function From(c: bv8, k: nat): bv8
    requires k <= 8
  {
    if k == 8 then 0 else c & (0xFF << k)
  }

  lemma FromBit(c: bv8, k: nat, j: nat)
    requires k < 8 && j < 8
    ensures HasBit(From(c, k), j) <==> k <= j && HasBit(c, j)
  {
    FromMask(k, j);
    assert From(c, k) == c & (0xFF << k);
    BitOf(c, 0xFF << k, j);
  }

  lemma FromMask(k: nat, j: nat)
    requires k < 8 && j < 8
    ensures HasBit(0xFF << k, j) <==> k <= j
  {
  }

  /** The position of the lowest bit of c. */
  method LowestBit(c: bv8) returns (x: nat)
    requires c != 0
    ensures x < 8 && HasBit(c, x) && forall j :: 0 <= j < x ==> !HasBit(c, j)
  {
    ghost var k := SomeBit(c);
    hide HasBit;
    x := 0;
    while x < 7
      invariant x <= 7 && forall j :: 0 <= j < x ==> !HasBit(c, j)
    {
      if HasBit(c, x) {
        return;
      }
      x := x + 1;
    }
  }

  /** getfirstsetafter. It looks at one byte past the vector, and into it for a start past the end. */
  method GetFirstSetAfter(size: nat, bits: array<bv8>, at: nat) returns (r: nat)
    requires size < bits.Length && at / 8 < bits.Length
    ensures FirstAfter(bits[..size], at, r) && r < 8 * bits.Length
    ensures at < 8 * size && r >= 8 * size ==> r == 8 * size
  {
    hide HasBit, From;
    ghost var v := bits[..size];
    IdsHas(v);
    var i := at / 8;
    var c := From(bits[i], at % 8);
    forall j | 0 <= j < 8
      ensures HasBit(c, j) <==> at % 8 <= j && HasBit(bits[i], j)
    {
      FromBit(bits[i], at % 8, j);
    }
    while true
      invariant at / 8 <= i < bits.Length && (i < size || i == at / 8)
      invariant forall x: nat :: at <= x < 8 * i ==> !Has(v, x)
      invariant forall j :: 0 <= j < 8 ==> (HasBit(c, j) <==> 8 * i + j >= at && HasBit(bits[i], j))
      decreases size - i
    {
      if c != 0 {
        var x := LowestBit(c);
        r := 8 * i + x;
        forall y: nat | at <= y < r
          ensures !Has(v, y)
        {
          if y >= 8 * i && i < size {
            assert !HasBit(c, y % 8) && v[i] == bits[i];
          }
        }
        return;
      }
      NoBits(c);
      i := i + 1;
      if i >= size {
        break;
      }
      c := bits[i];
    }
    r := 8 * size;
  }

  /** isanyset with a mask of one bit: the ids looked at are at, at + 8, at + 16, ... */
  method IsAnySet(size: nat, bits: array<bv8>, at: nat) returns (found: bool, at': nat)
    requires size <= bits.Length
    ensures found <==> exists i :: i in Ids(bits[..size]) && i >= at && i % 8 == at % 8
    ensures found ==> at' in Ids(bits[..size]) && at' >= at && at' % 8 == at % 8
    ensures found ==> forall i :: i in Ids(bits[..size]) && i >= at && i % 8 == at % 8 ==> at' <= i
  {
    hide HasBit;
    IdsHas(bits[..size]);
    var rest := at % 8;
    at' := at / 8;
    while at' < size
      invariant at / 8 <= at'
      invariant forall i: nat :: at <= i < 8 * at' && i % 8 == rest ==> !Has(bits[..size], i)
      decreases size - at'
    {
      if HasBit(bits[at'], rest) {
        at' := 8 * at' + rest;
        found := true;
        assert Has(bits[..size], at');
        return;
      }
      at' := at' + 1;
    }
    found := false;
  }

  // --- the algebra ---

  /** The byte of a vector, zero past its end. */
  function At(v: Vector, i: nat): bv8 {
    if i < |v| then v[i] else 0
  }

  lemma AtHas(v: Vector, i: nat)
    ensures HasBit(At(v, i / 8), i % 8) <==> i in Ids(v)
  {
    IdsHas(v);
    NoBits(0);
  }

  /** The length the operators return: past the last byte that is not zero. */
  predicate Trimmed(v: Vector, len: nat) {
    && len <= |v| && (len > 0 ==> v[len - 1] != 0)
    && forall j :: len <= j < |v| ==> v[j] == 0
  }

  lemma TrimmedMore(v: Vector, len: nat, c: bv8)
    requires Trimmed(v, len)
    ensures Trimmed(v + [c], if c != 0 then |v| + 1 else len)
  {
  }

  lemma TrimmedIsShort(v: Vector, len: nat)
    requires Trimmed(v, len)
    ensures Short(v[..len]) && Ids(v[..len]) == Ids(v)
  {
    TrimmedIds(v, len);
  }

  /** shorten: the top zero bytes go, the ids stay. */
  method Shorten(la: nat, ba: array<bv8>) returns (len: nat)
    requires la <= ba.Length
    ensures len <= la && Short(ba[..len]) && Ids(ba[..len]) == Ids(ba[..la])
    ensures ba[..len] == Shortened(ba[..la])
  {
    len := la;
    while len > 0 && ba[len - 1] == 0
      invariant len <= la && forall j :: len <= j < la ==> ba[j] == 0
    {
      len := len - 1;
    }
    TrimmedIds(ba[..la], len);
    assert ba[..la][..len] == ba[..len];
    ShortenedIs(ba[..la]);
    ShortOnce(ba[..len], Shortened(ba[..la]));
  }

  /** The vector without its top zero bytes. */
  function Shortened(v: Vector): Vector {
    if v != [] && v[|v| - 1] == 0 then Shortened(v[..|v| - 1]) else v
  }

  lemma {:induction false} ShortenedIs(v: Vector)
    ensures Short(Shortened(v)) && Ids(Shortened(v)) == Ids(v) && |Shortened(v)| <= |v|
  {
    hide Ids;
    if v != [] && v[|v| - 1] == 0 {
      TrimmedIds(v, |v| - 1);
      ShortenedIs(v[..|v| - 1]);
    }
  }

  function AndByte(a: bv8, b: bv8): bv8 {
    a & b
  }

  function OrByte(a: bv8, b: bv8): bv8 {
    a | b
  }

  /** A one when a is set and b is not, but not the other way round. */
  function ExorByte(a: bv8, b: bv8): bv8 {
    (a | b) ^ b
  }

  lemma AndIds(u: Vector, v: Vector, w: Vector)
    requires |w| == if |u| < |v| then |u| else |v|
    requires forall i :: 0 <= i < |w| ==> w[i] == AndByte(u[i], v[i])
    ensures Ids(w) == Ids(u) * Ids(v)
  {
    hide HasBit;
    forall i: nat
      ensures i in Ids(w) <==> i in Ids(u) && i in Ids(v)
    {
      AtHas(u, i);
      AtHas(v, i);
      AtHas(w, i);
      BitOf(At(u, i / 8), At(v, i / 8), i % 8);
      NoBits(0);
    }
  }

  lemma OrIds(u: Vector, v: Vector, w: Vector)
    requires |w| == if |u| < |v| then |v| else |u|
    requires forall i :: 0 <= i < |w| ==> w[i] == OrByte(At(u, i), At(v, i))
    ensures Ids(w) == Ids(u) + Ids(v)
  {
    hide HasBit;
    forall i: nat
      ensures i in Ids(w) <==> i in Ids(u) || i in Ids(v)
    {
      AtHas(u, i);
      AtHas(v, i);
      AtHas(w, i);
      BitOf(At(u, i / 8), At(v, i / 8), i % 8);
      NoBits(0);
    }
  }

  lemma ExorTest(a: bv8, b: bv8, m: bv8)
    requires IsOneBit(m)
    ensures Test(ExorByte(a, b), m) <==> Test(a, m) && !Test(b, m)
  {
  }

  lemma ExorBit(a: bv8, b: bv8, k: nat)
    requires k < 8
    ensures HasBit(ExorByte(a, b), k) <==> HasBit(a, k) && !HasBit(b, k)
  {
    hide Test, IsOneBit, OneBit, ExorByte;
    ExorTest(a, b, OneBit(k));
  }

  lemma ExorIds(u: Vector, v: Vector, w: Vector)
    requires |w| == if |u| < |v| then |v| else |u|
    requires forall i :: 0 <= i < |w| ==> w[i] == ExorByte(At(u, i), At(v, i))
    ensures Ids(w) == Ids(u) - Ids(v)
  {
    hide HasBit;
    forall i: nat
      ensures i in Ids(w) <==> i in Ids(u) && i !in Ids(v)
    {
      AtHas(u, i);
      AtHas(v, i);
      AtHas(w, i);
      ExorBit(At(u, i / 8), At(v, i / 8), i % 8);
      NoBits(0);
    }
  }

  lemma NotIds(u: Vector, w: Vector)
    requires |w| == |u| && forall i :: 0 <= i < |w| ==> w[i] == !u[i]
    ensures forall i: nat :: i in Ids(w) <==> i < 8 * |u| && i !in Ids(u)
  {
    hide HasBit;
    IdsHas(w);
    forall i: nat | i < 8 * |u|
      ensures i in Ids(w) <==> i !in Ids(u)
    {
      AtHas(u, i);
      AtHas(w, i);
      BitOf(At(u, i / 8), At(u, i / 8), i % 8);
    }
  }

  lemma FrontOf(a: array<bv8>, i: nat, len: nat)
    requires len <= i <= a.Length
    ensures a[..i][..len] == a[..len]
  {
  }

  /** and: the intersection, without zeros at the end. */
  method And(la: nat, ba: array<bv8>, lb: nat, bb: array<bv8>, bc: array<bv8>) returns (len: nat)
    requires bc != ba && bc != bb && la <= ba.Length && lb <= bb.Length
    requires la <= bc.Length || lb <= bc.Length
    modifies bc
    ensures len <= la && len <= lb && len <= bc.Length
    ensures Short(bc[..len]) && Ids(bc[..len]) == Ids(ba[..la]) * Ids(bb[..lb])
  {
    hide Trimmed, AndByte, OrByte, ExorByte;
    len := 0;
    var i := 0;
    TrimmedNothing();
    assert bc[..0] == [];
    while i < la && i < lb
      invariant i <= la && i <= lb && i <= bc.Length && len <= i
      invariant forall j :: 0 <= j < i ==> bc[j] == AndByte(ba[j], bb[j])
      invariant Trimmed(bc[..i], len)
    {
      var c := AndByte(ba[i], bb[i]);
      len := Push(bc, i, len, c);
      i := i + 1;
    }
    TrimmedIsShort(bc[..i], len);
    AndIds(ba[..la], bb[..lb], bc[..i]);
    FrontOf(bc, i, len);
  }

  /** The next byte of a result: len follows the last one that is not zero. */
  method Push(bc: array<bv8>, i: nat, len: nat, c: bv8) returns (len': nat)
    requires i < bc.Length && Trimmed(bc[..i], len)
    modifies bc
    ensures bc[..i + 1] == old(bc[..i]) + [c] && len' <= i + 1 && Trimmed(bc[..i + 1], len')
  {
    TrimmedMore(bc[..i], len, c);
    len' := if c != 0 then i + 1 else len;
    bc[i] := c;
    assert bc[..i + 1] == old(bc[..i]) + [c];
  }

  lemma TrimmedNothing()
    ensures Trimmed([], 0)
  {
  }

  /** or: the union, without zeros at the end. */
  method Or(la: nat, ba: array<bv8>, lb: nat, bb: array<bv8>, bc: array<bv8>) returns (len: nat)
    requires bc != ba && bc != bb && la <= ba.Length && lb <= bb.Length
    requires la <= bc.Length && lb <= bc.Length
    modifies bc
    ensures len <= bc.Length && (len <= la || len <= lb)
    ensures Short(bc[..len]) && Ids(bc[..len]) == Ids(ba[..la]) + Ids(bb[..lb])
  {
    hide Trimmed, AndByte, OrByte, ExorByte;
    len := 0;
    var i := 0;
    TrimmedNothing();
    assert bc[..0] == [];
    while i < la || i < lb
      decreases (if la < lb then lb else la) - i
      invariant (i <= la || i <= lb) && i <= bc.Length && len <= i
      invariant forall j :: 0 <= j < i ==> bc[j] == OrByte(At(ba[..la], j), At(bb[..lb], j))
      invariant Trimmed(bc[..i], len)
    {
      var a: bv8 := if i >= la then 0 else ba[i];
      var b: bv8 := if i >= lb then 0 else bb[i];
      var c := OrByte(a, b);
      len := Push(bc, i, len, c);
      i := i + 1;
    }
    TrimmedIsShort(bc[..i], len);
    OrIds(ba[..la], bb[..lb], bc[..i]);
    FrontOf(bc, i, len);
  }

  /** exor: what the first has and the second has not, without zeros at the end. */
  method Exor(la: nat, ba: array<bv8>, lb: nat, bb: array<bv8>, bc: array<bv8>) returns (len: nat)
    requires bc != ba && bc != bb && la <= ba.Length && lb <= bb.Length
    requires la <= bc.Length && lb <= bc.Length
    modifies bc
    ensures len <= bc.Length && (len <= la || len <= lb)
    ensures Short(bc[..len]) && Ids(bc[..len]) == Ids(ba[..la]) - Ids(bb[..lb])
  {
    hide Trimmed, AndByte, OrByte, ExorByte;
    len := 0;
    var i := 0;
    TrimmedNothing();
    assert bc[..0] == [];
    while i < la || i < lb
      decreases (if la < lb then lb else la) - i
      invariant (i <= la || i <= lb) && i <= bc.Length && len <= i
      invariant forall j :: 0 <= j < i ==> bc[j] == ExorByte(At(ba[..la], j), At(bb[..lb], j))
      invariant Trimmed(bc[..i], len)
    {
      var a: bv8 := if i >= la then 0 else ba[i];
      var b: bv8 := if i >= lb then 0 else bb[i];
      var c := ExorByte(a, b);
      len := Push(bc, i, len, c);
      i := i + 1;
    }
    TrimmedIsShort(bc[..i], len);
    ExorIds(ba[..la], bb[..lb], bc[..i]);
    FrontOf(bc, i, len);
  }

  /** not: the ids the vector has room for and does not have. */
  method Not(la: nat, ba: array<bv8>, bb: array<bv8>) returns (len: nat)
    requires bb != ba && la <= ba.Length && la <= bb.Length
    modifies bb
    ensures len <= la && Short(bb[..len])
    ensures forall i: nat :: i in Ids(bb[..len]) <==> i < 8 * la && i !in Ids(ba[..la])
  {
    hide Trimmed, AndByte, OrByte, ExorByte;
    len := 0;
    var i := 0;
    TrimmedNothing();
    assert bb[..0] == [];
    while i < la
      invariant i <= la && len <= i
      invariant forall j :: 0 <= j < i ==> bb[j] == !ba[j]
      invariant Trimmed(bb[..i], len)
    {
      var b := !ba[i];
      len := Push(bb, i, len, b);
      i := i + 1;
    }
    TrimmedIsShort(bb[..i], len);
    NotIds(ba[..la], bb[..i]);
    FrontOf(bb, i, len);
  }
}
