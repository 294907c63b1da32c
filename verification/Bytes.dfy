// Octets, big-endian fields, and the in-place block copy every frame builder uses.
module Bytes {

  newtype byte = x: int | 0 <= x < 256

  const TWO32: int := 0x1_0000_0000

  // ---------- octets as bit vectors ----------

  lemma BitsOfByte(v: bv8)
    ensures (v as byte) as bv8 == v
  {}

  lemma ByteOfBits(b: byte)
    ensures (b as bv8) as byte == b
  {
    var v := SomeBits(b);
    BitsOfByte(v);
  }

  // Every octet is the value of some 8-bit vector.
  lemma SomeBits(b: byte) returns (v: bv8)
    ensures v as byte == b
  {
    var n := b as int;
    var c7 := n >= 128;
    var r7 := n - Weight(c7, 128);
    var c6 := r7 >= 64;
    var r6 := r7 - Weight(c6, 64);
    var c5 := r6 >= 32;
    var r5 := r6 - Weight(c5, 32);
    var c4 := r5 >= 16;
    var r4 := r5 - Weight(c4, 16);
    var c3 := r4 >= 8;
    var r3 := r4 - Weight(c3, 8);
    var c2 := r3 >= 4;
    var r2 := r3 - Weight(c2, 4);
    var c1 := r2 >= 2;
    var c0 := r2 - Weight(c1, 2) >= 1;
    BitSum(c0, c1, c2, c3, c4, c5, c6, c7);
    v := Place(c0, 1) | Place(c1, 2) | Place(c2, 4) | Place(c3, 8)
         | Place(c4, 16) | Place(c5, 32) | Place(c6, 64) | Place(c7, 128);
  }

  function Place(b: bool, v: bv8): bv8 { if b then v else 0 }

  function Weight(b: bool, v: int): int { if b then v else 0 }

  lemma BitSum(c0: bool, c1: bool, c2: bool, c3: bool, c4: bool, c5: bool, c6: bool, c7: bool)
    ensures (Place(c0, 1) | Place(c1, 2) | Place(c2, 4) | Place(c3, 8)
             | Place(c4, 16) | Place(c5, 32) | Place(c6, 64) | Place(c7, 128)) as int
            == Weight(c0, 1) + Weight(c1, 2) + Weight(c2, 4) + Weight(c3, 8)
             + Weight(c4, 16) + Weight(c5, 32) + Weight(c6, 64) + Weight(c7, 128)
  {}

  // ---------- big-endian fields ----------

  function U16(s: seq<byte>, at: nat): (v: nat)
    requires at + 2 <= |s|
    ensures v < 0x10000
  {
    s[at] as int * 256 + s[at + 1] as int
  }

  function U32(s: seq<byte>, at: nat): (v: nat)
    requires at + 4 <= |s|
    ensures v < TWO32
  {
    U16(s, at) * 0x10000 + U16(s, at + 2)
  }

  function Be16(v: nat): (s: seq<byte>)
    requires v < 0x10000
    ensures |s| == 2 && U16(s, 0) == v
  {
    [(v / 256) as byte, (v % 256) as byte]
  }

  function Be32(v: nat): (s: seq<byte>)
    requires v < TWO32
    ensures |s| == 4 && U32(s, 0) == v
  {
    Be16(v / 0x10000) + Be16(v % 0x10000)
  }

  // Network byte order: the first octet weighs most.
  lemma WireOrder(s: seq<byte>, at: nat)
    requires at + 4 <= |s|
    ensures U32(s, at) == 0x100_0000 * s[at] as int + 0x1_0000 * s[at + 1] as int + 0x100 * s[at + 2] as int + s[at + 3] as int
    ensures U32(s, at) == 0x1_0000 * U16(s, at) + U16(s, at + 2)
  {}

  // ---------- overwriting a block ----------

  // s with the bytes from `at` on replaced by b.
  function Put(s: seq<byte>, at: nat, b: seq<byte>): (r: seq<byte>)
    requires at + |b| <= |s|
    ensures |r| == |s|
    ensures forall k | 0 <= k < |s| :: r[k] == if at <= k < at + |b| then b[k - at] else s[k]
  {
    s[..at] + b + s[at + |b|..]
  }

  // memcpy and memset into a frame buffer.
  method Write(a: array<byte>, at: nat, b: seq<byte>)
    requires at + |b| <= a.Length
    modifies a
    ensures a[..] == Put(old(a[..]), at, b)
  {
    for k := 0 to |b|
      invariant forall j | 0 <= j < a.Length :: a[j] == if at <= j < at + k then b[j - at] else old(a[j])
    {
      a[at + k] := b[k];
    }
  }

  // Two adjoining writes are one.
  lemma PutAppend(s: seq<byte>, at: nat, a: seq<byte>, b: seq<byte>)
    requires at + |a| + |b| <= |s|
    ensures Put(Put(s, at, a), at + |a|, b) == Put(s, at, a + b)
  {}

  // A slice that a write does not touch.
  lemma PutKeeps(s: seq<byte>, at: nat, b: seq<byte>, lo: nat, hi: nat)
    requires at + |b| <= |s| && lo <= hi <= |s|
    requires hi <= at || at + |b| <= lo
    ensures Put(s, at, b)[lo..hi] == s[lo..hi]
  {}

  // A write that falls inside a slice, seen from the slice.
  lemma PutWithin(s: seq<byte>, at: nat, b: seq<byte>, lo: nat, hi: nat)
    requires lo <= at && at + |b| <= hi <= |s|
    ensures Put(s, at, b)[lo..hi] == Put(s[lo..hi], at - lo, b)
  {}

  // Equal slices have equal subslices.
  lemma SameWithin(r: seq<byte>, s: seq<byte>, lo: nat, hi: nat, a: nat, b: nat)
    requires lo <= a <= b <= hi && hi <= |r| && hi <= |s|
    requires r[lo..hi] == s[lo..hi]
    ensures r[a..b] == s[a..b]
    ensures a < b ==> r[a] == s[a]
  {
    forall k | a <= k < b
      ensures r[k] == s[k]
    {
      assert r[k] == r[lo..hi][k - lo] && s[k] == s[lo..hi][k - lo];
    }
  }

  lemma SliceWithin(s: seq<byte>, lo: nat, hi: nat, a: nat, b: nat)
    requires lo <= a <= b <= hi <= |s|
    ensures s[lo..hi][a - lo..b - lo] == s[a..b]
  {
    forall k | 0 <= k < b - a
      ensures s[lo..hi][a - lo..b - lo][k] == s[a..b][k]
    {
      assert s[lo..hi][a - lo + k] == s[a + k];
    }
  }

  lemma SameU16(r: seq<byte>, s: seq<byte>, lo: nat, hi: nat, at: nat)
    requires lo <= at && at + 2 <= hi && hi <= |r| && hi <= |s|
    requires r[lo..hi] == s[lo..hi]
    ensures U16(r, at) == U16(s, at)
  {
    SameWithin(r, s, lo, hi, at, at + 1);
    SameWithin(r, s, lo, hi, at + 1, at + 2);
  }

  lemma U16Slice(s: seq<byte>, lo: nat, hi: nat, at: nat)
    requires lo <= at && at + 2 <= hi <= |s|
    ensures U16(s[lo..hi], at - lo) == U16(s, at)
  {}

  lemma U32Slice(s: seq<byte>, at: nat, end: nat)
    requires end == at + 4 <= |s|
    ensures U32(s[at..end], 0) == U32(s, at)
  {}
}
