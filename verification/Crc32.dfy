// crc32.c, lines 95-107: the table-driven CRC-32, proved to be polynomial long
// division. The bit-vector operators stay behind Xor and Shift: most proofs hide
// their bodies and reason from the algebraic laws alone.
module Crc32 {
  import opened Bytes
  import opened Crc32Table

  const ONES: bv32 := 0xFFFF_FFFF

  function Word(b: byte): bv32 { (b as bv8) as bv32 }

  // crc32_tab[(crc ^ *p) & 0xFF] ^ (crc >> 8)
  function TableStep(c: bv32, b: byte): bv32 {
    Xor(Entry(Xor(c, Word(b)) & 0xFF), c >> 8)
  }

  // The register after the loop body has run over s.
  function Register(c: bv32, s: seq<byte>): bv32
    decreases |s|
  {
    if s == [] then c else Register(TableStep(c, s[0]), s[1..])
  }

  function Crc(crc: bv32, s: seq<byte>): bv32 {
    Xor(Register(Xor(crc, ONES), s), ONES)
  }

  method ComputeCrc(crc0: bv32, buf: array<byte>, size: nat) returns (crc: bv32)
    requires size <= buf.Length
    ensures crc == Crc(crc0, buf[..size])
  {
    hide TableStep;
    crc := Xor(crc0, ONES);
    var p := 0;
    while p < size
      invariant 0 <= p <= size
      invariant Register(crc, buf[p..size]) == Register(Xor(crc0, ONES), buf[..size])
    {
      assert buf[p..size][1..] == buf[p + 1..size];
      crc := TableStep(crc, buf[p]);
      p := p + 1;
    }
    crc := Xor(crc, ONES);
  }

  // ---------- laws of xor and of the shift step ----------

  lemma XorIs(a: bv32, b: bv32)
    ensures Xor(a, b) == a ^ b
  {}

  lemma XorLaws(a: bv32, b: bv32, c: bv32)
    ensures Xor(a, 0) == a && Xor(0, a) == a && Xor(a, a) == 0
    ensures Xor(a, b) == Xor(b, a)
    ensures Xor(Xor(a, b), c) == Xor(a, Xor(b, c))
  {}

  lemma XorSwap(a: bv32, b: bv32, c: bv32, d: bv32)
    ensures Xor(Xor(a, b), Xor(c, d)) == Xor(Xor(a, c), Xor(b, d))
  {
    hide Xor;
    calc {
      Xor(Xor(a, b), Xor(c, d));
      { XorLaws(a, b, Xor(c, d)); }
      Xor(a, Xor(b, Xor(c, d)));
      { XorLaws(b, c, d); XorLaws(c, b, d); }
      Xor(a, Xor(c, Xor(b, d)));
      { XorLaws(a, c, Xor(b, d)); }
      Xor(Xor(a, c), Xor(b, d));
    }
  }

  lemma XorCancel(a: bv32, b: bv32, c: bv32)
    ensures Xor(a, c) == Xor(b, c) <==> a == b
  {}

  lemma OddXor(a: bv32, b: bv32)
    ensures Odd(Xor(a, b)) == (Odd(a) != Odd(b))
  {}

  lemma HalfXor(a: bv32, b: bv32)
    ensures Xor(a, b) >> 1 == Xor(a >> 1, b >> 1)
  {
    hide Xor;
    XorIs(a, b);
    XorIs(a >> 1, b >> 1);
  }

  lemma HalfXorBoth(a: bv32, b: bv32)
    ensures Xor(a, b) >> 1 == Xor(Xor(a >> 1, POLY), Xor(b >> 1, POLY))
  {}

  lemma HalfXorLeft(a: bv32, b: bv32)
    ensures Xor(Xor(a, b) >> 1, POLY) == Xor(Xor(a >> 1, POLY), b >> 1)
  {}

  lemma HalfXorRight(a: bv32, b: bv32)
    ensures Xor(Xor(a, b) >> 1, POLY) == Xor(a >> 1, Xor(b >> 1, POLY))
  {}

  lemma ShiftXor(a: bv32, b: bv32)
    ensures Shift(Xor(a, b)) == Xor(Shift(a), Shift(b))
  {
    hide Xor, Odd;
    OddXor(a, b);
    if Odd(a) {
      if Odd(b) { HalfXorBoth(a, b); } else { HalfXorLeft(a, b); }
    } else {
      if Odd(b) { HalfXorRight(a, b); } else { HalfXor(a, b); }
    }
  }

  // The shift step has an inverse.
  function Unshift(c: bv32): bv32 {
    if c & 0x8000_0000 != 0 then (Xor(c, POLY) << 1) | 1 else c << 1
  }

  lemma UnshiftShift(c: bv32)
    ensures Unshift(Shift(c)) == c
  {}

  function Shifts(c: bv32, k: nat): bv32
    decreases k
  {
    if k == 0 then c else Shifts(Shift(c), k - 1)
  }

  lemma {:induction false} ShiftsInjective(a: bv32, b: bv32, k: nat)
    requires Shifts(a, k) == Shifts(b, k)
    ensures a == b
    decreases k
  {
    hide Shift, Unshift;
    if k > 0 {
      ShiftsInjective(Shift(a), Shift(b), k - 1);
      UnshiftShift(a);
      UnshiftShift(b);
    }
  }

  lemma ShiftsEight(c: bv32)
    ensures Shifts(c, 8) == Shift8(c)
  {
    hide Shift;
    var c2 := Shift(Shift(c));
    var c4 := Shift(Shift(c2));
    var c6 := Shift(Shift(c4));
    assert Shifts(c6, 2) == Shift(Shift(c6));
    assert Shifts(c4, 4) == Shifts(c6, 2);
    assert Shifts(c2, 6) == Shifts(c4, 4);
    assert Shifts(c, 8) == Shifts(c2, 6);
  }

  lemma Shift8Xor(a: bv32, b: bv32)
    ensures Shift8(Xor(a, b)) == Xor(Shift8(a), Shift8(b))
  {
    hide Shift, Xor;
    var a1, b1 := Shift(a), Shift(b);
    var a2, b2 := Shift(a1), Shift(b1);
    var a3, b3 := Shift(a2), Shift(b2);
    var a4, b4 := Shift(a3), Shift(b3);
    var a5, b5 := Shift(a4), Shift(b4);
    var a6, b6 := Shift(a5), Shift(b5);
    var a7, b7 := Shift(a6), Shift(b6);
    ShiftXor(a, b);
    ShiftXor(a1, b1);
    ShiftXor(a2, b2);
    ShiftXor(a3, b3);
    ShiftXor(a4, b4);
    ShiftXor(a5, b5);
    ShiftXor(a6, b6);
    ShiftXor(a7, b7);
  }

  // ---------- the table step is eight shifts ----------

  lemma SplitLowByte(x: bv32)
    ensures x == Xor(x & 0xFF, x & 0xFFFF_FF00)
    ensures (x & 0xFFFF_FF00) >> 8 == x >> 8
    ensures (x & 0xFFFF_FF00) & 0xFF == 0
  {}

  lemma Shift8High(h: bv32)
    requires h & 0xFF == 0
    ensures Shift8(h) == h >> 8
  {}

  lemma Shift8Join(x: bv32, l: bv32, h: bv32)
    requires x == Xor(l, h) && h & 0xFF == 0 && h >> 8 == x >> 8
    ensures Shift8(x) == Xor(Shift8(l), x >> 8)
  {
    hide Shift8, Xor;
    Shift8Xor(l, h);
    Shift8High(h);
  }

  lemma Shift8Splits(x: bv32)
    ensures Shift8(x) == Xor(Shift8(x & 0xFF), x >> 8)
  {
    hide Shift8, Xor;
    SplitLowByte(x);
    Shift8Join(x, x & 0xFF, x & 0xFFFF_FF00);
  }

  lemma WordIsSmall(b: byte)
    ensures Word(b) & 0xFFFF_FF00 == 0
  {}

  lemma ByteLeavesTop(c: bv32, b: byte)
    ensures Xor(c, Word(b)) >> 8 == c >> 8
  {
    WordIsSmall(b);
  }

  lemma TableStepIsShift8(c: bv32, b: byte)
    ensures TableStep(c, b) == Shift8(Xor(c, Word(b)))
  {
    hide Shift8, Entry, Xor, Word;
    var x := Xor(c, Word(b));
    EntryIsShift8(x & 0xFF);
    Shift8Splits(x);
    ByteLeavesTop(c, b);
  }

  // ---------- the bit-serial register ----------

  // One message bit: its difference from the lowest register bit decides whether
  // the generator is subtracted.
  function BitStep(c: bv32, b: bool): bv32 {
    Shift(if b then Xor(c, 1) else c)
  }

  function FeedBits(c: bv32, bits: seq<bool>): bv32
    decreases |bits|
  {
    if bits == [] then c else FeedBits(BitStep(c, bits[0]), bits[1..])
  }

  lemma {:induction false} FeedBitsAppend(c: bv32, a: seq<bool>, b: seq<bool>)
    ensures FeedBits(c, a + b) == FeedBits(FeedBits(c, a), b)
    decreases |a|
  {
    hide BitStep;
    if a == [] {
      assert a + b == b;
    } else {
      assert (a + b)[1..] == a[1..] + b;
      FeedBitsAppend(BitStep(c, a[0]), a[1..], b);
    }
  }

  // The k lowest bits of w, lowest first.
  function LowBits(w: bv32, k: nat): (bits: seq<bool>)
    ensures |bits| == k
  {
    if k == 0 then [] else [Odd(w)] + LowBits(w >> 1, k - 1)
  }

  // The bits of a byte string in the order the line carries them: lowest bit first.
  function MessageBits(s: seq<byte>): (bits: seq<bool>)
    ensures |bits| == 8 * |s|
  {
    if s == [] then [] else LowBits(Word(s[0]), 8) + MessageBits(s[1..])
  }

  lemma FeedXorBoth(c: bv32, w: bv32)
    ensures Xor(c, w) >> 1 == Xor(Xor(c, 1) >> 1, w >> 1)
  {}

  lemma FeedXorBit(c: bv32, w: bv32)
    ensures Xor(Xor(c, w) >> 1, POLY) == Xor(Xor(Xor(c, 1) >> 1, POLY), w >> 1)
  {}

  lemma FeedOne(c: bv32, w: bv32)
    ensures Shift(Xor(c, w)) == Xor(BitStep(c, Odd(w)), w >> 1)
  {
    hide Xor, Odd;
    OneIsOdd();
    OddXor(c, w);
    OddXor(c, 1);
    if Odd(w) {
      if Odd(c) { FeedXorBoth(c, w); } else { FeedXorBit(c, w); }
    } else {
      if Odd(c) { HalfXorLeft(c, w); } else { HalfXor(c, w); }
    }
  }

  lemma OneIsOdd()
    ensures Odd(1)
  {}

  // Shifted right k times, w is zero.
  ghost predicate Fits(w: bv32, k: nat) {
    if k == 0 then w == 0 else Fits(w >> 1, k - 1)
  }

  // Feeding the k bits of w is k shifts of the register with w xored in.
  lemma {:induction false} FeedLowBits(c: bv32, w: bv32, k: nat)
    requires Fits(w, k)
    ensures FeedBits(c, LowBits(w, k)) == Shifts(Xor(c, w), k)
    decreases k
  {
    hide Xor, Shift, Odd, BitStep;
    if k > 0 {
      assert LowBits(w, k)[1..] == LowBits(w >> 1, k - 1);
      FeedOne(c, w);
      FeedLowBits(BitStep(c, Odd(w)), w >> 1, k - 1);
    } else {
      XorLaws(c, c, c);
    }
  }

  lemma FitsEight(w: bv32, k: nat)
    requires k >= 8 && Fits(w >> 8, k - 8)
    ensures Fits(w, k)
  {
    assert w >> 1 >> 1 >> 1 >> 1 >> 1 >> 1 >> 1 >> 1 == w >> 8;
    assert Fits(w >> 1 >> 1 >> 1 >> 1 >> 1 >> 1, k - 6);
    assert Fits(w >> 1 >> 1 >> 1 >> 1, k - 4);
    assert Fits(w >> 1 >> 1, k - 2);
  }

  lemma ByteFits(b: byte)
    ensures Fits(Word(b), 8)
  {
    WordIsSmall(b);
    assert Word(b) >> 8 == 0;
    FitsEight(Word(b), 8);
  }

  lemma WordFits(w: bv32)
    ensures Fits(w, 32)
  {
    assert w >> 8 >> 8 >> 8 >> 8 == 0;
    FitsEight(w >> 8 >> 8 >> 8, 8);
    FitsEight(w >> 8 >> 8, 16);
    FitsEight(w >> 8, 24);
    FitsEight(w, 32);
  }

  lemma FeedByte(c: bv32, b: byte)
    ensures FeedBits(c, LowBits(Word(b), 8)) == TableStep(c, b)
  {
    hide *;
    ByteFits(b);
    FeedLowBits(c, Word(b), 8);
    ShiftsEight(Xor(c, Word(b)));
    TableStepIsShift8(c, b);
  }

  // The table loop is the bit-serial register run over the message bits.
  lemma {:induction false} RegisterIsBitSerial(c: bv32, s: seq<byte>)
    ensures Register(c, s) == FeedBits(c, MessageBits(s))
    decreases |s|
  {
    hide TableStep, BitStep, Word, LowBits;
    if s != [] {
      FeedByte(c, s[0]);
      FeedBitsAppend(c, LowBits(Word(s[0]), 8), MessageBits(s[1..]));
      RegisterIsBitSerial(TableStep(c, s[0]), s[1..]);
    }
  }
}
