// What the CRC is for: chaining, the receive-side residue, and which errors it
// catches (crc32.c:95-107, ethernet.c:17-34).
module CrcDetection {
  import opened Bytes
  import opened Crc32Table
  import opened Crc32
  import opened CrcDivision

  // What the CRC of a frame followed by its own FCS always is.
  const RESIDUE: bv32 := 0x2144_DF1C

  // ---------- chaining ----------

  lemma {:induction false} RegisterAppend(c: bv32, a: seq<byte>, b: seq<byte>)
    ensures Register(c, a + b) == Register(Register(c, a), b)
    decreases |a|
  {
    hide TableStep;
    if a == [] {
      assert a + b == b;
    } else {
      assert (a + b)[1..] == a[1..] + b;
      RegisterAppend(TableStep(c, a[0]), a[1..], b);
    }
  }

  // Running crc32 over the pieces, each call seeded with the last result.
  lemma CrcChains(a: seq<byte>, b: seq<byte>)
    ensures Crc(Crc(0, a), b) == Crc(0, a + b)
  {
    hide Xor, Register;
    var r := Register(Xor(0, ONES), a);
    XorLaws(r, ONES, ONES);
    XorLaws(ONES, ONES, ONES);
    RegisterAppend(Xor(0, ONES), a, b);
  }

  // ---------- the FCS field, little-endian ----------

  function LowByte(w: bv32): byte { ((w & 0xFF) as bv8) as byte }

  // The k lowest bytes of w, lowest first.
  function LeBytes(w: bv32, k: nat): (s: seq<byte>)
    ensures |s| == k
    decreases k
  {
    if k == 0 then [] else [LowByte(w)] + LeBytes(w >> 8, k - 1)
  }

  // memcpy of a uint32_t on a little-endian host.
  function StoreLe(w: bv32): (s: seq<byte>)
    ensures |s| == 4
  {
    LeBytes(w, 4)
  }

  lemma StoreLeAt(w: bv32)
    ensures StoreLe(w)
            == [LowByte(w), LowByte(w >> 8), LowByte(w >> 8 >> 8), LowByte(w >> 8 >> 8 >> 8)]
  {
    hide LowByte;
    assert LeBytes(w >> 8 >> 8, 2) == [LowByte(w >> 8 >> 8), LowByte(w >> 8 >> 8 >> 8)];
  }

  // *(uint32_t *) (s + at)
  function LoadLe(s: seq<byte>, at: nat): bv32
    requires at + 4 <= |s|
  {
    Word(s[at]) | (Word(s[at + 1]) << 8) | (Word(s[at + 2]) << 16) | (Word(s[at + 3]) << 24)
  }

  lemma LowEight(w: bv32)
    ensures ((w & 0xFF) as bv8) as bv32 == w & 0xFF
  {}

  lemma WordOfLowByte(w: bv32)
    ensures Word(LowByte(w)) == w & 0xFF
  {
    BitsOfByte((w & 0xFF) as bv8);
    LowEight(w);
  }

  lemma JoinBytes(w: bv32)
    ensures (w & 0xFF) | (((w >> 8) & 0xFF) << 8) | (((w >> 8 >> 8) & 0xFF) << 16)
            | (((w >> 8 >> 8 >> 8) & 0xFF) << 24) == w
  {}

  lemma LoadOfStore(w: bv32)
    ensures LoadLe(StoreLe(w), 0) == w
  {
    hide Word, LowByte;
    StoreLeAt(w);
    WordOfLowByte(w);
    WordOfLowByte(w >> 8);
    WordOfLowByte(w >> 8 >> 8);
    WordOfLowByte(w >> 8 >> 8 >> 8);
    JoinBytes(w);
  }

  lemma PickBytes(a: bv8, b: bv8, c: bv8, d: bv8)
    ensures var w := (a as bv32) | ((b as bv32) << 8) | ((c as bv32) << 16) | ((d as bv32) << 24);
            && (w & 0xFF) as bv8 == a && ((w >> 8) & 0xFF) as bv8 == b
            && ((w >> 8 >> 8) & 0xFF) as bv8 == c && ((w >> 8 >> 8 >> 8) & 0xFF) as bv8 == d
  {}

  lemma StoreOfLoad(s: seq<byte>)
    requires |s| == 4
    ensures StoreLe(LoadLe(s, 0)) == s
  {
    StoreLeAt(LoadLe(s, 0));
    PickBytes(s[0] as bv8, s[1] as bv8, s[2] as bv8, s[3] as bv8);
    ByteOfBits(s[0]);
    ByteOfBits(s[1]);
    ByteOfBits(s[2]);
    ByteOfBits(s[3]);
  }

  // ---------- the residue ----------

  function Shift8s(c: bv32, k: nat): bv32
    decreases k
  {
    if k == 0 then c else Shift8s(Shift8(c), k - 1)
  }

  ghost predicate FitsBytes(w: bv32, k: nat) {
    if k == 0 then w == 0 else FitsBytes(w >> 8, k - 1)
  }

  lemma FeedLowByte(c: bv32, w: bv32)
    ensures Shift8(Xor(c, w)) == Xor(TableStep(c, LowByte(w)), w >> 8)
  {
    hide *;
    WordOfLowByte(w);
    SplitLowByte(w);
    FeedSplit(c, w, LowByte(w), w & 0xFF, w & 0xFFFF_FF00, w >> 8);
  }

  lemma FeedSplit(c: bv32, w: bv32, b: byte, l: bv32, h: bv32, r: bv32)
    requires Word(b) == l && w == Xor(l, h) && h & 0xFF == 0 && h >> 8 == w >> 8 && r == w >> 8
    ensures Shift8(Xor(c, w)) == Xor(TableStep(c, b), r)
  {
    hide *;
    TableStepIsShift8(c, b);
    XorLaws(c, l, h);
    Shift8Xor(Xor(c, l), h);
    Shift8High(h);
  }

  // k more bytes read as one word: 8k shifts of the register xor the word.
  lemma {:induction false} RegisterOfWord(c: bv32, w: bv32, k: nat)
    requires FitsBytes(w, k)
    ensures Register(c, LeBytes(w, k)) == Shift8s(Xor(c, w), k)
    decreases k
  {
    hide Xor, Shift8, TableStep, LowByte;
    if k == 0 {
      XorLaws(c, c, c);
    } else {
      var c1 := TableStep(c, LowByte(w));
      assert LeBytes(w, k)[1..] == LeBytes(w >> 8, k - 1);
      FeedLowByte(c, w);
      RegisterOfWord(c1, w >> 8, k - 1);
    }
  }

  lemma WordIsFourBytes(w: bv32)
    ensures FitsBytes(w, 4)
  {
    assert w >> 8 >> 8 >> 8 >> 8 == 0;
    assert FitsBytes(w >> 8 >> 8, 2);
  }

  lemma {:induction false} Shift8sInjective(a: bv32, b: bv32, k: nat)
    requires Shift8s(a, k) == Shift8s(b, k)
    ensures a == b
    decreases k
  {
    hide Shift8, Shifts;
    if k > 0 {
      Shift8sInjective(Shift8(a), Shift8(b), k - 1);
      ShiftsEight(a);
      ShiftsEight(b);
      ShiftsInjective(a, b, 8);
    }
  }

  lemma Shift8sOfOnes()
    ensures Shift8s(ONES, 4) == 0xDEBB_20E3
  {
    assert Shift8(0xFFFF_FFFF) == 0x2DFD_1072;
    assert Shift8(0x2DFD_1072) == 0xBE26_ED00;
    assert Shift8(0xBE26_ED00) == 0x00BE_26ED;
    assert Shift8(0x00BE_26ED) == 0xDEBB_20E3;
    assert Shift8s(0xBE26_ED00, 2) == 0xDEBB_20E3;
  }

  // What ethernet.c computes as check_sum_match.
  predicate FcsMatches(f: seq<byte>)
    requires |f| >= 4
  {
    LoadLe(f, |f| - 4) == Crc(0, f[..|f| - 4])
  }

  lemma FcsMatchesIffResidue(f: seq<byte>)
    requires |f| >= 4
    ensures FcsMatches(f) <==> Crc(0, f) == RESIDUE
  {
    hide Xor, Register, Shift8s, LeBytes;
    var p, t := f[..|f| - 4], f[|f| - 4..];
    var c := Register(Xor(0, ONES), p);
    var w := LoadLe(f, |f| - 4);
    assert f == p + t;
    assert w == LoadLe(t, 0);
    StoreOfLoad(t);
    RegisterAppend(Xor(0, ONES), p, t);
    WordIsFourBytes(w);
    RegisterOfWord(c, w, 4);
    Shift8sOfOnes();
    XorGives(c, w);
    if Shift8s(Xor(c, w), 4) == Shift8s(ONES, 4) {
      Shift8sInjective(Xor(c, w), ONES, 4);
    }
    ResidueIs(Shift8s(Xor(c, w), 4));
  }

  lemma XorGives(c: bv32, w: bv32)
    ensures w == Xor(c, ONES) <==> Xor(c, w) == ONES
  {
    hide Xor;
    XorLaws(c, c, w);
    XorLaws(c, c, ONES);
    XorLaws(w, 0, 0);
    XorLaws(ONES, 0, 0);
  }

  lemma ResidueIs(x: bv32)
    ensures x == 0xDEBB_20E3 <==> Xor(x, ONES) == RESIDUE
  {}

  // Sealing: appending the CRC makes the check succeed.
  lemma SealedMatches(p: seq<byte>)
    ensures FcsMatches(p + StoreLe(Crc(0, p)))
  {
    hide Crc, StoreLe;
    var f := p + StoreLe(Crc(0, p));
    assert f[..|f| - 4] == p;
    assert f[|f| - 4..] == StoreLe(Crc(0, p));
    assert LoadLe(f, |f| - 4) == LoadLe(StoreLe(Crc(0, p)), 0);
    LoadOfStore(Crc(0, p));
  }

  // ---------- the CRC is affine ----------

  function XorByte(a: byte, b: byte): byte { ((a as bv8) ^ (b as bv8)) as byte }

  function XorSeq(a: seq<byte>, b: seq<byte>): (r: seq<byte>)
    requires |a| == |b|
    ensures |r| == |a|
  {
    seq(|a|, i requires 0 <= i < |a| => XorByte(a[i], b[i]))
  }

  lemma WidenXor(a: bv8, b: bv8)
    ensures (a ^ b) as bv32 == (a as bv32) ^ (b as bv32)
  {}

  lemma WordOfXor(a: byte, b: byte)
    ensures Word(XorByte(a, b)) == Xor(Word(a), Word(b))
  {
    BitsOfByte((a as bv8) ^ (b as bv8));
    WidenXor(a as bv8, b as bv8);
  }

  lemma {:induction false} RegisterXor(c: bv32, d: bv32, a: seq<byte>, b: seq<byte>)
    requires |a| == |b|
    ensures Register(Xor(c, d), XorSeq(a, b)) == Xor(Register(c, a), Register(d, b))
    decreases |a|
  {
    hide Xor, Shift8, TableStep, Word, XorByte;
    if a != [] {
      var x, y := Word(a[0]), Word(b[0]);
      WordOfXor(a[0], b[0]);
      XorSwap(c, d, x, y);
      Shift8Xor(Xor(c, x), Xor(d, y));
      TableStepIsShift8(c, a[0]);
      TableStepIsShift8(d, b[0]);
      TableStepIsShift8(Xor(c, d), XorByte(a[0], b[0]));
      assert XorSeq(a, b)[1..] == XorSeq(a[1..], b[1..]);
      RegisterXor(TableStep(c, a[0]), TableStep(d, b[0]), a[1..], b[1..]);
    }
  }

  lemma CrcIsAffine(a: seq<byte>, b: seq<byte>, c: seq<byte>)
    requires |a| == |b| == |c|
    ensures Xor(Xor(Crc(0, a), Crc(0, b)), Crc(0, c)) == Crc(0, XorSeq(XorSeq(a, b), c))
  {
    hide Xor, Register, XorSeq;
    var i := Xor(0, ONES);
    var ra, rb, rc := Register(i, a), Register(i, b), Register(i, c);
    RegisterXor(i, i, a, b);
    RegisterXor(Xor(i, i), i, XorSeq(a, b), c);
    XorLaws(i, i, i);
    XorSwap(ra, ONES, rb, ONES);
    XorLaws(ONES, ONES, ONES);
    XorLaws(Xor(ra, rb), 0, 0);
    XorLaws(Xor(ra, rb), rc, ONES);
  }

  // Which errors slip through: e goes undetected on a valid frame exactly when the
  // zero-seeded register divides it.
  lemma UndetectedErrors(f: seq<byte>, e: seq<byte>)
    requires |f| == |e| >= 4 && FcsMatches(f)
    ensures FcsMatches(XorSeq(f, e)) <==> Register(0, e) == 0
  {
    hide Xor, Register, XorSeq, FcsMatches;
    var i := Xor(0, ONES);
    var r, s := Register(i, f), Register(0, e);
    FcsMatchesIffResidue(f);
    FcsMatchesIffResidue(XorSeq(f, e));
    RegisterXor(i, 0, f, e);
    XorLaws(i, 0, 0);
    XorCancel(Xor(r, s), r, ONES);
    XorLaws(s, r, 0);
    XorLaws(0, r, 0);
    XorLaws(r, 0, 0);
    XorCancel(s, 0, r);
  }

  // ---------- every burst of at most 32 bits is caught ----------

  lemma BitStepInjective(c: bv32, d: bv32, b: bool)
    requires BitStep(c, b) == BitStep(d, b)
    ensures c == d
  {
    hide Xor, Shift, Unshift;
    UnshiftShift(if b then Xor(c, 1) else c);
    UnshiftShift(if b then Xor(d, 1) else d);
    XorCancel(c, d, 1);
  }

  lemma {:induction false} FeedBitsInjective(c: bv32, d: bv32, bits: seq<bool>)
    requires FeedBits(c, bits) == FeedBits(d, bits)
    ensures c == d
    decreases |bits|
  {
    hide BitStep;
    if bits != [] {
      FeedBitsInjective(BitStep(c, bits[0]), BitStep(d, bits[0]), bits[1..]);
      BitStepInjective(c, d, bits[0]);
    }
  }

  // Equal bits, equal words.
  lemma LowBitsInjective(v: bv32, w: bv32, k: nat)
    requires Fits(v, k) && Fits(w, k) && LowBits(v, k) == LowBits(w, k)
    ensures v == w
  {
    hide Xor, Shifts, FeedBits, LowBits, Fits;
    FeedLowBits(0, v, k);
    FeedLowBits(0, w, k);
    ShiftsInjective(Xor(0, v), Xor(0, w), k);
    XorLaws(v, 0, 0);
    XorLaws(w, 0, 0);
  }

  lemma WordInjective(a: byte, b: byte)
    requires Word(a) == Word(b)
    ensures a == b
  {
    ByteOfBits(a);
    ByteOfBits(b);
    NarrowWord(a as bv8);
    NarrowWord(b as bv8);
  }

  lemma NarrowWord(b: bv8)
    ensures ((b as bv32) & 0xFF) as bv8 == b
  {}

  lemma {:induction false} MessageBitsInjective(f: seq<byte>, g: seq<byte>)
    requires |f| == |g| && MessageBits(f) == MessageBits(g)
    ensures f == g
    decreases |f|
  {
    hide Word, LowBits, Fits;
    if f != [] {
      var v, w := Word(f[0]), Word(g[0]);
      assert LowBits(v, 8) == MessageBits(f)[..8] == LowBits(w, 8);
      assert MessageBits(f[1..]) == MessageBits(f)[8..] == MessageBits(g[1..]);
      ByteFits(f[0]);
      ByteFits(g[0]);
      LowBitsInjective(v, w, 8);
      WordInjective(f[0], g[0]);
      MessageBitsInjective(f[1..], g[1..]);
      assert f == [f[0]] + f[1..] && g == [g[0]] + g[1..];
    }
  }

  // 32 bits make a word.
  function TopBit(b: bool): bv32 { if b then 0x8000_0000 else 0 }

  function Load(bits: seq<bool>): bv32
    decreases |bits|
  {
    if bits == [] then 0
    else Xor(Load(bits[..|bits| - 1]) >> 1, TopBit(bits[|bits| - 1]))
  }

  lemma {:induction false} ZeroBits(k: nat)
    ensures LowBits(0, k) == Zeros(k)
    decreases k
  {
    if k > 0 {
      ZeroBits(k - 1);
      assert LowBits(0, k) == [Odd(0)] + LowBits(0, k - 1);
    }
  }

  // A single bit at place k - 1, moved four places up.
  lemma FourUp(w: bv32, k: nat)
    requires k > 0 && w & 0xF == 0 && LowBits(w >> 4, k) == Zeros(k - 1) + [true]
    ensures LowBits(w, k + 4) == Zeros(k + 3) + [true]
  {
    assert w >> 1 >> 1 >> 1 >> 1 == w >> 4;
    assert LowBits(w >> 1 >> 1, k + 2) == Zeros(2) + LowBits(w >> 4, k);
  }

  lemma TopBitBits(b: bool)
    ensures LowBits(TopBit(b), 32) == Zeros(31) + [b]
  {
    hide LowBits;
    if b {
      BitThree();
      FourUp(0x80, 4);
      FourUp(0x800, 8);
      FourUp(0x8000, 12);
      FourUp(0x8_0000, 16);
      FourUp(0x80_0000, 20);
      FourUp(0x800_0000, 24);
      FourUp(0x8000_0000, 28);
    } else {
      ZeroBits(32);
    }
  }

  lemma BitThree()
    ensures LowBits(0x8, 4) == Zeros(3) + [true]
  {
    assert LowBits(0x8 >> 1 >> 1, 2) == [false, true];
  }

  lemma LoadShiftsIn(r: bv32, b: bool)
    ensures LowBits(Xor(r >> 1, TopBit(b)), 32) == LowBits(r, 32)[1..] + [b]
  {
    hide Xor, TopBit, LowBits;
    LowBitsHalf(r);
    TopBitBits(b);
    forall i | 0 <= i < 32
      ensures LowBits(Xor(r >> 1, TopBit(b)), 32)[i] == (LowBits(r, 32)[1..] + [b])[i]
    {
      LowBitsXor(r >> 1, TopBit(b), 32, i);
    }
  }

  lemma SlideWindow(bits: seq<bool>, b: bool)
    ensures (Zeros(32) + bits)[|bits|..][1..] + [b] == (Zeros(32) + (bits + [b]))[|bits| + 1..]
  {}

  lemma {:induction false} LoadBits(bits: seq<bool>)
    ensures LowBits(Load(bits), 32) == (Zeros(32) + bits)[|bits|..]
    decreases |bits|
  {
    hide Xor, TopBit, LowBits;
    if bits == [] {
      ZeroBits(32);
    } else {
      var init, b := bits[..|bits| - 1], bits[|bits| - 1];
      LoadBits(init);
      LoadShiftsIn(Load(init), b);
      assert bits == init + [b];
      SlideWindow(init, b);
    }
  }

  // 32 bits are the bits of a word.
  lemma BitsAreWord(bits: seq<bool>)
    requires |bits| == 32
    ensures LowBits(Load(bits), 32) == bits
  {
    LoadBits(bits);
    assert (Zeros(32) + bits)[32..] == bits;
  }

  // From one register state, different 32-bit blocks lead to different states.
  lemma BlockInjective(c: bv32, a: seq<bool>, b: seq<bool>)
    requires |a| == |b| == 32 && FeedBits(c, a) == FeedBits(c, b)
    ensures a == b
  {
    hide Xor, Shifts, FeedBits, LowBits, Load, Fits;
    var v, w := Load(a), Load(b);
    BitsAreWord(a);
    BitsAreWord(b);
    WordFits(v);
    WordFits(w);
    FeedLowBits(c, v, 32);
    FeedLowBits(c, w, 32);
    ShiftsInjective(Xor(c, v), Xor(c, w), 32);
    XorLaws(c, v, c);
    XorLaws(c, w, c);
    XorCancel(v, w, c);
  }

  // f and g agree outside the 32 bits that start at bit i.
  ghost predicate DifferInBurst(f: seq<byte>, g: seq<byte>, i: nat) {
    && |f| == |g| && i + 32 <= 8 * |f|
    && MessageBits(f)[..i] == MessageBits(g)[..i]
    && MessageBits(f)[i + 32..] == MessageBits(g)[i + 32..]
  }

  lemma BurstChangesRegister(c: bv32, f: seq<byte>, g: seq<byte>, i: nat)
    requires DifferInBurst(f, g, i) && Register(c, f) == Register(c, g)
    ensures f == g
  {
    hide FeedBits, MessageBits, Register;
    var F, G := MessageBits(f), MessageBits(g);
    var fm, gm := F[i..i + 32], G[i..i + 32];
    assert F == F[..i] + (fm + F[i + 32..]) && G == G[..i] + (gm + G[i + 32..]);
    var c1 := FeedBits(c, F[..i]);
    RegisterIsBitSerial(c, f);
    RegisterIsBitSerial(c, g);
    FeedBitsAppend(c, F[..i], fm + F[i + 32..]);
    FeedBitsAppend(c, G[..i], gm + G[i + 32..]);
    FeedBitsAppend(c1, fm, F[i + 32..]);
    FeedBitsAppend(c1, gm, G[i + 32..]);
    FeedBitsInjective(FeedBits(c1, fm), FeedBits(c1, gm), F[i + 32..]);
    BlockInjective(c1, fm, gm);
    MessageBitsInjective(f, g);
  }

  // The main result: no error confined to 32 consecutive bits, FCS included, turns a
  // valid frame into another valid frame.
  lemma BurstDetected(f: seq<byte>, g: seq<byte>, i: nat)
    requires |f| >= 4 && FcsMatches(f) && f != g && DifferInBurst(f, g, i)
    ensures !FcsMatches(g)
  {
    hide Xor, Register, FcsMatches, MessageBits;
    if FcsMatches(g) {
      var c := Xor(0, ONES);
      FcsMatchesIffResidue(f);
      FcsMatchesIffResidue(g);
      XorCancel(Register(c, f), Register(c, g), ONES);
      BurstChangesRegister(c, f, g, i);
      assert false;
    }
  }

  lemma {:induction false} MessageBitsAppend(a: seq<byte>, b: seq<byte>)
    ensures MessageBits(a + b) == MessageBits(a) + MessageBits(b)
    decreases |a|
  {
    hide LowBits, Word;
    if a == [] {
      assert a + b == b;
    } else {
      assert (a + b)[1..] == a[1..] + b;
      MessageBitsAppend(a[1..], b);
    }
  }

  lemma SplitBits(f: seq<byte>, j: nat)
    requires j <= |f|
    ensures MessageBits(f)[..8 * j] == MessageBits(f[..j])
    ensures MessageBits(f)[8 * j..] == MessageBits(f[j..])
  {
    assert f == f[..j] + f[j..];
    MessageBitsAppend(f[..j], f[j..]);
  }

  // In bytes: any change inside four consecutive octets.
  lemma FourOctetsDetected(f: seq<byte>, g: seq<byte>, j: nat)
    requires |f| == |g| && j + 4 <= |f| && FcsMatches(f) && f != g
    requires f[..j] == g[..j] && f[j + 4..] == g[j + 4..]
    ensures !FcsMatches(g)
  {
    hide MessageBits, FcsMatches;
    SplitBits(f, j);
    SplitBits(g, j);
    SplitBits(f, j + 4);
    SplitBits(g, j + 4);
    BurstDetected(f, g, 8 * j);
  }
}
