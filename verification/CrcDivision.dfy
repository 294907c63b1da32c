// The CRC is what clause 3.2.9 of IEEE 802.3 defines: complement the first 32
// message bits, append 32 zero bits, divide by the generator over GF(2), and
// complement the remainder. Polynomials are bit strings, highest coefficient first.
module CrcDivision {
  import opened Bytes
  import opened Crc32Table
  import opened Crc32

  // Coefficients x^31 .. x^0 of the generator; x^32 is implied.
  function Generator(): seq<bool> { LowBits(POLY, 32) }

  function Zeros(n: nat): seq<bool> { seq(n, _ => false) }

  function Ones(n: nat): seq<bool> { seq(n, _ => true) }

  function Complement(s: seq<bool>): seq<bool> { seq(|s|, i requires 0 <= i < |s| => !s[i]) }

  // d added over GF(2) to the leading coefficients of s.
  function AddAtHead(s: seq<bool>, d: seq<bool>): (r: seq<bool>)
    requires |d| <= |s|
    ensures |r| == |s|
    ensures forall i | 0 <= i < |s| :: r[i] == if i < |d| then s[i] != d[i] else s[i]
  {
    seq(|s|, i requires 0 <= i < |s| => if i < |d| then s[i] != d[i] else s[i])
  }

  // The generator of clause 3.2.9: x^32 + x^26 + x^23 + x^22 + x^16 + x^12 + x^11 + x^10 +
  // x^8 + x^7 + x^5 + x^4 + x^2 + x + 1, the coefficient of x^k in bit 31 - k.
  lemma GeneratorIs()
    ensures POLY == 0x20 | 0x100 | 0x200 | 0x8000 | 0x8_0000 | 0x10_0000 | 0x20_0000 | 0x80_0000
                    | 0x100_0000 | 0x400_0000 | 0x800_0000 | 0x2000_0000 | 0x4000_0000 | 0x8000_0000
  {}

  // Schoolbook long division: while the dividend has a coefficient above x^31,
  // subtract the generator if the leading one is set and drop it.
  function Remainder(dividend: seq<bool>): seq<bool>
    decreases |dividend|
  {
    if |dividend| <= 32 then dividend
    else if dividend[0] then Remainder(AddAtHead(dividend[1..], Generator()))
    else Remainder(dividend[1..])
  }

  // ---------- the register holds the pending remainder ----------

  lemma {:induction false} LowBitsXor(a: bv32, b: bv32, k: nat, i: nat)
    requires i < k
    ensures LowBits(Xor(a, b), k)[i] == (LowBits(a, k)[i] != LowBits(b, k)[i])
    decreases k
  {
    hide Xor, Odd;
    OddXor(a, b);
    HalfXor(a, b);
    if i > 0 {
      LowBitsXor(a >> 1, b >> 1, k - 1, i - 1);
    }
  }

  lemma {:induction false} LowBitsTop(w: bv32, k: nat)
    requires Fits(w, k)
    ensures LowBits(w, k + 1) == LowBits(w, k) + [false]
    decreases k
  {
    if k > 0 {
      LowBitsTop(w >> 1, k - 1);
      assert LowBits(w, k + 1) == [Odd(w)] + LowBits(w >> 1, k);
    }
  }

  lemma LowBitsHalf(w: bv32)
    ensures LowBits(w >> 1, 32) == LowBits(w, 32)[1..] + [false]
  {
    hide Odd;
    WordFits(w);
    LowBitsTop(w, 32);
    assert LowBits(w, 33)[1..] == LowBits(w >> 1, 32);
  }

  lemma FlipLowKeepsHalf(c: bv32)
    ensures Xor(c, 1) >> 1 == c >> 1
  {}

  lemma ShiftIs(d: bv32, half: bv32)
    requires d >> 1 == half
    ensures Shift(d) == if Odd(d) then Xor(half, POLY) else half
  {}

  lemma BitStepIs(c: bv32, b: bool)
    ensures BitStep(c, b) == if b != Odd(c) then Xor(c >> 1, POLY) else c >> 1
  {
    hide Xor, Odd, Shift;
    if b {
      OneIsOdd();
      OddXor(c, 1);
      FlipLowKeepsHalf(c);
      ShiftIs(Xor(c, 1), c >> 1);
    } else {
      ShiftIs(c, c >> 1);
    }
  }

  lemma GeneratorAtHead(half: bv32, rest: seq<bool>)
    requires 32 <= |rest|
    ensures AddAtHead(rest, LowBits(Xor(half, POLY), 32))
            == AddAtHead(AddAtHead(rest, LowBits(half, 32)), Generator())
  {
    hide Xor, LowBits;
    forall i | 0 <= i < 32
      ensures LowBits(Xor(half, POLY), 32)[i] == (LowBits(half, 32)[i] != Generator()[i])
    {
      LowBitsXor(half, POLY, 32, i);
    }
  }

  lemma DropHead(b: bool, rest: seq<bool>, d: seq<bool>)
    requires |d| == 32 <= |rest|
    ensures AddAtHead([b] + rest, d)[0] == (b != d[0])
    ensures AddAtHead([b] + rest, d)[1..] == AddAtHead(rest, d[1..] + [false])
  {}

  // One division step is one register step.
  lemma DivideOne(c: bv32, b: bool, rest: seq<bool>)
    requires 32 <= |rest|
    ensures var w := AddAtHead([b] + rest, LowBits(c, 32));
            var w' := AddAtHead(rest, LowBits(BitStep(c, b), 32));
            w[0] == (b != Odd(c))
            && w' == if w[0] then AddAtHead(w[1..], Generator()) else w[1..]
  {
    hide Xor, Odd, BitStep, Generator, AddAtHead;
    LowBitsHalf(c);
    BitStepIs(c, b);
    assert LowBits(c, 32)[0] == Odd(c);
    DropHead(b, rest, LowBits(c, 32));
    GeneratorAtHead(c >> 1, rest);
  }

  lemma {:induction false} BitSerialDivides(c: bv32, m: seq<bool>)
    ensures LowBits(FeedBits(c, m), 32) == Remainder(AddAtHead(m + Zeros(32), LowBits(c, 32)))
    decreases |m|
  {
    hide Xor, Odd, BitStep, LowBits;
    if m == [] {
      assert AddAtHead([] + Zeros(32), LowBits(c, 32)) == LowBits(c, 32);
    } else {
      var rest := m[1..] + Zeros(32);
      assert m + Zeros(32) == [m[0]] + rest;
      DivideOne(c, m[0], rest);
      BitSerialDivides(BitStep(c, m[0]), m[1..]);
    }
  }

  lemma AllSetFour(w: bv32, k: nat)
    requires w & 0xF == 0xF && AllSet(w >> 4, k)
    ensures AllSet(w, k + 4)
  {
    assert w >> 1 >> 1 >> 1 >> 1 == w >> 4;
    assert AllSet(w >> 1 >> 1, k + 2);
  }

  lemma OnesBits()
    ensures LowBits(ONES, 32) == Ones(32)
  {
    AllSetFour(0xF, 0);
    AllSetFour(0xFF, 4);
    AllSetFour(0xFFF, 8);
    AllSetFour(0xFFFF, 12);
    AllSetFour(0xF_FFFF, 16);
    AllSetFour(0xFF_FFFF, 20);
    AllSetFour(0xFFF_FFFF, 24);
    AllSetFour(ONES, 28);
    forall i | 0 <= i < 32
      ensures LowBits(ONES, 32)[i]
    {
      OnesBit(ONES, 32, i);
    }
  }

  // The bits of a word whose k lowest bits are all set.
  lemma {:induction false} OnesBit(w: bv32, k: nat, i: nat)
    requires AllSet(w, k) && i < k
    ensures LowBits(w, k)[i]
    decreases k
  {
    if i > 0 {
      OnesBit(w >> 1, k - 1, i - 1);
    }
  }

  ghost predicate AllSet(w: bv32, k: nat) {
    k == 0 || (Odd(w) && AllSet(w >> 1, k - 1))
  }

  // The main result: the table-driven loop is long division by the generator.
  lemma CrcIsLongDivision(s: seq<byte>)
    ensures LowBits(Crc(0, s), 32)
            == Complement(Remainder(AddAtHead(MessageBits(s) + Zeros(32), Ones(32))))
  {
    hide Xor, Odd, LowBits, Register, MessageBits;
    var r := Register(ONES, s);
    XorLaws(ONES, 0, 0);
    RegisterIsBitSerial(ONES, s);
    OnesBits();
    BitSerialDivides(ONES, MessageBits(s));
    forall i | 0 <= i < 32
      ensures LowBits(Xor(r, ONES), 32)[i] == !LowBits(r, 32)[i]
    {
      LowBitsXor(r, ONES, 32, i);
    }
    assert LowBits(Xor(r, ONES), 32) == Complement(LowBits(r, 32));
  }
}
