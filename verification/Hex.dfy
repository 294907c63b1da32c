// util.c: the hex printer and the hex parser.
module Hex {
  import opened Bytes

  const NUL: char := 0 as char

  // ---------- characters ----------

  // isspace in the C locale.
  predicate IsSpace(c: char) {
    c == ' ' || 9 <= c as int <= 13
  }

  predicate NonHex(c: char) {
    !('0' <= c <= '9' || 'A' <= c <= 'F' || 'a' <= c <= 'f')
  }

  // c & ~' ': bit 5 cleared.
  function UpperCase(c: char): char
    requires 'A' <= c <= 'F' || 'a' <= c <= 'f'
  {
    if c as int / 32 % 2 == 1 then (c as int - 32) as char else c
  }

  function HexDigit(v: int): char
    requires 0 <= v < 16
  {
    if v < 10 then (v + '0' as int) as char else (v - 10 + 'A' as int) as char
  }

  function HexValue(c: char): (v: int)
    requires !NonHex(c)
    ensures 0 <= v < 16
  {
    if '0' <= c <= '9' then c as int - '0' as int else UpperCase(c) as int + 10 - 'A' as int
  }

  lemma DigitsRead(v: int)
    requires 0 <= v < 16
    ensures !NonHex(HexDigit(v)) && !IsSpace(HexDigit(v)) && HexDigit(v) != NUL
    ensures HexValue(HexDigit(v)) == v
  {}

  // ---------- printing ----------

  function Pair(b: byte): (s: string)
    ensures |s| == 2
  {
    [HexDigit(b as int / 16), HexDigit(b as int % 16)]
  }

  // What stands before byte i: nothing, or a newline every sixteen bytes, or a space.
  function Separator(i: nat): string {
    if i == 0 then "" else if i % 16 == 0 then "\n" else " "
  }

  // The first k bytes as text, without the newline at the end.
  function Body(d: seq<byte>, k: nat): (s: string)
    requires k <= |d|
    ensures |s| == if k == 0 then 0 else 3 * k - 1
  {
    if k == 0 then "" else Body(d, k - 1) + Separator(k - 1) + Pair(d[k - 1])
  }

  lemma BodyStep(d: seq<byte>, k: nat)
    requires 0 < k <= |d|
    ensures Body(d, k) == Body(d, k - 1) + Separator(k - 1) + Pair(d[k - 1])
  {}

  function HexText(d: seq<byte>): (s: string)
    ensures |s| == if d == [] then 1 else 3 * |d|
  {
    Body(d, |d|) + "\n"
  }

  const DIGITS := "0123456789ABCDEF"

  // Byte i as it stands in the text: two upper-case digits, and what separates it
  // from the next byte.
  ghost predicate ShowsByte(s: string, i: nat, b: byte)
    requires 3 * i + 2 <= |s|
  {
    s[3 * i] == DIGITS[b as int / 16] && s[3 * i + 1] == DIGITS[b as int % 16]
  }

  lemma DigitsShown(v: int)
    requires 0 <= v < 16
    ensures HexDigit(v) == DIGITS[v]
  {}

  lemma {:induction false} BodyLayout(d: seq<byte>, k: nat, i: nat)
    requires i < k <= |d|
    ensures ShowsByte(Body(d, k), i, d[i])
    ensures i + 1 < k ==> Body(d, k)[3 * i + 2] == (if (i + 1) % 16 == 0 then '\n' else ' ')
  {
    hide HexDigit;
    var head := Body(d, k - 1);
    if i < k - 1 {
      BodyLayout(d, k - 1, i);
      assert Body(d, k)[..|head|] == head;
      assert i + 1 == k - 1 ==> Body(d, k)[|head|] == Separator(k - 1)[0];
    } else {
      assert Body(d, k)[3 * i..] == Pair(d[i]);
      DigitsShown(d[i] as int / 16);
      DigitsShown(d[i] as int % 16);
    }
  }

  // Sixteen bytes a line, every line ended.
  lemma TextLayout(d: seq<byte>, i: nat)
    requires i < |d|
    ensures ShowsByte(HexText(d), i, d[i])
    ensures HexText(d)[3 * i + 2] == (if (i + 1) % 16 == 0 || i + 1 == |d| then '\n' else ' ')
  {
    BodyLayout(d, |d|, i);
    assert HexText(d)[..|Body(d, |d|)|] == Body(d, |d|);
  }

  // s as a C string at the start of the buffer.
  ghost predicate Holds(buffer: array<char>, s: string)
    reads buffer
  {
    |s| < buffer.Length && buffer[..|s|] == s && buffer[|s|] == NUL
  }

  // buffer[j] = c, seen as one more character of text.
  method PutChar(buffer: array<char>, j: nat, c: char)
    requires j < buffer.Length
    modifies buffer
    ensures buffer[..j + 1] == old(buffer[..j]) + [c]
  {
    buffer[j] := c;
  }

  // The space already written for the byte still to come.
  function Pending(i: nat, n: nat): string {
    if 0 < i < n && i % 16 != 0 then " " else ""
  }

  // The body of the loop: byte i of d goes out at j.
  method PrintByte(buffer: array<char>, j0: nat, ghost d: seq<byte>, i: nat, n: nat, b: byte) returns (j: nat)
    requires i < n == |d| && b == d[i] && 3 * n < buffer.Length
    requires j0 <= 3 * i && buffer[..j0] == Body(d, i) + Pending(i, n)
    modifies buffer
    ensures j <= 3 * (i + 1) && buffer[..j] == Body(d, i + 1) + Pending(i + 1, n)
  {
    hide HexDigit, Body;
    j := j0;
    ghost var before := Body(d, i);
    BodyStep(d, i + 1);
    if i % 16 == 0 && i != 0 {
      PutChar(buffer, j, '\n');
      j := j + 1;
    }
    assert buffer[..j] == before + Separator(i);
    var higherNibble := b as int / 16;
    var lowerNibble := b as int % 16;
    PutChar(buffer, j, HexDigit(higherNibble));
    PutChar(buffer, j + 1, HexDigit(lowerNibble));
    assert buffer[..j + 2] == before + Separator(i) + Pair(b);
    if i != n - 1 {
      if (i + 1) % 16 == 0 {
        j := j + 2;
      } else {
        PutChar(buffer, j + 2, ' ');
        j := j + 3;
      }
    } else {
      j := j + 2;
    }
  }

  // The text and its terminator take 3n + 1 bytes (2 when n is 0), which the computed
  // allocation covers.
  method BinaryToHex(data: array<byte>, n: nat) returns (buffer: array<char>)
    requires n <= data.Length
    ensures fresh(buffer) && buffer.Length == 3 * n + n / 16 + 2
    ensures Holds(buffer, HexText(data[..n]))
  {
    buffer := new char[3 * n + n / 16 + 2](_ => NUL);
    var i, j := 0, 0;
    ghost var d := data[..n];
    while i < n
      invariant 0 <= i <= n && 0 <= j <= 3 * i
      invariant buffer[..j] == Body(d, i) + Pending(i, n)
    {
      j := PrintByte(buffer, j, d, i, n, data[i]);
      i := i + 1;
    }
    PutChar(buffer, j, '\n');
    PutChar(buffer, j + 1, NUL);
    assert buffer[..j + 2][..j + 1] == HexText(d);
  }

  // ---------- parsing ----------

  function NonSpaces(s: string): (n: nat)
    ensures n <= |s|
  {
    if s == "" then 0 else (if IsSpace(s[0]) then 0 else 1) + NonSpaces(s[1..])
  }

  datatype Decoding = Bytes(value: seq<byte>) | Malformed {
    // The decoding of text that follows the text of `first`.
    function After(first: seq<byte>): Decoding {
      if Bytes? then Bytes(first + value) else Malformed
    }
  }

  function PairByte(high: char, low: char): byte
    requires !NonHex(high) && !NonHex(low)
  {
    (HexValue(high) * 16 + HexValue(low)) as byte
  }

  // White space between pairs is skipped; a pair must stand together.
  function Decode(s: string): Decoding {
    if s == "" then Bytes([])
    else if IsSpace(s[0]) then Decode(s[1..])
    else if |s| == 1 || NonHex(s[0]) || NonHex(s[1]) then Malformed
    else Decode(s[2..]).After([PairByte(s[0], s[1])])
  }

  // What hex_to_binary hands back: NULL, a buffer with *bin_bytes set, or, for white
  // space alone, a buffer with *bin_bytes left as it was.
  datatype Conversion = Null | Buffer(value: seq<byte>) | CountUnset

  function Convert(s: string): Conversion {
    if NonSpaces(s) == 0 then CountUnset
    else
      match Decode(s)
      case Malformed => Null
      case Bytes(value) => Buffer(value)
  }

  // hex up to its terminator, which is at index len.
  ghost predicate IsCString(hex: array<char>, len: nat)
    reads hex
  {
    len < hex.Length && hex[len] == NUL && forall k | 0 <= k < len :: hex[k] != NUL
  }

  method GetSize(hex: array<char>, ghost len: nat) returns (size: nat)
    requires IsCString(hex, len)
    ensures size == NonSpaces(hex[..len])
  {
    size := 0;
    var t := 0;
    while hex[t] != NUL
      invariant 0 <= t <= len
      invariant size + NonSpaces(hex[t..len]) == NonSpaces(hex[..len])
      decreases len - t
    {
      assert hex[t..len][1..] == hex[t + 1..len];
      if !IsSpace(hex[t]) {
        size := size + 1;
      }
      t := t + 1;
    }
  }

  // One turn of the parser's loop, on the text still to come.
  lemma DecodeStep(s: string, done: seq<byte>)
    requires s != ""
    ensures IsSpace(s[0]) ==> Decode(s).After(done) == Decode(s[1..]).After(done) && NonSpaces(s) == NonSpaces(s[1..])
    ensures !IsSpace(s[0]) && |s| == 1 ==> Decode(s) == Malformed
    ensures !IsSpace(s[0]) && |s| > 1 && (NonHex(s[0]) || NonHex(s[1])) ==> Decode(s) == Malformed
    ensures !IsSpace(s[0]) && |s| > 1 && !NonHex(s[0]) && !NonHex(s[1]) ==>
              && Decode(s).After(done) == Decode(s[2..]).After(done + [PairByte(s[0], s[1])])
              && NonSpaces(s) == 2 + NonSpaces(s[2..])
  {
    hide PairByte, IsSpace, NonHex;
    if !IsSpace(s[0]) && |s| > 1 && !NonHex(s[0]) && !NonHex(s[1]) {
      assert s[1..][1..] == s[2..];
      HexIsNotSpace(s[1]);
      AfterTwice(Decode(s[2..]), done, [PairByte(s[0], s[1])]);
    }
  }

  lemma HexIsNotSpace(c: char)
    requires !NonHex(c)
    ensures !IsSpace(c)
  {}

  // Writes past the buffer of one byte for each character that is not white space are
  // impossible: each byte written used two of them.
  method HexToBinary(hex: array<char>, ghost len: nat) returns (result: Conversion)
    requires IsCString(hex, len)
    ensures result == Convert(hex[..len])
  {
    hide PairByte, NonHex, IsSpace, Decode, NonSpaces;
    var size := GetSize(hex, len);
    if size == 0 {
      return CountUnset;
    }
    var buffer := new byte[size](_ => 0);
    ghost var s := hex[..len];
    var i, t := 0, 0;
    EmptyDecodes();
    assert hex[0..len] == s;
    while hex[t] != NUL
      invariant 0 <= t <= len && i <= size
      invariant 2 * i + NonSpaces(hex[t..len]) <= size
      invariant Decode(s) == Decode(hex[t..len]).After(buffer[..i])
      decreases len - t
    {
      ghost var rest := hex[t..len];
      DecodeStep(rest, buffer[..i]);
      assert rest[1..] == hex[t + 1..len];
      if IsSpace(hex[t]) {
        t := t + 1;
      } else {
        if hex[t + 1] == NUL {
          return Null;
        }
        assert rest[2..] == hex[t + 2..len];
        var high, low := hex[t], hex[t + 1];
        if NonHex(high) || NonHex(low) {
          return Null;
        }
        buffer[i] := PairByte(high, low);
        i := i + 1;
        assert buffer[..i] == buffer[..i - 1] + [buffer[i - 1]];
        t := t + 2;
      }
    }
    assert hex[t..len] == "";
    return Buffer(buffer[..i]);
  }

  // ---------- the round trip ----------

  lemma DecodeUnfold(s: string)
    requires s != ""
    ensures IsSpace(s[0]) ==> Decode(s) == Decode(s[1..])
    ensures !IsSpace(s[0]) && (|s| == 1 || NonHex(s[0]) || NonHex(s[1])) ==> Decode(s) == Malformed
    ensures !IsSpace(s[0]) && |s| > 1 && !NonHex(s[0]) && !NonHex(s[1]) ==>
              Decode(s) == Decode(s[2..]).After([PairByte(s[0], s[1])])
  {
    hide PairByte, IsSpace, NonHex;
  }

  // Text that decodes stays decoded, whatever follows it.
  lemma {:induction false} DecodeAppend(a: string, b: string)
    requires Decode(a).Bytes?
    ensures Decode(a + b) == Decode(b).After(Decode(a).value)
    decreases |a|
  {
    hide PairByte, NonHex, IsSpace, NonSpaces, Decode;
    if a == "" {
      assert a + b == b;
      EmptyDecodes();
      AfterNothing(Decode(b));
    } else {
      DecodeUnfold(a);
      DecodeUnfold(a + b);
      if IsSpace(a[0]) {
        assert (a + b)[1..] == a[1..] + b;
        DecodeAppend(a[1..], b);
      } else {
        assert (a + b)[2..] == a[2..] + b;
        DecodeAppend(a[2..], b);
        AfterTwice(Decode(b), [PairByte(a[0], a[1])], Decode(a[2..]).value);
      }
    }
  }

  lemma AfterNothing(r: Decoding)
    ensures r.After([]) == r
  {
    if r.Bytes? {
      assert [] + r.value == r.value;
    }
  }

  lemma AfterTwice(r: Decoding, first: seq<byte>, second: seq<byte>)
    ensures r.After(second).After(first) == r.After(first + second)
  {
    if r.Bytes? {
      assert first + (second + r.value) == first + second + r.value;
    }
  }

  lemma PairDecodes(b: byte)
    ensures Decode(Pair(b)) == Bytes([b])
  {
    DigitsRead(b as int / 16);
    DigitsRead(b as int % 16);
    assert Pair(b)[2..] == "";
  }

  lemma SeparatorDecodes(i: nat)
    ensures Decode(Separator(i)) == Bytes([])
  {}

  lemma {:induction false} BodyDecodes(d: seq<byte>, k: nat)
    requires k <= |d|
    ensures Decode(Body(d, k)) == Bytes(d[..k])
  {
    hide Pair, Decode, Separator;
    if k > 0 {
      BodyDecodes(d, k - 1);
      SeparatorDecodes(k - 1);
      PairDecodes(d[k - 1]);
      DecodeAppend(Body(d, k - 1), Separator(k - 1));
      DecodeAppend(Body(d, k - 1) + Separator(k - 1), Pair(d[k - 1]));
      assert d[..k] == d[..k - 1] + [d[k - 1]];
    } else {
      EmptyDecodes();
    }
  }

  lemma EmptyDecodes()
    ensures Decode("") == Bytes([]) && Decode("\n") == Bytes([])
  {}

  lemma {:induction false} NonSpacesAppend(a: string, b: string)
    ensures NonSpaces(a + b) == NonSpaces(a) + NonSpaces(b)
    decreases |a|
  {
    if a == "" {
      assert a + b == b;
    } else {
      assert (a + b)[1..] == a[1..] + b;
      NonSpacesAppend(a[1..], b);
    }
  }

  lemma PairSpaces(b: byte)
    ensures NonSpaces(Pair(b)) == 2
  {
    DigitsRead(b as int / 16);
    DigitsRead(b as int % 16);
    assert Pair(b)[1..][1..] == "";
  }

  lemma {:induction false} BodySpaces(d: seq<byte>, k: nat)
    requires k <= |d|
    ensures NonSpaces(Body(d, k)) == 2 * k
  {
    hide Pair;
    if k > 0 {
      BodySpaces(d, k - 1);
      PairSpaces(d[k - 1]);
      NonSpacesAppend(Body(d, k - 1), Separator(k - 1));
      NonSpacesAppend(Body(d, k - 1) + Separator(k - 1), Pair(d[k - 1]));
    }
  }

  // Printing then parsing gives the bytes back, except that no bytes at all print as a
  // lone newline, which the parser answers without a count.
  lemma HexRoundTrip(d: seq<byte>)
    ensures Convert(HexText(d)) == if d == [] then CountUnset else Buffer(d)
  {
    BodyDecodes(d, |d|);
    BodySpaces(d, |d|);
    EmptyDecodes();
    DecodeAppend(Body(d, |d|), "\n");
    NonSpacesAppend(Body(d, |d|), "\n");
    assert d[..|d|] == d;
  }

  // ---------- what text means ----------

  const LOWER_DIGITS := "0123456789abcdef"

  lemma SpaceIff(c: char)
    ensures IsSpace(c) <==> c in [' ', '\t', '\n', 11 as char, 12 as char, '\r']
  {}

  // A digit is read for what it is in either case, and nothing else is one.
  lemma DigitIff(c: char)
    ensures !NonHex(c) <==> exists v | 0 <= v < 16 :: c == DIGITS[v] || c == LOWER_DIGITS[v]
    ensures !NonHex(c) ==> DIGITS[HexValue(c)] == c || LOWER_DIGITS[HexValue(c)] == c
  {
    if v :| 0 <= v < 16 && (c == DIGITS[v] || c == LOWER_DIGITS[v]) {
      DigitValues(v);
    }
    if !NonHex(c) {
      DigitOf(c);
    }
  }

  lemma DigitOf(c: char)
    requires !NonHex(c)
    ensures DIGITS[HexValue(c)] == c || LOWER_DIGITS[HexValue(c)] == c
  {}

  lemma DigitValues(v: int)
    requires 0 <= v < 16
    ensures !NonHex(DIGITS[v]) && HexValue(DIGITS[v]) == v
    ensures !NonHex(LOWER_DIGITS[v]) && HexValue(LOWER_DIGITS[v]) == v
  {}

  // Character k of s is white space; or a digit which, if an even number of digits goes
  // before it, forms with the digit right after it the next byte of d.
  ghost predicate StandsFor(s: string, d: seq<byte>, k: nat)
    requires k < |s|
  {
    IsSpace(s[k]) ||
    (!NonHex(s[k]) &&
     var n := NonSpaces(s[..k]);
     n % 2 == 0 ==>
       && k + 1 < |s| && !NonHex(s[k + 1])
       && n / 2 < |d| && d[n / 2] as int == 16 * HexValue(s[k]) + HexValue(s[k + 1]))
  }

  ghost predicate Spells(s: string, d: seq<byte>) {
    NonSpaces(s) == 2 * |d| && forall k: nat | k < |s| :: StandsFor(s, d, k)
  }

  // s with `n` characters before it that hold `digits` digits.
  lemma DigitsBefore(s: string, n: nat, k: nat)
    requires n <= k <= |s|
    ensures NonSpaces(s[..k]) == NonSpaces(s[..n]) + NonSpaces(s[n..][..k - n])
  {
    assert s[..k] == s[..n] + s[n..][..k - n];
    NonSpacesAppend(s[..n], s[n..][..k - n]);
  }

  lemma StandsAfterSpace(s: string, d: seq<byte>, k: nat)
    requires k + 1 < |s| && IsSpace(s[0])
    ensures StandsFor(s, d, k + 1) <==> StandsFor(s[1..], d, k)
  {
    hide IsSpace, NonHex, HexValue;
    DigitsBefore(s, 1, k + 1);
    OneCharacter(s);
  }

  lemma OneCharacter(s: string)
    requires s != ""
    ensures NonSpaces(s[..1]) == if IsSpace(s[0]) then 0 else 1
  {
    assert s[..1][1..] == "";
  }

  lemma TwoDigits(s: string)
    requires |s| >= 2 && !IsSpace(s[0]) && !IsSpace(s[1])
    ensures NonSpaces(s[..1]) == 1 && NonSpaces(s[..2]) == 2
  {
    OneCharacter(s);
    OneCharacter(s[1..]);
    DigitsBefore(s, 1, 2);
  }

  lemma StandsAfterPair(s: string, d: seq<byte>, k: nat)
    requires k + 2 < |s| && !IsSpace(s[0]) && !IsSpace(s[1]) && d != []
    ensures StandsFor(s, d, k + 2) <==> StandsFor(s[2..], d[1..], k)
  {
    hide IsSpace, NonHex, HexValue, NonSpaces;
    var n := NonSpaces(s[2..][..k]);
    DigitsBefore(s, 2, k + 2);
    TwoDigits(s);
    assert (n + 2) % 2 == n % 2 && (n + 2) / 2 == n / 2 + 1;
    assert n / 2 + 1 < |d| ==> d[n / 2 + 1] == d[1..][n / 2];
  }

  lemma SpellsAfterSpace(s: string, d: seq<byte>)
    requires s != "" && IsSpace(s[0])
    ensures Spells(s, d) <==> Spells(s[1..], d)
  {
    hide IsSpace, StandsFor;
    assert StandsFor(s, d, 0) by { SpaceStands(s, d); }
    forall k: nat | k < |s| - 1
      ensures StandsFor(s, d, k + 1) <==> StandsFor(s[1..], d, k)
    {
      StandsAfterSpace(s, d, k);
    }
    assert forall k: nat | 0 < k < |s| :: StandsFor(s, d, k) <==> StandsFor(s[1..], d, k - 1);
  }

  lemma SpaceStands(s: string, d: seq<byte>)
    requires s != "" && IsSpace(s[0])
    ensures StandsFor(s, d, 0)
  {}

  lemma PairStands(s: string, d: seq<byte>)
    requires |s| >= 2 && !NonHex(s[0]) && !NonHex(s[1]) && d != []
    ensures StandsFor(s, d, 0) <==> d[0] == PairByte(s[0], s[1])
    ensures StandsFor(s, d, 1)
  {
    HexIsNotSpace(s[0]);
    HexIsNotSpace(s[1]);
    TwoDigits(s);
    assert s[..0] == "";
  }

  lemma SpellsAfterPair(s: string, d: seq<byte>)
    requires |s| >= 2 && !NonHex(s[0]) && !NonHex(s[1])
    ensures Spells(s, d) <==> d != [] && d[0] == PairByte(s[0], s[1]) && Spells(s[2..], d[1..])
  {
    hide IsSpace, NonHex, StandsFor, NonSpaces, PairByte;
    HexIsNotSpace(s[0]);
    HexIsNotSpace(s[1]);
    TwoDigits(s);
    DigitsBefore(s, 2, |s|);
    assert s[..|s|] == s && s[2..][..|s| - 2] == s[2..];
    if d != [] {
      PairStands(s, d);
      forall k: nat | k < |s| - 2
        ensures StandsFor(s, d, k + 2) <==> StandsFor(s[2..], d[1..], k)
      {
        StandsAfterPair(s, d, k);
      }
      assert forall k: nat | 2 <= k < |s| :: StandsFor(s, d, k) <==> StandsFor(s[2..], d[1..], k - 2);
    }
  }

  lemma Misspelt(s: string, d: seq<byte>)
    requires s != "" && !IsSpace(s[0]) && (|s| == 1 || NonHex(s[0]) || NonHex(s[1]))
    ensures !Spells(s, d)
  {
    assert s[..0] == "";
    assert !StandsFor(s, d, 0);
  }

  // What text converts to, by position: it must hold digits in pairs that stand together,
  // with white space anywhere else, and each pair is one byte.
  lemma {:induction false} DecodeIff(s: string, d: seq<byte>)
    ensures Decode(s) == Bytes(d) <==> Spells(s, d)
    decreases |s|
  {
    hide IsSpace, NonHex, PairByte, Decode, Spells;
    if s == "" {
      EmptyDecodes();
      NothingSpelt(d);
    } else {
      DecodeUnfold(s);
      if IsSpace(s[0]) {
        SpellsAfterSpace(s, d);
        DecodeIff(s[1..], d);
      } else if |s| == 1 || NonHex(s[0]) || NonHex(s[1]) {
        Misspelt(s, d);
      } else {
        SpellsAfterPair(s, d);
        if d != [] {
          DecodeIff(s[2..], d[1..]);
          assert d == [d[0]] + d[1..];
        }
      }
    }
  }

  lemma NothingSpelt(d: seq<byte>)
    ensures Spells("", d) <==> d == []
  {}

  // t is s with any of its letters put in lower case.
  ghost predicate Lowered(s: string, t: string) {
    && |t| == |s|
    && forall k: nat | k < |s| ::
         t[k] == s[k] || ('A' <= s[k] <= 'F' && t[k] as int == s[k] as int + 32)
  }

  lemma {:induction false} LoweredDecodes(s: string, t: string)
    requires Lowered(s, t)
    ensures Decode(t) == Decode(s) && NonSpaces(t) == NonSpaces(s)
    decreases |s|
  {
    hide IsSpace, NonHex, HexValue, Decode;
    if s != "" {
      DecodeUnfold(s);
      DecodeUnfold(t);
      LoweredDigit(s[0], t[0]);
      LoweredDecodes(s[1..], t[1..]);
      if |s| >= 2 {
        LoweredDigit(s[1], t[1]);
        LoweredDecodes(s[2..], t[2..]);
      }
    }
  }

  lemma LoweredDigit(c: char, e: char)
    requires e == c || ('A' <= c <= 'F' && e as int == c as int + 32)
    ensures IsSpace(e) == IsSpace(c) && NonHex(e) == NonHex(c)
    ensures !NonHex(c) ==> HexValue(e) == HexValue(c)
  {}

  // Printed text reads back whatever the case of its letters.
  lemma AnyCaseReads(d: seq<byte>, t: string)
    requires d != [] && Lowered(HexText(d), t)
    ensures Convert(t) == Buffer(d)
  {
    hide Decode, HexText, NonSpaces;
    LoweredDecodes(HexText(d), t);
    HexRoundTrip(d);
  }
}
