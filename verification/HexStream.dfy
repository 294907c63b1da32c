// hexdump.c and hexread.c, file mode: printing and parsing a file read in chunks.
module HexStream {
  import opened Bytes
  import opened Hex

  const DUMP_GROUP: nat := 16
  const READ_DIGITS: nat := 32
  const READ_BUFFER: nat := 48

  // What successive read() calls return, joined.
  function Flatten<T>(chunks: seq<seq<T>>): seq<T> {
    if chunks == [] then [] else chunks[0] + Flatten(chunks[1..])
  }

  // ---------- hexdump ----------

  // The text still to come, with `pending` in the group buffer and d unread.
  function DumpFrom(pending: seq<byte>, d: seq<byte>): string
    requires |pending| < DUMP_GROUP
    decreases |d|
  {
    if d == [] then
      if pending == [] then "" else HexText(pending)
    else
      var group := pending + [d[0]];
      if |group| == DUMP_GROUP then HexText(group) + DumpFrom([], d[1..])
      else DumpFrom(group, d[1..])
  }

  ghost predicate NoNul(s: string) {
    forall k | 0 <= k < |s| :: s[k] != NUL
  }

  lemma {:induction false} BodyHasNoNul(d: seq<byte>, k: nat)
    requires k <= |d|
    ensures NoNul(Body(d, k))
  {
    hide HexDigit;
    if k > 0 {
      BodyHasNoNul(d, k - 1);
      DigitsRead(d[k - 1] as int / 16);
      DigitsRead(d[k - 1] as int % 16);
      assert NoNul(Pair(d[k - 1])) && NoNul(Separator(k - 1));
    }
  }

  // binary_to_hex and a write of strlen of its result.
  method Emit(group: array<byte>, n: nat) returns (text: string)
    requires n <= group.Length
    ensures text == HexText(group[..n])
  {
    hide HexText;
    var buffer := BinaryToHex(group, n);
    ghost var s := HexText(group[..n]);
    TextHasNoNul(group[..n]);
    assert forall k | 0 <= k < |s| :: buffer[k] == buffer[..|s|][k] == s[k];
    var length := 0;
    while buffer[length] != NUL
      invariant 0 <= length <= |s|
      decreases |s| - length
    {
      length := length + 1;
    }
    text := buffer[..length];
  }

  lemma TextHasNoNul(d: seq<byte>)
    ensures NoNul(HexText(d))
  {
    BodyHasNoNul(d, |d|);
  }

  method HexDump(chunks: seq<seq<byte>>) returns (output: string)
    ensures output == DumpFrom([], Flatten(chunks))
  {
    hide HexText;
    var buffer := new byte[DUMP_GROUP](_ => 0);
    var counter := 0;
    output := "";
    ghost var whole := Flatten(chunks);
    assert chunks[0..] == chunks;
    for c := 0 to |chunks|
      invariant counter < DUMP_GROUP
      invariant output + DumpFrom(buffer[..counter], Flatten(chunks[c..])) == DumpFrom([], whole)
    {
      var chunk := chunks[c];
      ghost var later := Flatten(chunks[c + 1..]);
      assert chunks[c..][1..] == chunks[c + 1..];
      assert Flatten(chunks[c..]) == chunk[0..] + later;
      for i := 0 to |chunk|
        invariant counter < DUMP_GROUP
        invariant output + DumpFrom(buffer[..counter], chunk[i..] + later) == DumpFrom([], whole)
      {
        ghost var todo := chunk[i..] + later;
        assert todo[0] == chunk[i] && todo[1..] == chunk[i + 1..] + later;
        buffer[counter] := chunk[i];
        counter := counter + 1;
        assert buffer[..counter] == buffer[..counter - 1] + [chunk[i]];
        if counter == DUMP_GROUP {
          var text := Emit(buffer, DUMP_GROUP);
          output := output + text;
          counter := 0;
        }
      }
      assert chunk[|chunk|..] + later == later;
    }
    if counter > 0 {
      var text := Emit(buffer, counter);
      output := output + text;
    }
  }

  // ---------- the dump is the text of the whole ----------

  lemma {:induction false} SameBody(d: seq<byte>, e: seq<byte>, k: nat)
    requires k <= |d| && k <= |e| && d[..k] == e[..k]
    ensures Body(d, k) == Body(e, k)
  {
    if k > 0 {
      assert d[..k][k - 1] == d[k - 1] && e[..k][k - 1] == e[k - 1];
      assert d[..k - 1] == d[..k][..k - 1] && e[..k - 1] == e[..k][..k - 1];
      SameBody(d, e, k - 1);
    }
  }

  lemma Reassociate(a: string, b: string, c: string, d: string, e: string)
    ensures a + b + c + d + e == a + b + (c + d + e)
  {}

  lemma {:induction false} BodySplits(g: seq<byte>, r: seq<byte>, k: nat)
    requires |g| == DUMP_GROUP && 0 < k <= |r|
    ensures Body(g + r, DUMP_GROUP + k) == Body(g, DUMP_GROUP) + "\n" + Body(r, k)
    decreases k
  {
    hide Pair, Body, Separator;
    var d, pair := g + r, Pair(r[k - 1]);
    assert d[DUMP_GROUP + k - 1] == r[k - 1];
    BodyStep(d, DUMP_GROUP + k);
    BodyStep(r, k);
    Separators(k - 1);
    if k == 1 {
      SameBody(d, g, DUMP_GROUP);
      EmptyBody(r);
    } else {
      BodySplits(g, r, k - 1);
      Reassociate(Body(g, DUMP_GROUP), "\n", Body(r, k - 1), Separator(k - 1), pair);
    }
  }

  lemma EmptyBody(d: seq<byte>)
    ensures Body(d, 0) == "" && Separator(0) == ""
  {}

  lemma Separators(i: nat)
    ensures Separator(DUMP_GROUP + i) == if i == 0 then "\n" else Separator(i)
  {}

  // Sixteen bytes make a line of their own.
  lemma TextSplits(g: seq<byte>, r: seq<byte>)
    requires |g| == DUMP_GROUP && r != []
    ensures HexText(g + r) == HexText(g) + HexText(r)
  {
    hide Body;
    BodySplits(g, r, |r|);
  }

  lemma {:induction false} DumpFromIsText(pending: seq<byte>, d: seq<byte>)
    requires |pending| < DUMP_GROUP
    ensures DumpFrom(pending, d) == if pending + d == [] then "" else HexText(pending + d)
    decreases |d|
  {
    hide HexText;
    if d == [] {
      assert pending + d == pending;
    } else {
      var group := pending + [d[0]];
      assert pending + d == group + d[1..];
      if |group| == DUMP_GROUP {
        DumpFromIsText([], d[1..]);
        assert [] + d[1..] == d[1..];
        if d[1..] != [] {
          TextSplits(group, d[1..]);
        } else {
          assert group + d[1..] == group;
        }
      } else {
        DumpFromIsText(group, d[1..]);
      }
    }
  }

  // However the file is cut into chunks, hexdump prints what binary_to_hex would print
  // for the whole of it at once, except that an empty file prints nothing.
  lemma DumpIsWholeText(d: seq<byte>)
    ensures DumpFrom([], d) == if d == [] then "" else HexText(d)
  {
    DumpFromIsText([], d);
    assert [] + d == d;
  }

  // ---------- hexread ----------

  // Undefined: the code writes past its group buffer, or writes out a number of bytes
  // hex_to_binary never set.
  datatype Outcome = Written(output: seq<byte>) | Rejected | Undefined {
    function After(first: seq<byte>): Outcome {
      if Written? then Written(first + output) else this
    }
  }

  // A null-terminated copy ends at the first NUL of what was copied.
  function Cut(s: string): (r: string)
    ensures |r| <= |s|
    ensures forall k | 0 <= k < |r| :: r[k] == s[k] != NUL
    ensures |r| < |s| ==> s[|r|] == NUL
  {
    if s == "" || s[0] == NUL then "" else [s[0]] + Cut(s[1..])
  }

  // What is still to be written, with `pending` in the group buffer and text unread.
  function ReadFrom(pending: string, text: string): Outcome
    decreases |text|
  {
    if text == "" then
      if pending == "" then Written([]) else Flush(pending, Written([]))
    else if |pending| >= READ_BUFFER then Undefined
    else
      var group := pending + [text[0]];
      if NonSpaces(group) == READ_DIGITS then Flush(group, ReadFrom("", text[1..]))
      else ReadFrom(group, text[1..])
  }

  // One group decoded, then the rest.
  function Flush(group: string, rest: Outcome): Outcome {
    match Convert(Cut(group))
    case Null => Rejected
    case CountUnset => Undefined
    case Buffer(value) => rest.After(value)
  }

  lemma {:induction false} AppendOne(s: string, c: char)
    ensures NonSpaces(s + [c]) == NonSpaces(s) + if IsSpace(c) then 0 else 1
  {
    NonSpacesAppend(s, [c]);
    assert [c][1..] == "";
  }

  // The null-terminated copy of the group buffer, converted.
  method ConvertGroup(group: array<char>, n: nat) returns (result: Conversion)
    requires n <= group.Length
    ensures result == Convert(Cut(group[..n]))
  {
    hide Convert, Cut;
    var copy := new char[n + 1](_ => NUL);
    for k := 0 to n
      invariant copy[..k] == group[..k]
      invariant forall j | k <= j <= n :: copy[j] == NUL
    {
      copy[k] := group[k];
      assert copy[..k + 1] == copy[..k] + [group[k]];
    }
    ghost var s := group[..n];
    ghost var len := |Cut(s)|;
    assert forall k | 0 <= k < len :: copy[k] == s[k];
    assert copy[..len] == Cut(s);
    result := HexToBinary(copy, len);
  }

  method HexRead(chunks: seq<string>) returns (outcome: Outcome)
    ensures outcome == ReadFrom("", Flatten(chunks))
  {
    hide Convert, Cut;
    var buffer := new char[READ_BUFFER](_ => NUL);
    var counter, valid := 0, 0;
    var output: seq<byte> := [];
    ghost var whole := ReadFrom("", Flatten(chunks));
    assert chunks[0..] == chunks;
    OutcomeAfterNothing(whole);
    for c := 0 to |chunks|
      invariant 0 <= counter <= READ_BUFFER && valid == NonSpaces(buffer[..counter])
      invariant whole == ReadFrom(buffer[..counter], Flatten(chunks[c..])).After(output)
    {
      var chunk := chunks[c];
      ghost var later := Flatten(chunks[c + 1..]);
      assert chunks[c..][1..] == chunks[c + 1..];
      assert Flatten(chunks[c..]) == chunk[0..] + later;
      for i := 0 to |chunk|
        invariant 0 <= counter <= READ_BUFFER && valid == NonSpaces(buffer[..counter])
        invariant whole == ReadFrom(buffer[..counter], chunk[i..] + later).After(output)
      {
        ghost var todo := chunk[i..] + later;
        assert todo[0] == chunk[i] && todo[1..] == chunk[i + 1..] + later;
        if counter >= READ_BUFFER {
          return Undefined;
        }
        AppendOne(buffer[..counter], chunk[i]);
        if !IsSpace(chunk[i]) {
          valid := valid + 1;
        }
        buffer[counter] := chunk[i];
        counter := counter + 1;
        assert buffer[..counter] == buffer[..counter - 1] + [chunk[i]];
        if valid == READ_DIGITS {
          var binary := ConvertGroup(buffer, counter);
          match binary {
            case Null => return Rejected;
            case CountUnset => return Undefined;
            case Buffer(value) =>
              OutcomeAfterTwice(ReadFrom("", chunk[i + 1..] + later), output, value);
              output := output + value;
          }
          counter := 0;
          valid := 0;
        }
      }
      assert chunk[|chunk|..] + later == later;
    }
    if counter > 0 {
      var binary := ConvertGroup(buffer, counter);
      match binary {
        case Null => return Rejected;
        case CountUnset => return Undefined;
        case Buffer(value) => output := output + value;
      }
    }
    return Written(output);
  }

  lemma OutcomeAfterNothing(o: Outcome)
    ensures o.After([]) == o
  {
    if o.Written? {
      assert [] + o.output == o.output;
    }
  }

  lemma OutcomeAfterTwice(o: Outcome, first: seq<byte>, second: seq<byte>)
    ensures o.After(second).After(first) == o.After(first + second)
  {
    if o.Written? {
      assert first + (second + o.output) == first + second + o.output;
    }
  }

  // ---------- grouped reading agrees with reading the whole ----------

  lemma {:induction false} CutNothing(s: string)
    requires NoNul(s)
    ensures Cut(s) == s
  {
    if s != "" {
      CutNothing(s[1..]);
    }
  }

  // Malformed text with no digit left over stays malformed, whatever follows it.
  lemma {:induction false} MalformedAppend(a: string, b: string)
    requires Decode(a) == Malformed && NonSpaces(a) % 2 == 0
    ensures Decode(a + b) == Malformed
    decreases |a|
  {
    hide PairByte, NonHex, IsSpace, Decode;
    if a == "" {
      EmptyDecodes();
    } else {
      DecodeStep(a, []);
      DecodeStep(a + b, []);
      assert (a + b)[1..] == a[1..] + b;
      if IsSpace(a[0]) {
        MalformedAppend(a[1..], b);
      } else if |a| > 1 && !NonHex(a[0]) && !NonHex(a[1]) {
        assert (a + b)[2..] == a[2..] + b;
        MalformedAppend(a[2..], b);
      }
    }
  }

  // What reading a whole text at once would give.
  function Whole(s: string): Outcome {
    match Decode(s)
    case Malformed => Rejected
    case Bytes(value) => Written(value)
  }

  lemma WholeAppend(group: string, text: string)
    requires NonSpaces(group) == READ_DIGITS && NoNul(group)
    ensures Whole(group + text) == Flush(group, Whole(text))
  {
    hide Decode;
    CutNothing(group);
    if Decode(group).Bytes? {
      DecodeAppend(group, text);
    } else {
      MalformedAppend(group, text);
    }
  }

  // Position p is where the first group starts, or the character before it completed
  // the 32 digits of the last one.
  ghost predicate GroupStart(s: string, p: nat)
    requires p <= |s|
  {
    NonSpaces(s[..p]) % READ_DIGITS == 0 && (p == 0 || !IsSpace(s[p - 1]))
  }

  // The group that starts at p has not had its 32 digits when the buffer is full and
  // more is read, or nothing but white space is left.
  ghost predicate Breaks(s: string, p: nat)
    requires p <= |s|
  {
    || (p + READ_BUFFER < |s| && NonSpaces(s[p..p + READ_BUFFER]) < READ_DIGITS)
    || (p < |s| && NonSpaces(s[p..]) == 0)
  }

  // Such a group is met, and not after text that had already been rejected.
  ghost predicate BreaksAt(s: string, p: nat) {
    p <= |s| && GroupStart(s, p) && Decode(s[..p]).Bytes? && Breaks(s, p)
  }

  ghost predicate Misread(s: string) {
    exists p: nat :: BreaksAt(s, p)
  }

  lemma NonSpacesOf(s: string, p: nat)
    requires p <= |s|
    ensures NonSpaces(s) == NonSpaces(s[..p]) + NonSpaces(s[p..])
  {
    hide NonSpaces;
    NonSpacesAppend(s[..p], s[p..]);
    assert s[..p] + s[p..] == s;
  }

  lemma EndsInDigit(s: string, p: nat)
    requires 0 < p <= |s| && !IsSpace(s[p - 1])
    ensures NonSpaces(s[..p]) == NonSpaces(s[..p - 1]) + 1
  {
    hide IsSpace, NonSpaces;
    AppendOne(s[..p - 1], s[p - 1]);
    assert s[..p] == s[..p - 1] + [s[p - 1]];
  }

  // Before its last digit a group is short of 32 digits, and after a digit it has at
  // least one, so no other group starts inside it.
  lemma NoStartInside(s: string, p: nat, n: nat)
    requires 0 < p < n <= |s| && NonSpaces(s[..n]) <= READ_DIGITS && !IsSpace(s[n - 1])
    ensures !GroupStart(s, p)
  {
    hide IsSpace, NonSpaces;
    EndsInDigit(s, n);
    NonSpacesOf(s[..n - 1], p);
    assert s[..n - 1][..p] == s[..p];
    if !IsSpace(s[p - 1]) {
      EndsInDigit(s, p);
    }
  }

  // A group of fewer than 32 digits that ends the text goes wrong only by being blank.
  lemma LastGroup(s: string)
    requires |s| <= READ_BUFFER && NonSpaces(s) < READ_DIGITS
    ensures Misread(s) <==> s != "" && NonSpaces(s) == 0
  {
    hide IsSpace, NonSpaces, Decode;
    NoNonSpaces();
    EmptyDecodes();
    assert s[..0] == "" && s[0..] == s;
    if s != "" && NonSpaces(s) == 0 {
      assert BreaksAt(s, 0);
    }
    forall p: nat | 0 < p <= |s|
      ensures !GroupStart(s, p)
    {
      NonSpacesOf(s, p);
      if !IsSpace(s[p - 1]) {
        EndsInDigit(s, p);
      }
    }
  }

  // What stands after a prefix of the text breaks there as it does alone.
  lemma BreaksSuffix(group: string, text: string, p: nat)
    requires p <= |text|
    ensures Breaks(group + text, |group| + p) <==> Breaks(text, p)
  {
    hide NonSpaces;
    var s, q := group + text, |group| + p;
    assert s[q..] == text[p..];
    assert p + READ_BUFFER < |text| ==> s[q..q + READ_BUFFER] == text[p..p + READ_BUFFER];
  }

  lemma StartShift(group: string, text: string, p: nat)
    requires NonSpaces(group) == READ_DIGITS && group != "" && !IsSpace(group[|group| - 1])
    requires p <= |text|
    ensures GroupStart(group + text, |group| + p) <==> GroupStart(text, p)
  {
    hide IsSpace, NonSpaces, GroupStart;
    var s, q, n := group + text, |group| + p, NonSpaces(text[..p]);
    assert s[..q] == group + text[..p];
    NonSpacesAppend(group, text[..p]);
    StartIs(s, q, READ_DIGITS + n);
    StartIs(text, p, n);
    if p == 0 {
      NoNonSpaces();
      assert text[..p] == "";
    } else {
      assert s[q - 1] == text[p - 1];
    }
  }

  lemma StartIs(s: string, p: nat, n: nat)
    requires p <= |s| && NonSpaces(s[..p]) == n
    ensures GroupStart(s, p) <==> n % READ_DIGITS == 0 && (p == 0 || !IsSpace(s[p - 1]))
  {
    hide IsSpace, NonSpaces;
  }

  lemma DecodePrefix(group: string, more: string)
    requires NonSpaces(group) % 2 == 0
    ensures Decode(group + more).Bytes? <==> Decode(group).Bytes? && Decode(more).Bytes?
  {
    hide IsSpace, NonSpaces, Decode;
    if Decode(group).Bytes? {
      DecodeAppend(group, more);
    } else {
      MalformedAppend(group, more);
    }
  }

  // Past a full group the same positions break as in what follows it.
  lemma BreaksShift(group: string, text: string, p: nat)
    requires NonSpaces(group) == READ_DIGITS && group != "" && !IsSpace(group[|group| - 1])
    requires p <= |text|
    ensures BreaksAt(group + text, |group| + p) <==> Decode(group).Bytes? && BreaksAt(text, p)
  {
    hide IsSpace, NonSpaces, Decode, Breaks, GroupStart;
    assert (group + text)[..|group| + p] == group + text[..p];
    StartShift(group, text, p);
    BreaksSuffix(group, text, p);
    DecodePrefix(group, text[..p]);
  }

  lemma FullGroupHolds(group: string, text: string)
    requires |group| <= READ_BUFFER && NonSpaces(group) == READ_DIGITS
    ensures !Breaks(group + text, 0)
  {
    hide NonSpaces;
    var s, n := group + text, |group|;
    assert s[..n] == group && s[0..] == s;
    NonSpacesOf(s, n);
    if READ_BUFFER < |s| {
      NonSpacesOf(s[0..READ_BUFFER], n);
      assert s[0..READ_BUFFER][..n] == group;
    }
  }

  // The first group of s, when it fills its 32 digits inside the buffer.
  lemma FirstGroup(group: string, text: string)
    requires 0 < |group| <= READ_BUFFER && NonSpaces(group) == READ_DIGITS && !IsSpace(group[|group| - 1])
    ensures Misread(group + text) <==> Decode(group).Bytes? && Misread(text)
  {
    hide IsSpace, NonSpaces, Decode, Breaks, BreaksAt;
    var s, n := group + text, |group|;
    if Decode(group).Bytes? && Misread(text) {
      var p: nat :| BreaksAt(text, p);
      BreaksPosition(text, p);
      BreaksShift(group, text, p);
    }
    if q: nat :| BreaksAt(s, q) {
      BreaksPosition(s, q);
      FullGroupHolds(group, text);
      assert s[..n] == group;
      if q < n {
        NoStartInside(s, q, n);
      } else {
        BreaksShift(group, text, q - n);
      }
    }
  }

  lemma BreaksPosition(s: string, p: nat)
    requires BreaksAt(s, p)
    ensures p <= |s| && GroupStart(s, p) && Breaks(s, p)
  {}

  // The buffer is full, the group is not, and there is more to read.
  lemma GroupTooLong(s: string)
    requires READ_BUFFER < |s| && NonSpaces(s[..READ_BUFFER]) < READ_DIGITS
    ensures Misread(s)
  {
    hide IsSpace, NonSpaces, Decode;
    NoNonSpaces();
    EmptyDecodes();
    assert s[..0] == "" && s[0..READ_BUFFER] == s[..READ_BUFFER];
    assert BreaksAt(s, 0);
  }

  // What hexread does with a file, however it is cut into chunks and groups: what
  // hex_to_binary would do with the whole of it at once, except exactly when some
  // group outgrows its buffer or only white space follows the last full group.
  lemma {:induction false} ReadAgreesWithWhole(pending: string, text: string)
    requires NoNul(pending + text) && |pending| <= READ_BUFFER && NonSpaces(pending) < READ_DIGITS
    ensures ReadFrom(pending, text) == if Misread(pending + text) then Undefined else Whole(pending + text)
    decreases |text|
  {
    hide Decode, Cut, NonSpaces, Misread, IsSpace;
    if text == "" {
      assert pending + text == pending;
      CutNothing(pending);
      LastGroup(pending);
      EmptyDecodes();
      if pending != "" && Decode(pending).Bytes? {
        assert Decode(pending).value + [] == Decode(pending).value;
      }
    } else if |pending| == READ_BUFFER {
      assert (pending + text)[..READ_BUFFER] == pending;
      GroupTooLong(pending + text);
    } else {
      var group := pending + [text[0]];
      assert pending + text == group + text[1..];
      AppendOne(pending, text[0]);
      if NonSpaces(group) == READ_DIGITS {
        ReadFullGroup(group, text[1..]);
        NoNonSpaces();
        assert "" + text[1..] == text[1..];
        ReadAgreesWithWhole("", text[1..]);
      } else {
        ReadAgreesWithWhole(group, text[1..]);
      }
    }
  }

  // One full group read, and the rest of the text after it.
  lemma ReadFullGroup(group: string, text: string)
    requires NoNul(group + text) && 0 < |group| <= READ_BUFFER
    requires NonSpaces(group) == READ_DIGITS && !IsSpace(group[|group| - 1])
    ensures NoNul(text)
    ensures Flush(group, if Misread(text) then Undefined else Whole(text))
            == if Misread(group + text) then Undefined else Whole(group + text)
  {
    hide Decode, Cut, NonSpaces, Misread, IsSpace;
    assert forall k | 0 <= k < |group| :: group[k] == (group + text)[k];
    assert forall k | 0 <= k < |text| :: text[k] == (group + text)[|group| + k];
    CutNothing(group);
    FirstGroup(group, text);
    WholeAppend(group, text);
  }

  // A whole file.
  lemma ReadIsWholeUnlessMisread(text: string)
    requires NoNul(text)
    ensures ReadFrom("", text) == if Misread(text) then Undefined else Whole(text)
  {
    hide ReadFrom, Misread, Whole;
    NoNonSpaces();
    assert "" + text == text;
    ReadAgreesWithWhole("", text);
  }

  lemma {:induction false} Blank(n: nat)
    ensures NonSpaces(seq(n, _ => ' ')) == 0 && Decode(seq(n, _ => ' ')) == Bytes([])
  {
    if n > 0 {
      Blank(n - 1);
      assert seq(n, _ => ' ')[1..] == seq(n - 1, _ => ' ');
    }
  }

  // The 48 characters of hexread.c:127 are not enough for every input: white space alone
  // may overrun the buffer, and so may text that hex_to_binary converts.
  lemma BlankOverruns()
    ensures ReadFrom("", seq(49, _ => ' ')) == Undefined
  {
    hide NonSpaces, Decode;
    var s := seq(49, _ => ' ');
    Blank(48);
    assert s[..READ_BUFFER] == seq(48, _ => ' ');
    GroupTooLong(s);
    ReadIsWholeUnlessMisread(s);
  }

  lemma ConvertibleOverruns()
    ensures var s := seq(47, _ => ' ') + "00 ";
            Decode(s) == Bytes([0]) && ReadFrom("", s) == Undefined
  {
    hide NonSpaces, Decode;
    var blank := seq(47, _ => ' ');
    var s := blank + "00 ";
    Blank(47);
    ZeroDecodes();
    DecodeAppend(blank, "00 ");
    assert [] + [0] == [0];
    assert s[..READ_BUFFER] == blank + ['0'];
    NonSpacesAppend(blank, "0");
    GroupTooLong(s);
    ReadIsWholeUnlessMisread(s);
  }

  lemma ZeroDecodes()
    ensures Decode("00 ") == Bytes([0]) && NonSpaces("0") == 1
  {
    assert "00 "[2..] == " " && " "[1..] == "" && "0"[1..] == "";
  }

  lemma NoNonSpaces()
    ensures NonSpaces("") == 0 && NonSpaces("\n") == 0
  {}

  // ---------- hexread after hexdump ----------

  // Characters that complete no group are just buffered.
  lemma {:induction false} ReadBuffers(pending: string, more: string, text: string)
    requires |pending + more| <= READ_BUFFER && NonSpaces(pending + more) < READ_DIGITS
    ensures ReadFrom(pending, more + text) == ReadFrom(pending + more, text)
    decreases |more|
  {
    hide NonSpaces, Flush;
    if more == "" {
      assert more + text == text && pending + more == pending;
    } else {
      var group := pending + [more[0]];
      assert pending + more == group + more[1..];
      assert (more + text)[0] == more[0] && (more + text)[1..] == more[1..] + text;
      NonSpacesAppend(group, more[1..]);
      ReadBuffers(group, more[1..], text);
    }
  }

  // The line a previous group left unread, then a group of sixteen bytes.
  lemma ReadGroup(lead: string, g: seq<byte>, text: string)
    requires (lead == "" || lead == "\n") && |g| == DUMP_GROUP
    ensures ReadFrom("", lead + Body(g, DUMP_GROUP) + text) == ReadFrom("", text).After(g)
  {
    hide NonSpaces, Decode, Cut, Body, HexDigit;
    var body := lead + Body(g, DUMP_GROUP);
    var init, last := body[..|body| - 1], body[|body| - 1];
    LastIsDigit(g);
    BodySpaces(g, DUMP_GROUP);
    NoNonSpaces();
    NonSpacesAppend(lead, Body(g, DUMP_GROUP));
    assert body == init + [last];
    AppendOne(init, last);
    assert "" + init == init;
    assert body + text == init + ([last] + text);
    ReadBuffers("", init, [last] + text);
    assert ([last] + text)[1..] == text;
    BodyDecodes(g, DUMP_GROUP);
    assert g[..DUMP_GROUP] == g;
    LeadDecodes(lead, Body(g, DUMP_GROUP), g);
    BodyHasNoNul(g, DUMP_GROUP);
    CutNothing(body);
  }

  lemma LastIsDigit(g: seq<byte>)
    requires g != []
    ensures !IsSpace(Body(g, |g|)[|Body(g, |g|)| - 1])
  {
    hide HexDigit, IsSpace;
    DigitsRead(g[|g| - 1] as int % 16);
  }

  lemma LeadDecodes(lead: string, s: string, value: seq<byte>)
    requires (lead == "" || lead == "\n") && Decode(s) == Bytes(value)
    ensures Decode(lead + s) == Bytes(value)
  {
    hide Decode;
    EmptyDecodes();
    DecodeAppend(lead, s);
    assert [] + value == value;
  }

  // Fewer than sixteen bytes stay in the buffer until the final flush.
  lemma ReadTail(lead: string, d: seq<byte>)
    requires (lead == "" || lead == "\n") && 0 < |d| < DUMP_GROUP
    ensures ReadFrom("", lead + HexText(d)) == Written(d)
  {
    hide NonSpaces, Decode, Cut, HexText;
    var s := lead + HexText(d);
    TailText(lead, d);
    assert "" + s == s && s + "" == s;
    ReadBuffers("", s, "");
    CutNothing(s);
    assert d + [] == d;
  }

  lemma TailText(lead: string, d: seq<byte>)
    requires (lead == "" || lead == "\n") && 0 < |d| < DUMP_GROUP
    ensures var s := lead + HexText(d);
            NoNul(s) && Decode(s) == Bytes(d) && NonSpaces(s) == 2 * |d| && |s| <= READ_BUFFER
  {
    hide NonSpaces, Decode;
    TextHasNoNul(d);
    HexRoundTrip(d);
    BodySpaces(d, |d|);
    NoNonSpaces();
    NonSpacesAppend(Body(d, |d|), "\n");
    NonSpacesAppend(lead, HexText(d));
    LeadDecodes(lead, HexText(d), d);
  }

  lemma {:induction false} ReadText(lead: string, d: seq<byte>)
    requires (lead == "" || lead == "\n") && d != []
    ensures ReadFrom("", lead + HexText(d)) == if |d| % DUMP_GROUP == 0 then Undefined else Written(d)
    decreases |d|
  {
    hide ReadFrom, Body;
    if |d| < DUMP_GROUP {
      ReadTail(lead, d);
    } else {
      var g, r := d[..DUMP_GROUP], d[DUMP_GROUP..];
      assert d == g + r;
      if r == [] {
        assert d == g;
        assert lead + HexText(d) == lead + Body(g, DUMP_GROUP) + "\n";
        ReadGroup(lead, g, "\n");
        LoneNewline();
      } else {
        TextSplits(g, r);
        assert lead + HexText(d) == lead + Body(g, DUMP_GROUP) + ("\n" + HexText(r));
        ReadGroup(lead, g, "\n" + HexText(r));
        ReadText("\n", r);
      }
    }
  }

  // The newline that ends a last full group has nothing to convert.
  lemma LoneNewline()
    ensures ReadFrom("", "\n") == Undefined
  {
    NoNonSpaces();
    assert "" + ["\n"[0]] == "\n";
    CutNothing("\n");
    assert "\n"[1..] == "";
  }

  // The round trip through both programs gives a file back exactly when its length is
  // not a positive multiple of sixteen.
  lemma DumpThenRead(d: seq<byte>)
    ensures ReadFrom("", DumpFrom([], d)) == Written(d) <==> d == [] || |d| % DUMP_GROUP != 0
  {
    hide ReadFrom, HexText, DumpFrom;
    DumpIsWholeText(d);
    if d == [] {
      EmptyReads();
    } else {
      ReadText("", d);
      assert "" + HexText(d) == HexText(d);
    }
  }

  lemma EmptyReads()
    ensures ReadFrom("", "") == Written([])
  {}
}
