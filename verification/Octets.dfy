// What the stack does with a TCP segment for its listener, in the octets of the frame that
// arrives and of those that leave.
module Octets {
  import opened Bytes
  import opened CrcDetection
  import opened InternetChecksum
  import opened Encapsulation
  import opened TcpTable
  import opened TcpSegment
  import opened Tcp
  import opened TcpExchange
  import opened Ip
  import TcpRuns

  // Over IP with something in it, with hops to live, for 192.168.0.5, port 1234.
  ghost predicate ToListener(f: seq<byte>)
    requires |f| >= 54
  {
    f[23] == 6 && U16(f, 16) > 20 && f[22] != 0 && f[30..34] == [192, 168, 0, 5] && U16(f, 36) == 1234
  }

  // The control bits, and the octets behind the TCP header.
  ghost function Control(f: seq<byte>): nat
    requires |f| >= 54
  {
    f[47] as int % 64
  }

  ghost function Behind(f: seq<byte>, len: nat): int
    requires |f| >= 54
  {
    len - 34 - 4 * (f[46] as int / 16)
  }

  // An octet read as a signed number.
  ghost function Signed(n: int): int {
    if n % 256 < 128 then n % 256 else n % 256 - 256
  }

  ghost function Peer(f: seq<byte>): Key
    requires |f| >= 54
  {
    Key(f[26..30], U16(f, 34))
  }

  lemma HeaderOctets(f: seq<byte>)
    requires |f| >= 54
    ensures U16(f, 46) % 64 == Control(f) && U16(f, 46) / 0x1000 == f[46] as int / 16
  {
    var h, l := f[46] as int, f[47] as int;
    assert h * 256 + l == 64 * (h * 4 + l / 64) + l % 64;
    assert h * 256 + l == 0x1000 * (h / 16) + (h % 16 * 256 + l);
  }

  // Every field the code reads, by its octets.
  lemma ReadsOctets(f: seq<byte>, len: nat)
    requires |f| >= 54
    ensures Parse(f, len)
            == Arrival(Peer(f), f[6..12], Control(f), U32(f, 38), U32(f, 42), Behind(f, len) % 0x10000)
    ensures HeaderLength(f) == 4 * (f[46] as int / 16)
    ensures Carried(f) == U16(f, 16) - 20 - 4 * (f[46] as int / 16) && Excess(f, len) == len - 14 - U16(f, 16)
  {
    hide U16, U32;
    HeaderOctets(f);
  }

  lemma AcceptedOctets(f: seq<byte>)
    requires |f| >= 54
    ensures Accepted(f) <==> ToListener(f)
  {}

  lemma SignedIs(n: int)
    ensures Narrow(n % 0x10000) == Signed(n)
  {
    LowOctet(n);
    var m := n % 0x10000;
    if m % 256 < 128 {
      TcpRuns.Remainder(m + 128, m / 256, m % 256 + 128);
    } else {
      TcpRuns.Remainder(m + 128, m / 256 + 1, m % 256 - 128);
    }
  }

  // ---------- the connection table ----------

  // The peer's slot after a segment that is answered in the usual way.
  ghost predicate SlotAfter(d: Slot, e: Slot, f: seq<byte>, len: nat)
    requires |f| >= 54
  {
    var n := Behind(f, len);
    if Control(f) == 2 then
      e == Slot(d.io, Peer(f), f[6..12], (U32(f, 38) + 1) % 0x1_0000_0000, d.currSeq, 2)
    else if Control(f) == 16 && d.status != 0 then
      e == Slot(d.io, d.key, d.mac, (U32(f, 38) + Signed(n)) % 0x1_0000_0000, U32(f, 42), if d.status == 2 then 1 else d.status)
    else if Control(f) == 24 then
      e == Slot(d.io, d.key, d.mac, (U32(f, 38) + Signed(n)) % 0x1_0000_0000, U32(f, 42), if n % 256 == 253 then 0 else d.status)
    else if Control(f) == 17 then
      e == Slot(d.io, d.key, d.mac, (U32(f, 38) + 1) % 0x1_0000_0000, U32(f, 42), 0)
    else e == d
  }

  lemma EventOctets(c: Config, f: seq<byte>, len: nat)
    requires |f| >= 54 && ToListener(f) && IsLocal(c.interfaces, [192, 168, 0, 5]) && f[22] >= 2
    ensures PacketEvent(c, f, len) == TcpRuns.Arrives(Parse(f, len))
  {
    hide Parse, Decide, ErrorKey, ToListener;
    AcceptedOctets(f);
    ListenerPlan(c, f);
  }

  lemma SlotSteps(slots: seq<Slot>, f: seq<byte>, len: nat, i: nat)
    requires |f| >= 54 && i < |slots| && Target(slots, Peer(f)) == i
    ensures var t := TcpRuns.AfterSegment(slots, Parse(f, len));
            SlotAfter(slots[i], t[i], f, len) && forall j | 0 <= j < |slots| && j != i :: t[j] == slots[j]
  {
    hide Parse, Target, Narrow, U16, U32, Behind, Signed, Control;
    ReadsOctets(f, len);
    SignedIs(Behind(f, len));
    TcpRuns.NarrowIsFin(Behind(f, len) % 0x10000);
    LowOctet(Behind(f, len));
  }

  // One packet changes its peer's slot as above, and no other.
  lemma TableOctets(c: Config, receiver: nat, f: seq<byte>, len: nat, slots: seq<Slot>, isn: nat, i: nat)
    requires c.Valid() && receiver < |c.interfaces| && FitsFrame(f, len) && isn < TWO32
    requires ToListener(f) && IsLocal(c.interfaces, [192, 168, 0, 5]) && f[22] >= 2
    requires i < |slots| && Target(slots, Peer(f)) == i
    ensures var t := Process(c, receiver, f, len, slots, isn).slots;
            SlotAfter(slots[i], t[i], f, len) && forall j | 0 <= j < |slots| && j != i :: t[j] == slots[j]
  {
    hide Process, SlotAfter, ToListener, PacketEvent, TcpRuns.AfterSegment, Target, Peer, IsLocal;
    ProcessRefinesStep(c, receiver, f, len, slots, isn);
    EventOctets(c, f, len);
    SlotSteps(slots, f, len, i);
  }

  // A SYN opens a slot whenever one is closed, or was the peer's before.
  lemma SynIsServed(c: Config, receiver: nat, f: seq<byte>, len: nat, slots: seq<Slot>, isn: nat) returns (i: nat)
    requires c.Valid() && receiver < |c.interfaces| && FitsFrame(f, len) && isn < TWO32
    requires ToListener(f) && IsLocal(c.interfaces, [192, 168, 0, 5]) && f[22] >= 2 && Control(f) == 2
    requires exists j | 0 <= j < |slots| :: slots[j].status == 0 || slots[j].key == Peer(f)
    ensures i < |slots| && (slots[i].status == 0 || slots[i].key == Peer(f))
    ensures var t := Process(c, receiver, f, len, slots, isn).slots;
            t[i].key == Peer(f) && t[i].status == 2 && t[i].nextSeq == (U32(f, 38) + 1) % 0x1_0000_0000
  {
    hide Process, ToListener, IsLocal;
    var target := Target(slots, Peer(f));
    TargetIs(slots, Peer(f), 0);
    i := target;
    TargetIs(slots, Peer(f), i);
    TableOctets(c, receiver, f, len, slots, isn, i);
  }

  // ---------- what leaves ----------

  // What the status switch makes of such a segment.
  lemma ExchangeOctets(c: Config, receiver: nat, f: seq<byte>, len: nat, slots: seq<Slot>, isn: nat)
    requires c.Valid() && receiver < |c.interfaces| && FitsFrame(f, len) && isn < TWO32
    requires ToListener(f) && IsLocal(c.interfaces, [192, 168, 0, 5])
    ensures Ready(f, len)
    ensures var x := Exit(f[6..12], if f[22] == 1 then Icmp(11, 0) else NO_ERROR, c.interfaces[receiver], f[22] == 1);
            x.Valid() && Process(c, receiver, f, len, slots, isn) == Respond(f, len, slots, x, isn)
  {
    hide Respond;
    DecisionIff(c, f);
  }

  // Whether a segment draws frames: a SYN or FIN does; a plain ACK when the code finds 1 to
  // 127 octets in it on an established connection; data unless it finds a negative number
  // other than the codes of the two closing replies.
  ghost predicate Draws(f: seq<byte>, len: nat, slots: seq<Slot>)
    requires |f| >= 54
  {
    var i, n := Target(slots, Peer(f)), Signed(Behind(f, len));
    && i != -1
    && (|| Control(f) == 2 || Control(f) == 17
        || (Control(f) == 16 && slots[i].status == 1 && n >= 1)
        || (Control(f) == 24 && (n >= 0 || n == -2 || n == -3)))
  }

  lemma DrawsIff(f: seq<byte>, len: nat, slots: seq<Slot>, x: Exit, isn: nat)
    requires Ready(f, len) && isn < TWO32 && x.Valid() && ForListener(f)
    ensures Respond(f, len, slots, x, isn).sent != [] <==> Draws(f, len, slots)
  {
    hide FirstPass, Wrap, Parse, Target, Narrow, Behind, Signed, Control, SecondPass, ForListener;
    FirstPassTable(f, len, slots, isn);
    FirstPassShape(f, len, slots, isn);
    ReadsOctets(f, len);
    SignedIs(Behind(f, len));
  }

  // In particular the ACK that ends a handshake draws none; and a TCP packet that is not
  // for the listener draws none either, wherever it is for: the stack forwards no TCP.
  lemma SilentIff(c: Config, receiver: nat, f: seq<byte>, len: nat, slots: seq<Slot>, isn: nat)
    requires c.Valid() && receiver < |c.interfaces| && FitsFrame(f, len) && isn < TWO32
    requires f[23] == 6 && IsLocal(c.interfaces, [192, 168, 0, 5])
    ensures Process(c, receiver, f, len, slots, isn).sent != [] <==> ToListener(f) && Draws(f, len, slots)
    ensures !ToListener(f) ==> Process(c, receiver, f, len, slots, isn).slots == slots
  {
    hide Respond, Wrap, Draws, Decide;
    if ToListener(f) {
      ExchangeOctets(c, receiver, f, len, slots, isn);
      var x := Exit(f[6..12], if f[22] == 1 then Icmp(11, 0) else NO_ERROR, c.interfaces[receiver], f[22] == 1);
      DrawsIff(f, len, slots, x, isn);
    } else {
      PlanShape(c, f);
      DecisionIff(c, f);
      var p := Decide(c, f);
      if !p.Drop? {
        AgedShape(f, p);
        AgedListener(f, p, len);
        NotForListener(Aged(f, p), len, slots, ExitFor(c, p, f, receiver), isn);
      }
    }
  }

  // A segment answered with a frame of its own: SYN, FIN, or at most 127 octets of data.
  ghost predicate Answerable(f: seq<byte>, len: nat, slots: seq<Slot>)
    requires |f| >= 54
  {
    var i, n := Target(slots, Peer(f)), Behind(f, len);
    && i != -1
    && (|| Control(f) == 2 || Control(f) == 17
        || (Control(f) == 16 && slots[i].status == 1 && 1 <= n <= 127)
        || (Control(f) == 24 && 0 <= n <= 127 && f[46] >= 0x50))
  }

  ghost predicate ReplyOctets(r: seq<byte>, f: seq<byte>, len: nat, mac: seq<byte>, isn: nat)
    requires 58 <= |r| <= |f|
  {
    var n := Behind(f, len);
    && |r| == (if Control(f) == 24 then len - n else len) + 4
    && U16(r, 16) == (if Control(f) == 24 then U16(f, 16) - n else U16(f, 16)) % 0x10000
    && r[..6] == f[6..12] && r[6..12] == mac && r[12..16] == f[12..16]
    && r[18..20] == [0, 0] && r[20..22] == f[20..22] && r[22] == 64 && r[23] == 6
    && r[26..30] == [192, 168, 0, 5] && r[30..34] == f[26..30]
    && U32(r, 38) == (if Control(f) == 2 then isn else U32(f, 42))
    && U32(r, 42) == (U32(f, 38) + if Control(f) == 2 || Control(f) == 17 then 1 else n) % 0x1_0000_0000
    && (if Control(f) == 16 then
          U16(r, 34) == U16(f, 34) && U16(r, 36) == U16(f, 36) && U16(r, 46) == U16(f, 46)
        else
          && U16(r, 34) == 1234 && U16(r, 36) == U16(f, 34)
          && U16(r, 46) == f[46] as int / 16 * 0x1000 + if Control(f) == 2 then 0x12 else 0x10)
    && r[48..50] == f[48..50] && r[52..|r| - 4] == f[52..|r| - 4]
  }

  lemma AnsweredOctets(f: seq<byte>, len: nat, slots: seq<Slot>)
    requires Ready(f, len) && ForListener(f) && Answerable(f, len, slots)
    ensures Answered(f, len, slots)
  {
    hide Parse, Target, ForListener, HeaderLength, Control;
    ReadsOctets(f, len);
    if Control(f) == 16 || Control(f) == 24 {
      InSixteenBits(Behind(f, len));
    }
  }

  lemma ZeroIdentification(r: seq<byte>)
    requires |r| >= 20 && U16(r, 18) == 0
    ensures r[18..20] == [0, 0]
  {}

  lemma AnswerOctets(r: seq<byte>, f: seq<byte>, len: nat, mac: seq<byte>, isn: nat, slots: seq<Slot>)
    requires 58 <= |r| <= |f| && Ready(f, len) && ForListener(f) && Answerable(f, len, slots)
    requires Answers(r, f, Parse(f, len), isn, mac)
    requires |r| == len + 4 - Trimmed(Parse(f, len)) && U16(r, 16) == LengthLeft(f, Parse(f, len))
    ensures ReplyOctets(r, f, len, mac, isn)
  {
    hide Parse, Target, ForListener, HeaderLength, U16, U32, Control, Behind;
    ReadsOctets(f, len);
    HeaderOctets(f);
    ZeroIdentification(r);
    if Control(f) == 16 || Control(f) == 24 {
      InSixteenBits(Behind(f, len));
    }
  }

  // The reply, octet by octet.
  lemma ReplyIs(c: Config, receiver: nat, f: seq<byte>, len: nat, slots: seq<Slot>, isn: nat)
    requires c.Valid() && receiver < |c.interfaces| && FitsFrame(f, len) && isn < TWO32
    requires ToListener(f) && IsLocal(c.interfaces, [192, 168, 0, 5]) && f[22] >= 2 && Answerable(f, len, slots)
    ensures var sent := Process(c, receiver, f, len, slots, isn).sent;
            && |sent| >= 1 && 58 <= |sent[0]| <= |f|
            && ReplyOctets(sent[0], f, len, c.interfaces[receiver].mac, isn) && Sound(sent[0])
  {
    hide Respond, Parse, Answers, ReplyOctets, Sound, AcceptedByPeer, Answerable, LengthLeft, Trimmed, Process;
    hide HeaderLength, Excess;
    ExchangeOctets(c, receiver, f, len, slots, isn);
    var x := Exit(f[6..12], NO_ERROR, c.interfaces[receiver], false);
    AnsweredOctets(f, len, slots);
    ReplyIsAccepted(f, len, slots, x, isn);
    AnswerOctets(Respond(f, len, slots, x, isn).sent[0], f, len, x.own.mac, isn, slots);
  }

  // A FIN on an open connection is logged as two frames on the receiving interface: an ACK,
  // then the same with identification 1 and FIN set.
  lemma FinIsLogged(c: Config, receiver: nat, f: seq<byte>, len: nat, slots: seq<Slot>, isn: nat)
    requires c.Valid() && receiver < |c.interfaces| && FitsFrame(f, len) && isn < TWO32
    requires ToListener(f) && IsLocal(c.interfaces, [192, 168, 0, 5]) && f[22] >= 2 && Control(f) == 17
    requires Target(slots, Peer(f)) != -1 && slots[Target(slots, Peer(f))].status != 0
    ensures var sent := Process(c, receiver, f, len, slots, isn).sent;
            && |sent| == 2 && |sent[0]| == |sent[1]| == len + 4 <= |f|
            && Tagged(Transmitter(Decide(c, f), receiver), sent) == [(receiver, sent[0]), (receiver, sent[1])]
            && U16(sent[0], 46) == f[46] as int / 16 * 0x1000 + 0x10 && U16(sent[0], 18) == 0
            && U16(sent[1], 46) == f[46] as int / 16 * 0x1000 + 0x11 && U16(sent[1], 18) == 1
            && Repeats(sent[1], sent[0], len) && Sound(sent[1])
  {
    hide Respond, Parse, Answers, Sound, AcceptedByPeer, Process, Repeats, HeaderLength, Excess, U16, Tagged, Decide;
    ReplyIs(c, receiver, f, len, slots, isn);
    ExchangeOctets(c, receiver, f, len, slots, isn);
    var x := Exit(f[6..12], NO_ERROR, c.interfaces[receiver], false);
    AnsweredOctets(f, len, slots);
    ReadsOctets(f, len);
    FinIsAccepted(f, len, slots, x, isn);
    TaggedPair(receiver, Respond(f, len, slots, x, isn).sent);
    ZeroField(Respond(f, len, slots, x, isn).sent[0]);
    FlagsAgain(f[46] as int / 16);
    FinPlan(c, f);
  }

  lemma ZeroField(r: seq<byte>)
    requires |r| >= 20 && r[18..20] == [0, 0]
    ensures U16(r, 18) == 0
  {
    assert r[18] == r[18..20][0] && r[19] == r[18..20][1];
  }

  lemma FinPlan(c: Config, f: seq<byte>)
    requires |f| >= 54 && ToListener(f) && IsLocal(c.interfaces, [192, 168, 0, 5])
    ensures Decide(c, f).Deliver?
  {
    DecisionIff(c, f);
  }

  lemma FlagsAgain(offset: nat)
    ensures (offset * 0x1000 + 0x10) / 0x1000 * 0x1000 == offset * 0x1000
  {}

  // With a TTL of 1 a segment that would draw frames draws an ICMP error, time exceeded.
  // It is valid and goes back where it came from, but is addressed to the listener itself.
  lemma ExpiredIs(c: Config, receiver: nat, f: seq<byte>, len: nat, slots: seq<Slot>, isn: nat)
    requires c.Valid() && receiver < |c.interfaces| && FitsFrame(f, len) && isn < TWO32
    requires ToListener(f) && IsLocal(c.interfaces, [192, 168, 0, 5]) && f[22] == 1 && Draws(f, len, slots)
    ensures var sent := Process(c, receiver, f, len, slots, isn).sent;
            && sent != [] && |sent[0]| == 74
            && var r := sent[0];
               && FcsMatches(r) && HeaderVerifies(r) && Checksum(r[34..70]) == 0
               && r[..6] == f[6..12] && r[6..12] == c.interfaces[receiver].mac
               && r[26..30] == c.interfaces[receiver].ip && r[30..34] == [192, 168, 0, 5]
               && r[23] == 1 && r[34] == 11 && r[35] == 0
  {
    hide Respond, Process, Draws, FcsMatches, HeaderVerifies, Checksum;
    ExchangeOctets(c, receiver, f, len, slots, isn);
    var x := Exit(f[6..12], Icmp(11, 0), c.interfaces[receiver], true);
    DrawsIff(f, len, slots, x, isn);
    RefusedReply(f, len, slots, x, isn);
  }
}
