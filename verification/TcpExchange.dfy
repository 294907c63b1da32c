// ip.c, lines 151-220: what one TCP packet makes handle_packet send and how it leaves
// the connection table, second FIN/ACK transmission included.
module TcpExchange {
  import opened Bytes
  import opened CrcDetection
  import opened InternetChecksum
  import opened Ethernet
  import opened Encapsulation
  import opened TcpTable
  import opened TcpSegment
  import opened Tcp
  import TcpRuns

  // How a packet leaves: everything encapsulation is told besides the frame.
  datatype Exit = Exit(mac: seq<byte>, icmp: Icmp, own: Interface, error: bool) {
    ghost predicate Valid() { |mac| == 6 && own.Valid() }
  }

  datatype Exchange = Exchange(sent: seq<seq<byte>>, frame: seq<byte>, slots: seq<Slot>)

  function Wrap(f: seq<byte>, len: nat, x: Exit, second: bool): (r: Outgoing)
    requires |f| >= ICMP_FRAME && x.Valid() && Sealable(f, len, x.error, second)
    ensures |r.frame| == |f| && r.len == SealLength(f, len, x.error, second)
  {
    Encapsulated(f, len, x.mac, x.icmp, x.own, x.error, second)
  }

  predicate Ready(f: seq<byte>, len: nat) {
    FitsBuffer(f, len) && MIN_FRAME <= len && len + 4 <= |f| && f[PROTOCOL] == 6
  }

  lemma FirstPassShape(f: seq<byte>, len: nat, slots: seq<Slot>, isn: nat)
    requires Ready(f, len) && isn < TWO32
    ensures var r := FirstPass(f, len, slots, isn);
            && r.frame[PROTOCOL] == 6
            && -128 <= r.verdict <= 127
            && (r.verdict >= 1 ==> 34 <= len - r.verdict)
  {
    hide Turned, WithTcpChecksum, Be16, Be32, Received, Target;
    var s := Parse(f, len);
    var i := Target(slots, s.key);
    if ForListener(f) && i != -1 {
      var verdict := Verdict(slots[i], s);
      var p := PayloadFrame(f, s, slots[i].status, isn);
      PayloadKeeps(f, s, slots[i].status, isn);
      var g := Readdressed(p);
      FinishedKeeps(g, 0, ReplyLength(f, len, verdict));
      SameWithin(p, f, 18, 34, PROTOCOL, 24);
      SameWithin(FirstPass(f, len, slots, isn).frame, g, 20, 50, PROTOCOL, 24);
      if verdict >= 1 {
        PositiveVerdict(f, len, slots[i]);
      }
    }
  }

  lemma PositiveVerdict(f: seq<byte>, len: nat, slot: Slot)
    requires Ready(f, len) && Verdict(slot, Parse(f, len)) >= 1
    ensures Verdict(slot, Parse(f, len)) <= len - 34
  {
    var octets := DataOctets(f, len);
    if len - 34 >= HeaderLength(f) {
      assert octets == len - 34 - HeaderLength(f);
    }
  }

  lemma TurnedKeeps(f: seq<byte>, seqNo: nat, ackNo: nat, bits: nat)
    requires |f| >= 54 && seqNo < TWO32 && ackNo < TWO32 && bits < 64
    ensures var t := Turned(f, seqNo, ackNo, bits);
            t[..34] == f[..34] && t[48..] == f[48..]
  {
    hide Be16, Be32, U16, Put;
    var t := Turned(f, seqNo, ackNo, bits);
    assert forall k | 0 <= k < 34 :: t[k] == f[k];
    assert forall k | 48 <= k < |f| :: t[k] == f[k];
  }

  lemma TurnedFields(f: seq<byte>, seqNo: nat, ackNo: nat, bits: nat)
    requires |f| >= 54 && seqNo < TWO32 && ackNo < TWO32 && bits < 64
    ensures var t := Turned(f, seqNo, ackNo, bits);
            && t[..34] == f[..34] && t[48..] == f[48..]
            && U16(t, SRC_PORT) == HOST_TCP_PORT && U16(t, DST_PORT) == U16(f, SRC_PORT)
            && U32(t, SEQ_NUMBER) == seqNo && U32(t, ACK_NUMBER) == ackNo
            && U16(t, TCP_FLAGS) == U16(f, TCP_FLAGS) / 0x1000 * 0x1000 + bits
  {
    hide Be16, Be32;
    var flags := Be16(U16(f, TCP_FLAGS) / 0x1000 * 0x1000 + bits);
    TurnedKeeps(f, seqNo, ackNo, bits);
    var t := Turned(f, seqNo, ackNo, bits);
    assert t[34..36] == Be16(HOST_TCP_PORT) && t[36..38] == f[34..36];
    assert t[38..42] == Be32(seqNo) && t[42..46] == Be32(ackNo) && t[46..48] == flags;
    U16Slice(t, 34, 36, 34);
    U32Slice(t, 38, 42);
    U32Slice(t, 42, 46);
    U16Slice(t, 46, 48, 46);
  }

  // handle_tcp_payload leaves the addresses, the protocol and what follows the flags.
  lemma PayloadKeeps(f: seq<byte>, s: Arrival, status: nat, isn: nat)
    requires |f| >= 54 && s.Valid() && isn < TWO32
    ensures var p := PayloadFrame(f, s, status, isn);
            p[..16] == f[..16] && p[18..34] == f[18..34] && p[48..] == f[48..]
  {
    hide Turned, Be16, Be32;
    if s.control == SYN {
      TurnedFields(f, isn, Advance(s.seqNo, 1), SYN_ACK_BITS);
      SameWithin(PayloadFrame(f, s, status, isn), f, 0, 34, 0, 16);
      SameWithin(PayloadFrame(f, s, status, isn), f, 0, 34, 18, 34);
    } else if s.control == PSH_ACK {
      var t := Turned(f, s.ackNo, Advance(s.seqNo, Narrow(s.octets)), ACK_BITS);
      TurnedFields(f, s.ackNo, Advance(s.seqNo, Narrow(s.octets)), ACK_BITS);
      SameWithin(t, f, 0, 34, 0, 16);
      SameWithin(t, f, 0, 34, 18, 34);
    } else if s.control == FIN_ACK {
      TurnedFields(f, s.ackNo, Advance(s.seqNo, 1), ACK_BITS);
      SameWithin(PayloadFrame(f, s, status, isn), f, 0, 34, 0, 16);
      SameWithin(PayloadFrame(f, s, status, isn), f, 0, 34, 18, 34);
    }
  }

  lemma FinishedKeeps(f: seq<byte>, identification: nat, tcpLen: nat)
    requires |f| >= 54 && identification < 0x10000 && tcpLen < 0x10000 && 34 + tcpLen <= |f|
    ensures var r := Finished(f, identification, tcpLen);
            r[..18] == f[..18] && r[20..50] == f[20..50] && r[52..] == f[52..]
  {
    hide TcpSum, Be16;
  }

  // ---------- the exchange ----------

  // The FIN/ACK that follows the ACK of a FIN.
  function RespondAgain(out: Outgoing, len: nat, slots: seq<Slot>, x: Exit): (r: Exchange)
    requires FitsBuffer(out.frame, len) && x.Valid() && PAYLOAD + 4 <= out.len <= |out.frame|
    ensures |r.frame| == |out.frame| && |r.slots| == |slots|
  {
    var q := SecondPass(out.frame, len, slots);
    var again := Wrap(q.frame, out.len, x, true);
    Exchange([out.frame[..out.len], again.frame[..again.len]], again.frame, q.slots)
  }

  // One packet's transmissions and table, as the switch over transmission_status has it.
  function Respond(f: seq<byte>, len: nat, slots: seq<Slot>, x: Exit, isn: nat): (r: Exchange)
    requires Ready(f, len) && isn < TWO32 && x.Valid()
    ensures |r.frame| == |f| && |r.slots| == |slots|
  {
    FirstPassShape(f, len, slots, isn);
    var p := FirstPass(f, len, slots, isn);
    var out := Wrap(p.frame, len - if p.verdict >= 1 then p.verdict else 0, x, false);
    if p.verdict == TCP_FIN_ACK then RespondAgain(out, len, p.slots, x)
    else
      var silent := p.verdict < TCP_REG && p.verdict != TCP_CLOSED_ACK;
      Exchange(if silent then [] else [out.frame[..out.len]], out.frame, p.slots)
  }

  method HandleTcpPacket(frame: array<byte>, len: nat, table: array<Slot>, x: Exit, isn: nat)
    returns (sent: seq<seq<byte>>)
    requires Ready(frame[..], len) && isn < TWO32 && x.Valid()
    modifies frame, table
    ensures Exchange(sent, frame[..], table[..]) == Respond(old(frame[..]), len, old(table[..]), x, isn)
  {
    hide FirstPass, SecondPass, Encapsulated;
    FirstPassShape(frame[..], len, table[..], isn);
    var status := HandleTcp(frame, len, table, isn);
    if status >= 1 {
      var currLen := Encapsulate(frame, len - status, x.mac, x.icmp, x.own, x.error, false);
      return [frame[..currLen]];
    }
    var currLen := Encapsulate(frame, len, x.mac, x.icmp, x.own, x.error, false);
    if status == TCP_REG || status == TCP_CLOSED_ACK {
      return [frame[..currLen]];
    } else if status == TCP_FIN_ACK {
      sent := [frame[..currLen]];
      var verdict := HandleTcpAgain(frame, len, table);
      currLen := Encapsulate(frame, currLen, x.mac, x.icmp, x.own, x.error, true);
      return sent + [frame[..currLen]];
    }
    return [];
  }

  // ---------- the connection table after an exchange ----------

  lemma FirstPassTable(f: seq<byte>, len: nat, slots: seq<Slot>, isn: nat)
    requires Ready(f, len) && isn < TWO32 && ForListener(f)
    ensures var s, p := Parse(f, len), FirstPass(f, len, slots, isn);
            var i := Target(slots, s.key);
            if i == -1 then p.slots == slots && p.verdict == TCP_NONE
            else p.slots == slots[i := Received(slots[i], s)] && p.verdict == Verdict(slots[i], s)
  {
    hide PayloadFrame, Finished, Readdressed, Received, Verdict, ForListener;
  }

  // When a second pass follows, the turned-round reply names the peer as destination.
  lemma ReplyNamesPeer(f: seq<byte>, len: nat, slots: seq<Slot>, isn: nat)
    requires Ready(f, len) && isn < TWO32 && ForListener(f)
    requires Target(slots, Parse(f, len).key) != -1
    requires Verdict(slots[Target(slots, Parse(f, len).key)], Parse(f, len)) == TCP_FIN_ACK
    ensures var s, r := Parse(f, len), FirstPass(f, len, slots, isn).frame;
            && r[SRC_IP..SRC_IP + 4] == TCP_IP
            && Key(r[DST_IP..DST_IP + 4], U16(r, DST_PORT)) == s.key
            && (s.control == FIN_ACK || s.control == PSH_ACK)
  {
    hide Turned, Finished, Be16, Be32, Received, Target, ForListener;
    var s := Parse(f, len);
    var i := Target(slots, s.key);
    var status := slots[i].status;
    var p := PayloadFrame(f, s, status, isn);
    var g := Readdressed(p);
    var n := ReplyLength(f, len, TCP_FIN_ACK);
    var r := Finished(g, 0, n);
    PayloadKeeps(f, s, status, isn);
    SameWithin(p, f, 18, 34, SRC_IP, SRC_IP + 4);
    TurnedFields(f, s.ackNo, Advance(s.seqNo, Narrow(s.octets)), ACK_BITS);
    TurnedFields(f, s.ackNo, Advance(s.seqNo, 1), ACK_BITS);
    FinishedKeeps(g, 0, n);
    SameWithin(r, g, 20, 50, SRC_IP, SRC_IP + 4);
    SameWithin(r, g, 20, 50, DST_IP, DST_IP + 4);
    SameU16(r, g, 20, 50, DST_PORT);
    assert U16(g, DST_PORT) == U16(p, DST_PORT) == U16(f, SRC_PORT);
  }

  // The second pass finds the slot the first one handled.
  lemma SecondPassTarget(slots: seq<Slot>, s: Arrival)
    requires Target(slots, s.key) != -1 && (s.control == FIN_ACK || s.control == PSH_ACK)
    ensures var i := Target(slots, s.key);
            Target(slots[i := Received(slots[i], s)], s.key) == i
  {
    var i := Target(slots, s.key);
    LookupUnchanged(slots, i, Received(slots[i], s), s.key, 0);
    SpaceUnchanged(slots, i, Received(slots[i], s), 0);
  }

  lemma WrapKeeps(f: seq<byte>, len: nat, x: Exit)
    requires |f| >= ICMP_FRAME && x.Valid() && !x.error && 58 <= len && len + 4 <= |f|
    ensures var out := Wrap(f, len, x, false);
            out.frame[DST_IP..DST_IP + 4] == f[DST_IP..DST_IP + 4] && U16(out.frame, DST_PORT) == U16(f, DST_PORT)
  {
    hide Sealed, FcsMatches, HeaderVerifies;
    var w := Rewritten(f, len, x.mac, x.icmp, x.own, false, false);
    var r := Sealed(w.frame, w.len);
    SealedVerifies(w.frame, w.len);
    SameWithin(r, w.frame, 26, w.len - 4, DST_IP, DST_IP + 4);
    SameU16(r, w.frame, 26, w.len - 4, DST_PORT);
  }

  // The first 28 octets of the datagram as the first pass leaves them when a second is to
  // follow: turned round, with the received acknowledgement number for its own.
  function QuotedReply(f: seq<byte>): (q: seq<byte>)
    requires |f| >= 54
    ensures |q| == 28
  {
    var length := if U16(f, TCP_FLAGS) % 64 == FIN_ACK then U16(f, TOTAL_LENGTH) else (U16(f, TOTAL_LENGTH) + 3) % 0x10000;
    f[14..16] + Be16(length) + [0, 0] + f[20..22] + [64] + f[PROTOCOL..26]
    + TCP_IP + f[SRC_IP..SRC_IP + 4] + Be16(HOST_TCP_PORT) + f[SRC_PORT..SRC_PORT + 2] + Be32(U32(f, ACK_NUMBER))
  }

  // The key the second pass reads once encapsulation has put an ICMP error over the
  // reply: the listener's own address, and the ICMP checksum where the port was.
  function ErrorKey(f: seq<byte>, icmp: Icmp): (key: Key)
    requires |f| >= 54
    ensures key.ip == TCP_IP && key.port < 0x10000
  {
    Key(TCP_IP, Checksum(IcmpBody(icmp, QuotedReply(f))))
  }

  lemma TurnedOctets(f: seq<byte>, seqNo: nat, ackNo: nat, bits: nat)
    requires |f| >= 54 && seqNo < TWO32 && ackNo < TWO32 && bits < 64
    ensures var t := Turned(f, seqNo, ackNo, bits);
            t[14..34] == f[14..34] && t[34..42] == Be16(HOST_TCP_PORT) + f[34..36] + Be32(seqNo)
  {
    hide Be16, Be32;
  }

  // The octets of the payload handler's frame that an error would quote.
  lemma QuotedPayload(f: seq<byte>, s: Arrival, status: nat, isn: nat)
    requires |f| >= 54 && s.Valid() && isn < TWO32
    requires s.control == FIN_ACK || (s.control == PSH_ACK && Narrow(s.octets) == TCP_FIN_ACK)
    ensures var p := PayloadFrame(f, s, status, isn);
            && p[14..16] == f[14..16] && p[18..34] == f[18..34]
            && p[16..18] == Be16(if s.control == FIN_ACK then U16(f, TOTAL_LENGTH) else (U16(f, TOTAL_LENGTH) + 3) % 0x10000)
            && p[34..42] == Be16(HOST_TCP_PORT) + f[34..36] + Be32(s.ackNo)
  {
    hide Turned, Be16, Be32, Narrow;
    var p := PayloadFrame(f, s, status, isn);
    TurnedOctets(f, s.ackNo, Advance(s.seqNo, if s.control == FIN_ACK then 1 else TCP_FIN_ACK),
                 ACK_BITS);
    PayloadKeeps(f, s, status, isn);
    SameWithin(p, f, 0, 16, 14, 16);
    if s.control == FIN_ACK {
      SameWithin(p, f, 14, 34, 16, 18);
      Be16OfU16(f, 16);
    } else {
      var t := Turned(f, s.ackNo, Advance(s.seqNo, TCP_FIN_ACK), ACK_BITS);
      assert p[34..42] == t[34..42];
    }
  }

  lemma Be16OfU16(f: seq<byte>, at: nat)
    requires at + 2 <= |f|
    ensures Be16(U16(f, at)) == f[at..at + 2]
  {}

  lemma ReplyQuoted(f: seq<byte>, len: nat, slots: seq<Slot>, isn: nat)
    requires Ready(f, len) && isn < TWO32 && ForListener(f)
    requires TcpRuns.Closing(slots, Parse(f, len))
    ensures FirstPass(f, len, slots, isn).frame[14..42] == QuotedReply(f)
  {
    hide PayloadFrame, Be16, Be32, Narrow, Target, ForListener, Finished, Readdressed, Received, U16, U32;
    var s := Parse(f, len);
    var i := Target(slots, s.key);
    var p := PayloadFrame(f, s, slots[i].status, isn);
    QuotedPayload(f, s, slots[i].status, isn);
    ReadyQuote(p, len);
    SameWithin(p, f, 18, 34, 20, 22);
    SameWithin(p, f, 18, 34, PROTOCOL, 26);
    SameWithin(p, f, 18, 34, SRC_IP, SRC_IP + 4);
    assert p[14..18] == p[14..16] + p[16..18];
    assert FirstPass(f, len, slots, isn).frame == Finished(Readdressed(p), 0, len - 34);
  }

  lemma ZeroOctets()
    ensures Be16(0) == [0, 0]
  {}

  // What readdressing and the checksum leave of the first 28 octets.
  lemma ReadyQuote(p: seq<byte>, len: nat)
    requires FitsBuffer(p, len)
    ensures var r := Finished(Readdressed(p), 0, len - 34);
            r[14..42] == p[14..18] + [0, 0] + p[20..22] + [64] + p[PROTOCOL..26] + TCP_IP + p[SRC_IP..SRC_IP + 4] + p[34..42]
  {
    hide WithTcpChecksum;
    var h := Put(Readdressed(p), IDENTIFICATION, Be16(0));
    WithChecksumKeeps(h, len - 34);
    ZeroOctets();
    SameWithin(WithTcpChecksum(h, len - 34), h, 0, 50, 14, 42);
  }

  lemma WithChecksumKeeps(f: seq<byte>, tcpLen: nat)
    requires |f| >= 54 && tcpLen < 0x10000 && 34 + tcpLen <= |f|
    ensures WithTcpChecksum(f, tcpLen)[..50] == f[..50]
  {
    hide TcpSum, Be16;
  }

  // With an ICMP error put over the reply, the second pass closes whatever slot has the
  // key the error happens to show.
  lemma RefusedSecondKey(p: seq<byte>, f: seq<byte>, len: nat, x: Exit)
    requires |f| >= 54 && |p| >= ICMP_FRAME && x.Valid() && x.error
    requires p[SRC_IP..SRC_IP + 4] == TCP_IP && p[14..42] == QuotedReply(f)
    ensures var out := Wrap(p, len, x, false);
            Key(out.frame[DST_IP..DST_IP + 4], U16(out.frame, DST_PORT)) == ErrorKey(f, x.icmp)
  {
    hide Encapsulated, FcsMatches, HeaderVerifies, Checksum, QuotedReply;
    IcmpReply(p, len, x.mac, x.icmp, x.own, false);
    IcmpReplyPort(p, len, x.mac, x.icmp, x.own);
  }

  lemma CloseTargetIsCloseKey(slots: seq<Slot>, key: Key)
    ensures var j := Target(slots, key);
            TcpRuns.CloseKey(slots, key) == if j == -1 then slots else slots[j := Closed(slots[j])]
  {}

  // The event one segment to the listener is for the connection table.
  function EventOf(f: seq<byte>, len: nat, error: bool, icmp: Icmp): TcpRuns.Event
    requires |f| >= 54
  {
    if error then TcpRuns.Refused(Parse(f, len), ErrorKey(f, icmp)) else TcpRuns.Arrives(Parse(f, len))
  }

  // The main result: for a segment to the listener the frames may say what they like,
  // the table moves by one abstract step. In particular a FIN's second transmission
  // closes the peer's own slot and no other, unless an ICMP error is sent instead.
  lemma RespondRefinesStep(f: seq<byte>, len: nat, slots: seq<Slot>, x: Exit, isn: nat)
    requires Ready(f, len) && isn < TWO32 && x.Valid() && ForListener(f)
    ensures Respond(f, len, slots, x, isn).slots == TcpRuns.After(slots, EventOf(f, len, x.error, x.icmp))
  {
    hide FirstPass, Received, Verdict, Wrap, Finished, SecondFrame, ForListener, ErrorKey, TcpRuns.CloseKey, Parse;
    var s, p := Parse(f, len), FirstPass(f, len, slots, isn);
    FirstPassTable(f, len, slots, isn);
    if p.verdict == TCP_FIN_ACK {
      ReplyNamesPeer(f, len, slots, isn);
      if x.error {
        ReplyQuoted(f, len, slots, isn);
        RefusedSecondKey(p.frame, f, len, x);
        CloseTargetIsCloseKey(p.slots, ErrorKey(f, x.icmp));
      } else {
        WrapKeeps(p.frame, len, x);
        SecondPassTarget(slots, s);
      }
    }
  }

  // A segment that is not for the listener's address and port changes no slot.
  lemma NotForListener(f: seq<byte>, len: nat, slots: seq<Slot>, x: Exit, isn: nat)
    requires Ready(f, len) && isn < TWO32 && x.Valid() && !ForListener(f)
    ensures Respond(f, len, slots, x, isn).slots == slots && Respond(f, len, slots, x, isn).sent == []
  {
    hide Wrap;
  }

  // A segment closes its own connection exactly when a second pass follows and its frame
  // does not become an ICMP error, or the error shows the connection's own key.
  lemma ClosesOwn(slots: seq<Slot>, s: Arrival, second: Key, error: bool, i: nat)
    requires TcpRuns.Consistent(slots) && i < |slots| && slots[i].Active() && s.key == slots[i].key
    ensures var e := if error then TcpRuns.Refused(s, second) else TcpRuns.Arrives(s);
            !TcpRuns.After(slots, e)[i].Active()
            <==> TcpRuns.Closing(slots, s) && (!error || second == slots[i].key)
  {
    hide Advance, Narrow;
    assert Target(slots, s.key) == i;
    if TcpRuns.Closing(slots, s) {
      LookupUnchanged(slots, i, Received(slots[i], s), second, 0);
    }
  }

  // ---------- what a segment is taken to carry ----------

  // A segment that carries data or might: PSH/ACK, or an ACK on an open connection.
  ghost predicate Acknowledged(slot: Slot, s: Arrival) {
    s.control == PSH_ACK || (s.control == ACK && slot.Active())
  }

  lemma NarrowIs(octets: int, n: int, excess: int)
    requires octets == (n + excess) % 0x10000 && 0 <= n
    ensures Narrow(octets) == n <==> n <= 127 && excess % 256 == 0
  {
    var q := (n + excess) / 0x10000;
    assert octets == n + excess - q * 0x10000;
    assert (octets - n) % 256 == excess % 256;
    assert Narrow(octets) == n ==> (octets - n) % 256 == 0;
  }

  lemma AdvanceIff(number: nat, v: int, n: int)
    requires -TWO32 < v - n < TWO32
    ensures Advance(number, v) == (number + n) % TWO32 <==> v == n
  {
    var a, b := number + v, number + n;
    if a % TWO32 == b % TWO32 {
      assert b - a == (b / TWO32 - a / TWO32) * TWO32;
      assert b / TWO32 - a / TWO32 == 0;
    }
  }

  // A segment is acknowledged for what it carries exactly when that survives narrowing to
  // int8_t and the frame holds nothing else, neither padding nor an FCS (or as much of it
  // as narrowing drops).
  lemma AcknowledgesIff(f: seq<byte>, len: nat, slot: Slot)
    requires |f| >= 54 && Carried(f) >= 0 && Acknowledged(slot, Parse(f, len))
    ensures var s := Parse(f, len);
            Received(slot, s).nextSeq == (s.seqNo + Carried(f)) % TWO32
            <==> Carried(f) <= 127 && Excess(f, len) % 256 == 0
  {
    hide Narrow, Advance, Parse, U16, HeaderLength;
    var s := Parse(f, len);
    OctetsCount(f, len);
    NarrowIs(s.octets, Carried(f), Excess(f, len));
    CarriedFits(f);
    AdvanceIff(s.seqNo, Narrow(s.octets), Carried(f));
  }

  lemma CarriedFits(f: seq<byte>)
    requires |f| >= 54
    ensures Carried(f) < 0x10000
  {}

  // What padding or an FCS does to the number expected next: it is counted in. An ACK that
  // ends a handshake in a frame with an FCS moves it by 4.
  lemma ExcessCounts(f: seq<byte>, len: nat, slot: Slot)
    requires |f| >= 54 && 0 <= Carried(f) + Excess(f, len) <= 127 && Acknowledged(slot, Parse(f, len))
    ensures var s := Parse(f, len);
            Received(slot, s).nextSeq == (s.seqNo + Carried(f) + Excess(f, len)) % TWO32
  {
    hide Narrow, Parse, U16, HeaderLength;
    OctetsCount(f, len);
    TcpRuns.NarrowSmall(Carried(f) + Excess(f, len));
  }

  // A valid frame that ends in its FCS holds four octets too many for this code.
  lemma FcsIsExcess(f: seq<byte>, len: nat)
    requires 54 <= len <= |f| && AcceptedByPeer(f[..len])
    ensures Excess(f, len) == 4
  {
    hide FcsMatches, HeaderVerifies, TcpVerifies;
    assert U16(f[..len], TOTAL_LENGTH) == U16(f, TOTAL_LENGTH);
  }

  // Which frames are followed by a second pass: with 253 octets modulo 256, padding and FCS
  // included, data narrow to the code of the FIN exchange.
  lemma ClosingFrameIff(f: seq<byte>, len: nat, slots: seq<Slot>)
    requires |f| >= 54
    ensures var s := Parse(f, len);
            var i := Target(slots, s.key);
            TcpRuns.Closing(slots, s) <==>
              i != -1 && ((s.control == FIN_ACK && slots[i].Active())
                          || (s.control == PSH_ACK && (Carried(f) + Excess(f, len)) % 256 == 253))
  {
    hide Parse, U16, HeaderLength, Carried, Excess, TcpRuns.Closing, Target, Narrow;
    OctetsCount(f, len);
    LowOctet(Carried(f) + Excess(f, len));
    TcpRuns.ClosingIff(slots, Parse(f, len));
  }

  lemma LowOctet(n: int)
    ensures n % 0x10000 % 256 == n % 256
  {
    var r := n % 0x10000;
    TcpRuns.Remainder(n, n / 0x10000 * 256 + r / 256, r % 256);
  }

  // A data segment answered in the usual way closes its own connection exactly when what
  // it is taken to carry narrows to the code of the FIN exchange.
  lemma DataClosesIff(f: seq<byte>, len: nat, slots: seq<Slot>, i: nat)
    requires |f| >= 54 && Parse(f, len).control == PSH_ACK
    requires TcpRuns.Consistent(slots) && i < |slots| && slots[i].Active() && slots[i].key == Parse(f, len).key
    ensures !TcpRuns.AfterSegment(slots, Parse(f, len))[i].Active() <==> (Carried(f) + Excess(f, len)) % 256 == 253
  {
    hide Parse, U16, HeaderLength, Carried, Excess, Advance, Narrow;
    assert Target(slots, slots[i].key) == i;
    ClosingFrameIff(f, len, slots);
  }

  // ---------- what the peer receives ----------

  // A segment that is replied to, its data within the 127 octets that survive narrowing.
  // A plain ACK is replied to only when it carries data; a PSH/ACK is cut down to its TCP
  // header, which must be one.
  ghost predicate Answered(f: seq<byte>, len: nat, slots: seq<Slot>)
    requires Ready(f, len)
  {
    var s := Parse(f, len);
    && ForListener(f) && Target(slots, s.key) != -1
    && Replied(s, slots[Target(slots, s.key)].status)
    && (s.control == PSH_ACK ==> HeaderLength(f) >= 20)
  }

  ghost predicate Replied(s: Arrival, status: nat) {
    || s.control == SYN || s.control == FIN_ACK
    || (s.control == PSH_ACK && s.octets <= 127)
    || (s.control == ACK && 1 <= s.octets <= 127 && status == ESTABLISHED)
  }

  // What the acknowledgement number moves by.
  function AckStep(s: Arrival): nat {
    if s.control == PSH_ACK || s.control == ACK then s.octets else 1
  }

  // How much of the segment the reply leaves out.
  function Trimmed(s: Arrival): nat {
    if s.control == PSH_ACK then s.octets else 0
  }

  // The TCP header r answers the header of f, whose contents are s: the numbers; the
  // ports turned round; SYN/ACK or ACK with the data offset kept. Only for a plain ACK
  // with data do ports and flags stay as they came.
  ghost predicate HeaderAnswers(r: seq<byte>, f: seq<byte>, s: Arrival, isn: nat)
    requires |r| >= 50 && |f| >= 50
  {
    && U32(r, ACK_NUMBER) == (s.seqNo + AckStep(s)) % TWO32
    && U32(r, SEQ_NUMBER) == (if s.control == SYN then isn else s.ackNo)
    && if s.control == ACK then
         && U16(r, SRC_PORT) == U16(f, SRC_PORT) && U16(r, DST_PORT) == U16(f, DST_PORT)
         && U16(r, TCP_FLAGS) == U16(f, TCP_FLAGS)
       else
         && U16(r, SRC_PORT) == HOST_TCP_PORT && U16(r, DST_PORT) == U16(f, SRC_PORT)
         && U16(r, TCP_FLAGS) == U16(f, TCP_FLAGS) / 0x1000 * 0x1000 + ReplyBits(s)
  }

  function ReplyBits(s: Arrival): nat {
    if s.control == SYN then SYN_ACK_BITS else ACK_BITS
  }

  // Frame type, version, type of service, fragmentation and protocol.
  ghost predicate SameIpHeader(r: seq<byte>, f: seq<byte>)
    requires |r| >= 24 && |f| >= 24
  {
    r[12..16] == f[12..16] && r[20..22] == f[20..22] && r[PROTOCOL] == f[PROTOCOL]
  }

  lemma SameIpHeaderVia(r: seq<byte>, p: seq<byte>, f: seq<byte>)
    requires |r| >= 24 && |p| >= 24 && |f| >= 24 && SameIpHeader(p, f)
    requires r[12..18] == p[12..18] && r[20..22] == p[20..22] && r[PROTOCOL] == p[PROTOCOL]
    ensures SameIpHeader(r, f)
  {
    SameWithin(r, p, 12, 18, 12, 16);
  }

  // What the reply says, leaving by the interface with this MAC address; window, options
  // and what data it still carries are as they came.
  ghost predicate Answers(r: seq<byte>, f: seq<byte>, s: Arrival, isn: nat, mac: seq<byte>)
    requires 58 <= |r| <= |f|
  {
    && r[..6] == s.mac && r[6..12] == mac && SameIpHeader(r, f)
    && r[SRC_IP..SRC_IP + 4] == TCP_IP && r[DST_IP..DST_IP + 4] == s.key.ip
    && r[TTL] == 64 && U16(r, IDENTIFICATION) == 0
    && HeaderAnswers(r, f, s, isn)
    && r[48..50] == f[48..50] && r[52..|r| - 4] == f[52..|r| - 4]
  }

  lemma SameAnswer(r: seq<byte>, p: seq<byte>, f: seq<byte>, s: Arrival, isn: nat)
    requires |r| >= 50 && |p| >= 50 && |f| >= 50 && r[34..50] == p[34..50] && HeaderAnswers(p, f, s, isn)
    ensures HeaderAnswers(r, f, s, isn)
  {
    SameU16(r, p, 34, 50, SRC_PORT);
    SameU16(r, p, 34, 50, DST_PORT);
    SameU16(r, p, 34, 50, 38);
    SameU16(r, p, 34, 50, 40);
    SameU16(r, p, 34, 50, 42);
    SameU16(r, p, 34, 50, 44);
    SameU16(r, p, 34, 50, TCP_FLAGS);
  }

  lemma TurnedAnswers(f: seq<byte>, s: Arrival, isn: nat)
    requires |f| >= 54 && s.Valid() && isn < TWO32 && s.control != ACK
    ensures HeaderAnswers(Turned(f, if s.control == SYN then isn else s.ackNo, Advance(s.seqNo, AckStep(s)), ReplyBits(s)),
                          f, s, isn)
  {
    hide Turned;
    TurnedFields(f, if s.control == SYN then isn else s.ackNo, Advance(s.seqNo, AckStep(s)), ReplyBits(s));
  }

  lemma PlainAckAnswers(f: seq<byte>, s: Arrival, status: nat, isn: nat)
    requires |f| >= 54 && s.Valid() && isn < TWO32 && s.control == ACK && Replied(s, status)
    ensures HeaderAnswers(PayloadFrame(f, s, status, isn), f, s, isn)
  {
    hide Be32, Narrow;
    TcpRuns.NarrowSmall(s.octets);
    var p := PayloadFrame(f, s, status, isn);
    assert p[34..38] == f[34..38] && p[46..48] == f[46..48];
    SameU16(p, f, 34, 38, SRC_PORT);
    SameU16(p, f, 34, 38, DST_PORT);
    SameU16(p, f, 46, 48, TCP_FLAGS);
    assert p[38..42] == Be32(s.ackNo) && p[42..46] == Be32(Advance(s.seqNo, s.octets));
    U32Slice(p, 38, 42);
    U32Slice(p, 42, 46);
  }

  lemma PayloadAnswers(f: seq<byte>, s: Arrival, status: nat, isn: nat)
    requires |f| >= 54 && s.Valid() && isn < TWO32 && Replied(s, status)
    ensures HeaderAnswers(PayloadFrame(f, s, status, isn), f, s, isn)
  {
    hide Turned, Be16, Be32, Narrow, HeaderAnswers;
    if s.control == ACK {
      PlainAckAnswers(f, s, status, isn);
    } else {
      TurnedAnswers(f, s, isn);
      if s.control == PSH_ACK {
        TcpRuns.NarrowSmall(s.octets);
        var t := Turned(f, s.ackNo, Advance(s.seqNo, s.octets), ACK_BITS);
        var p := PayloadFrame(f, s, status, isn);
        assert p[34..50] == t[34..50];
        SameAnswer(p, t, f, s, isn);
      }
    }
  }

  // The total length in the reply's IP header.
  function LengthLeft(f: seq<byte>, s: Arrival): nat
    requires |f| >= 54
  {
    (U16(f, TOTAL_LENGTH) - Trimmed(s)) % 0x10000
  }

  // It is what the reply really holds exactly when the datagram filled the frame.
  lemma LengthLeftIff(f: seq<byte>, s: Arrival, len: nat)
    requires |f| >= 54 && 34 + Trimmed(s) <= len < 0x10000
    ensures LengthLeft(f, s) == len - Trimmed(s) - 14 <==> Excess(f, len) == 0
  {
    if U16(f, TOTAL_LENGTH) < Trimmed(s) {
      assert LengthLeft(f, s) == U16(f, TOTAL_LENGTH) - Trimmed(s) + 0x10000;
    }
  }

  lemma PayloadLength(f: seq<byte>, s: Arrival, status: nat, isn: nat)
    requires |f| >= 54 && s.Valid() && isn < TWO32 && Replied(s, status)
    ensures U16(PayloadFrame(f, s, status, isn), TOTAL_LENGTH) == LengthLeft(f, s)
  {
    hide Turned, Be16, Be32, Narrow;
    var p := PayloadFrame(f, s, status, isn);
    if s.control == PSH_ACK {
      TcpRuns.NarrowSmall(s.octets);
      assert p[16..18] == Be16(LengthLeft(f, s));
      U16Slice(p, 16, 18, TOTAL_LENGTH);
    } else if s.control == ACK {
      assert p[16..18] == f[16..18];
      SameU16(p, f, 16, 18, TOTAL_LENGTH);
    } else {
      TurnedFields(f, if s.control == SYN then isn else s.ackNo, Advance(s.seqNo, 1), ReplyBits(s));
      SameU16(p, f, 0, 34, TOTAL_LENGTH);
    }
  }

  lemma InSixteenBits(n: nat)
    requires n < 0x10000
    ensures n % 0x10000 == n
  {}

  lemma AnsweredLengths(f: seq<byte>, len: nat, slots: seq<Slot>)
    requires Ready(f, len) && Answered(f, len, slots)
    ensures var s := Parse(f, len);
            var verdict := Verdict(slots[Target(slots, s.key)], s);
            && 20 <= len - Trimmed(s) - 34
            && (if verdict >= 1 then verdict else 0) == Trimmed(s)
            && (verdict >= TCP_REG || verdict == TCP_CLOSED_ACK || verdict == TCP_FIN_ACK)
            && ReplyLength(f, len, verdict) == len - Trimmed(s) - 34
  {
    hide Narrow, ForListener, Target, HeaderLength, U16;
    var s := Parse(f, len);
    TcpRuns.NarrowSmall(if s.octets <= 127 then s.octets else 0);
    if s.control == PSH_ACK {
      LengthsAgree(len, HeaderLength(f), s.octets);
      InSixteenBits(len - 34);
    }
  }

  // What readdressing and the checksum leave of the payload handler's frame.
  lemma FinishedReply(p: seq<byte>, tcpLen: nat)
    requires |p| >= 54 && 20 <= tcpLen < 0x10000 && 34 + tcpLen <= |p|
    ensures var r := Finished(Readdressed(p), 0, tcpLen);
            && r[..18] == p[..18] && r[20..22] == p[20..22] && r[PROTOCOL] == p[PROTOCOL]
            && r[34..50] == p[34..50] && r[52..] == p[52..]
            && r[SRC_IP..SRC_IP + 4] == TCP_IP && r[DST_IP..DST_IP + 4] == p[SRC_IP..SRC_IP + 4]
            && r[TTL] == 64 && U16(r, IDENTIFICATION) == 0
            && TcpVerifies(r, tcpLen)
  {
    hide WithTcpChecksum, TcpVerifies;
    var g := Readdressed(p);
    var h := Put(g, IDENTIFICATION, Be16(0));
    var r := WithTcpChecksum(h, tcpLen);
    TcpChecksumVerifies(h, tcpLen);
    SameWithin(r, h, 0, 50, 0, 18);
    SameU16(r, h, 0, 50, IDENTIFICATION);
    SameWithin(r, h, 0, 50, 20, 22);
    SameWithin(r, h, 0, 50, TTL, 23);
    SameWithin(r, h, 0, 50, PROTOCOL, 24);
    SameWithin(r, h, 0, 50, SRC_IP, SRC_IP + 4);
    SameWithin(r, h, 0, 50, DST_IP, DST_IP + 4);
    SameWithin(r, h, 0, 50, 34, 50);
  }

  // A reply before encapsulation, currLen octets long: everything the peer will look at
  // but the checksums that sealing adds.
  ghost predicate Unsealed(p: seq<byte>, currLen: int, f: seq<byte>, s: Arrival, isn: nat)
    requires |f| >= 54
  {
    && 54 <= currLen && currLen + 4 <= |p| == |f| <= 0x10000
    && p[48..50] == f[48..50] && p[52..currLen] == f[52..currLen]
    && p[6..12] == s.mac && SameIpHeader(p, f) && p[SRC_IP..SRC_IP + 4] == TCP_IP && p[DST_IP..DST_IP + 4] == s.key.ip
    && p[TTL] == 64 && U16(p, IDENTIFICATION) == 0
    && HeaderAnswers(p, f, s, isn)
    && U16(p, TOTAL_LENGTH) == LengthLeft(f, s) && TcpVerifies(p, currLen - 34)
  }

  lemma PayloadIpHeader(p: seq<byte>, f: seq<byte>)
    requires |p| == |f| >= 34 && p[..16] == f[..16] && p[18..34] == f[18..34]
    ensures SameIpHeader(p, f)
  {
    SameWithin(p, f, 0, 16, 12, 16);
    SameWithin(p, f, 18, 34, 20, 22);
    SameWithin(p, f, 18, 34, PROTOCOL, 24);
  }

  lemma SameTail(r: seq<byte>, p: seq<byte>, f: seq<byte>, end: nat)
    requires |r| == |p| == |f| && 54 <= end <= |f|
    requires r[34..50] == p[34..50] && r[52..] == p[52..] && p[48..] == f[48..]
    ensures r[48..50] == f[48..50] && r[52..end] == f[52..end]
  {
    SameWithin(r, p, 34, 50, 48, 50);
    assert r[52..end] == r[52..][..end - 52];
    assert p[52..end] == p[48..][4..end - 48];
    assert p[48..50] == p[48..][..2];
  }

  // The frame handle_tcp leaves.
  lemma ReplyFields(f: seq<byte>, len: nat, slots: seq<Slot>, isn: nat)
    requires Ready(f, len) && isn < TWO32 && Answered(f, len, slots)
    ensures var s, p := Parse(f, len), FirstPass(f, len, slots, isn);
            && (if p.verdict >= 1 then p.verdict else 0) == Trimmed(s)
            && (p.verdict >= TCP_REG || p.verdict == TCP_CLOSED_ACK || p.verdict == TCP_FIN_ACK)
            && Unsealed(p.frame, len - Trimmed(s), f, s, isn)
  {
    hide PayloadFrame, Received, Target, Verdict, Finished, Readdressed, TcpVerifies, ForListener, HeaderAnswers;
    hide HeaderLength, DataOctets, ReplyLength;
    var s := Parse(f, len);
    var i := Target(slots, s.key);
    var p := PayloadFrame(f, s, slots[i].status, isn);
    var r := FirstPass(f, len, slots, isn).frame;
    AnsweredLengths(f, len, slots);
    PayloadKeeps(f, s, slots[i].status, isn);
    PayloadAnswers(f, s, slots[i].status, isn);
    PayloadLength(f, s, slots[i].status, isn);
    FinishedReply(p, len - Trimmed(s) - 34);
    SameU16(r, p, 0, 18, TOTAL_LENGTH);
    SameWithin(r, p, 0, 18, 6, 12);
    SameWithin(p, f, 0, 16, 6, 12);
    SameWithin(p, f, 18, 34, SRC_IP, SRC_IP + 4);
    SameTail(r, p, f, len - Trimmed(s));
    PayloadIpHeader(p, f);
    SameWithin(r, p, 0, 18, 12, 18);
    SameIpHeaderVia(r, p, f);
    SameAnswer(r, p, f, s, isn);
  }

  lemma SealedIsSound(w: seq<byte>, currLen: nat)
    requires |w| <= 0x10000 && 54 <= currLen && currLen + 4 <= |w|
    requires TcpVerifies(w, currLen - 34)
    ensures var r := Sealed(w, currLen + 4)[..currLen + 4];
            && Sound(r) && r[..24] == w[..24] && r[26..currLen] == w[26..currLen]
            && U16(r, TOTAL_LENGTH) == U16(w, TOTAL_LENGTH)
  {
    hide Sealed, FcsMatches, Checksum, Covered;
    var e := Sealed(w, currLen + 4);
    var r := e[..currLen + 4];
    SealedVerifies(w, currLen + 4);
    assert r[14..34] == e[14..34];
    SealKeepsTcp(w, currLen + 4, currLen - 34);
    assert r[26..currLen] == e[26..currLen];
    SameTcpSum(r, e, currLen - 34);
    SameU16(e, w, 0, 24, TOTAL_LENGTH);
    assert U16(r, TOTAL_LENGTH) == U16(e, TOTAL_LENGTH);
    assert r[..24] == e[..24];
  }

  lemma SealedIpHeader(r: seq<byte>, w: seq<byte>, p: seq<byte>, f: seq<byte>)
    requires |r| >= 24 && |w| == |p| >= 24 && |f| >= 24 && SameIpHeader(p, f)
    requires r[..24] == w[..24] && w[12..] == p[12..]
    ensures SameIpHeader(r, f)
  {
    assert r[0..24] == w[0..24] && w[12..|w|] == p[12..|p|];
    SameWithin(r, w, 0, 24, 12, 18);
    SameWithin(r, w, 0, 24, 20, 22);
    SameWithin(r, w, 0, 24, PROTOCOL, 24);
    SameWithin(w, p, 12, |w|, 12, 18);
    SameWithin(w, p, 12, |w|, 20, 22);
    SameWithin(w, p, 12, |w|, PROTOCOL, 24);
    SameIpHeaderVia(r, p, f);
  }

  lemma SealedReply(p: seq<byte>, w: seq<byte>, currLen: int, f: seq<byte>, s: Arrival, isn: nat, mac: seq<byte>)
    requires |f| >= 54 && Unsealed(p, currLen, f, s, isn)
    requires |p| == |w| && w[..6] == p[6..12] && w[6..12] == mac && w[12..] == p[12..]
    ensures var r := Sealed(w, currLen + 4)[..currLen + 4];
            Sound(r) && Answers(r, f, s, isn, mac) && U16(r, TOTAL_LENGTH) == LengthLeft(f, s)
  {
    hide Sealed, Checksum, Covered, HeaderAnswers, Sound, LengthLeft, SameIpHeader;
    var r := Sealed(w, currLen + 4)[..currLen + 4];
    assert w[12..|w|] == p[12..|p|];
    SameU16(w, p, 12, |w|, TOTAL_LENGTH);
    SameU16(w, p, 12, |w|, IDENTIFICATION);
    SameWithin(w, p, 12, |w|, TTL, 23);
    SameWithin(w, p, 12, |w|, 26, currLen);
    SameTcpSum(w, p, currLen - 34);
    SealedIsSound(w, currLen);
    SameWithin(r, w, 0, 24, 0, 6);
    SameWithin(r, w, 0, 24, 6, 12);
    SealedIpHeader(r, w, p, f);
    SameU16(r, w, 0, 24, IDENTIFICATION);
    SameWithin(r, w, 0, 24, TTL, 23);
    SameWithin(r, p, 26, currLen, SRC_IP, SRC_IP + 4);
    SameWithin(r, p, 26, currLen, DST_IP, DST_IP + 4);
    SameWithin(r, p, 26, currLen, 34, 50);
    SameWithin(r, p, 26, currLen, 48, 50);
    SameWithin(r, p, 26, currLen, 52, currLen);
    SameAnswer(r, p, f, s, isn);
  }

  // The first frame sent back answers the segment, and its checksums cover all it holds.
  // The code takes a segment's length from the frame's, so the peer accepts the reply
  // exactly when the datagram filled the frame, without padding or FCS, and, the answer to
  // data being a bare header, when that header makes up the length of a frame.
  lemma ReplyIsAccepted(f: seq<byte>, len: nat, slots: seq<Slot>, x: Exit, isn: nat)
    requires Ready(f, len) && isn < TWO32 && x.Valid() && !x.error && Answered(f, len, slots)
    ensures var sent := Respond(f, len, slots, x, isn).sent;
            && |sent| >= 1 && 58 <= |sent[0]| <= |f| && |sent[0]| == len + 4 - Trimmed(Parse(f, len))
            && Sound(sent[0]) && Answers(sent[0], f, Parse(f, len), isn, x.own.mac)
            && U16(sent[0], TOTAL_LENGTH) == LengthLeft(f, Parse(f, len))
            && (AcceptedByPeer(sent[0])
                <==> Excess(f, len) == 0 && (Parse(f, len).control == PSH_ACK ==> HeaderLength(f) >= 26))
  {
    hide FirstPass, Sealed, SecondPass, HeaderLength, Excess, Parse, AcceptedByPeer, Answers, HeaderAnswers, TcpVerifies, Sound, LengthLeft;
    var s, p := Parse(f, len), FirstPass(f, len, slots, isn);
    var currLen := len - Trimmed(s);
    ReplyFields(f, len, slots, isn);
    FirstPassShape(f, len, slots, isn);
    var w := Rewritten(p.frame, currLen, x.mac, x.icmp, x.own, false, false);
    SealedReply(p.frame, w.frame, currLen, f, s, isn, x.own.mac);
    SoundIsAcceptedIff(Sealed(w.frame, currLen + 4)[..currLen + 4]);
    LengthLeftIff(f, s, len);
    ReplyLengthIs(f, len, slots);
  }

  lemma ReplyLengthIs(f: seq<byte>, len: nat, slots: seq<Slot>)
    requires Ready(f, len) && Answered(f, len, slots)
    ensures var s := Parse(f, len);
            MIN_FRAME <= len + 4 - Trimmed(s) <==> (s.control == PSH_ACK ==> HeaderLength(f) >= 26)
  {
    hide ForListener, Target, U16, HeaderLength;
    var s := Parse(f, len);
    if s.control == PSH_ACK {
      LengthsAgree(len, HeaderLength(f), s.octets);
      InSixteenBits(len - 34);
    }
  }

  // So a frame that meets all the checks of this stack, FCS included, draws a reply that
  // does not.
  lemma FcsBreaksReply(f: seq<byte>, len: nat, slots: seq<Slot>, x: Exit, isn: nat)
    requires Ready(f, len) && isn < TWO32 && x.Valid() && !x.error && Answered(f, len, slots)
    requires AcceptedByPeer(f[..len])
    ensures var sent := Respond(f, len, slots, x, isn).sent;
            |sent| >= 1 && |sent[0]| >= 54 && !AcceptedByPeer(sent[0])
  {
    hide Respond, Answered, AcceptedByPeer, Answers, Sound, Parse, HeaderLength;
    ReplyIsAccepted(f, len, slots, x, isn);
    FcsIsExcess(f, len);
  }

  // A segment that draws frames at all draws, when refused, an ICMP error in their place.
  // It is valid and goes back where the segment came from, but under the listener's own
  // address, which the first pass had by then put in the place of the peer's.
  lemma RefusedReply(f: seq<byte>, len: nat, slots: seq<Slot>, x: Exit, isn: nat)
    requires Ready(f, len) && isn < TWO32 && x.Valid() && x.error && ForListener(f)
    requires Respond(f, len, slots, x, isn).sent != []
    ensures var r := Respond(f, len, slots, x, isn).sent[0];
            && |r| == ICMP_FRAME && FcsMatches(r) && HeaderVerifies(r) && Checksum(r[34..70]) == 0
            && r[..6] == f[6..12] && r[6..12] == x.own.mac && r[26..30] == x.own.ip && r[30..34] == TCP_IP
            && r[PROTOCOL] == 1 && r[34] == x.icmp.kind && r[35] == x.icmp.code
  {
    hide FirstPass, Encapsulated, FcsMatches, HeaderVerifies, Checksum, Parse, SecondPass;
    var p := FirstPass(f, len, slots, isn);
    var n := len - if p.verdict >= 1 then p.verdict else 0;
    FirstPassShape(f, len, slots, isn);
    FirstPassTable(f, len, slots, isn);
    FirstPassFrom(f, len, slots, isn);
    IcmpReply(p.frame, n, x.mac, x.icmp, x.own, false);
    var out := Wrap(p.frame, n, x, false);
    IcmpPrefix(out.frame);
  }

  lemma IcmpPrefix(e: seq<byte>)
    requires |e| >= ICMP_FRAME
    ensures var r := e[..ICMP_FRAME];
            && HeaderVerifies(r) == HeaderVerifies(e) && r[34..70] == e[34..70]
            && r[..6] == e[..6] && r[6..12] == e[6..12] && r[26..30] == e[26..30] && r[30..34] == e[30..34]
  {
    hide Checksum;
    assert e[..ICMP_FRAME][14..34] == e[14..34];
  }

  lemma FirstPassFrom(f: seq<byte>, len: nat, slots: seq<Slot>, isn: nat)
    requires Ready(f, len) && isn < TWO32 && ForListener(f) && Target(slots, Parse(f, len).key) != -1
    ensures var r := FirstPass(f, len, slots, isn).frame;
            r[6..12] == f[6..12] && r[26..30] == TCP_IP
  {
    hide PayloadFrame, Received, Target, Verdict, Finished, Readdressed, ForListener, ReplyLength;
    var s := Parse(f, len);
    var i := Target(slots, s.key);
    var p := PayloadFrame(f, s, slots[i].status, isn);
    var n := ReplyLength(f, len, Verdict(slots[i], s));
    PayloadKeeps(f, s, slots[i].status, isn);
    SameWithin(p, f, 0, 16, 6, 12);
    var g := Readdressed(p);
    ReaddressedFrom(p);
    FinishedKeeps(g, 0, n);
    var r := Finished(g, 0, n);
    SameWithin(r, g, 0, 18, 6, 12);
    SameWithin(r, g, 20, 50, 26, 30);
  }

  lemma ReaddressedFrom(p: seq<byte>)
    requires |p| >= 54
    ensures Readdressed(p)[6..12] == p[6..12] && Readdressed(p)[26..30] == TCP_IP
  {}

  // Nor does it help the peer to drop the padding first: where that was zeros, the
  // reply's TCP checksum does not verify over the segment alone.
  lemma PaddedReplyFails(f: seq<byte>, len: nat, slots: seq<Slot>, x: Exit, isn: nat)
    requires Ready(f, len) && isn < TWO32 && x.Valid() && !x.error && Answered(f, len, slots)
    requires Parse(f, len).control != PSH_ACK
    requires 40 <= U16(f, TOTAL_LENGTH) < len - 14 && AllZero(f[14 + U16(f, TOTAL_LENGTH)..len])
    ensures var sent := Respond(f, len, slots, x, isn).sent;
            |sent| >= 1 && |sent[0]| == len + 4 && !TcpVerifies(sent[0], U16(f, TOTAL_LENGTH) - 20)
  {
    hide Respond, Parse, AcceptedByPeer, HeaderAnswers, TcpVerifies, FcsMatches, HeaderVerifies, ForListener;
    ReplyIsAccepted(f, len, slots, x, isn);
    var r := Respond(f, len, slots, x, isn).sent[0];
    var at := 14 + U16(f, TOTAL_LENGTH);
    SameWithin(r, f, 52, len, at, len);
    PaddingCounts(r, at - 34, len - 34);
  }

  // After a FIN on an open connection a second frame follows, accepted on the condition
  // the first one is; it repeats the first one's addresses, ports and numbers, and sets FIN.
  lemma FinIsAccepted(f: seq<byte>, len: nat, slots: seq<Slot>, x: Exit, isn: nat)
    requires Ready(f, len) && isn < TWO32 && x.Valid() && !x.error && Answered(f, len, slots)
    requires Parse(f, len).control == FIN_ACK && slots[Target(slots, Parse(f, len).key)].Active()
    ensures var sent := Respond(f, len, slots, x, isn).sent;
            && |sent| == 2 && |sent[0]| == |sent[1]| == len + 4 <= 0x10000 && Sound(sent[1])
            && (AcceptedByPeer(sent[1]) <==> Excess(f, len) == 0)
            && Repeats(sent[1], sent[0], len) && U16(sent[1], IDENTIFICATION) == 1
            && U16(sent[1], TCP_FLAGS) == U16(sent[0], TCP_FLAGS) / 0x1000 * 0x1000 + FIN_ACK_BITS
  {
    hide FirstPass, Sealed, Parse, AcceptedByPeer, Target, Finished, SecondFrame, HeaderAnswers, Repeats;
    hide TcpVerifies, ForListener, HeaderLength, Sound, LengthLeft;
    var s, p := Parse(f, len), FirstPass(f, len, slots, isn);
    ReplyFields(f, len, slots, isn);
    FirstPassShape(f, len, slots, isn);
    FirstPassTable(f, len, slots, isn);
    ReplyNamesPeer(f, len, slots, isn);
    WrapKeeps(p.frame, len, x);
    SecondPassTarget(slots, s);
    var out := Wrap(p.frame, len, x, false);
    WrapLength(p.frame, len, x);
    SecondReply(out.frame, len);
    var q := Finished(SecondFrame(out.frame), 1, len - 34);
    SealedIsSound(q, len);
    SoundIsAcceptedIff(Sealed(q, len + 4)[..len + 4]);
    LengthLeftIff(f, s, len);
    var r := Sealed(q, len + 4)[..len + 4];
    var first := out.frame[..len + 4];
    assert Respond(f, len, slots, x, isn).sent == [first, r];
    SameU16(r, q, 0, 24, IDENTIFICATION);
    SameU16(r, q, 26, len, TCP_FLAGS);
    assert U16(first, TCP_FLAGS) == U16(out.frame, TCP_FLAGS);
    RepeatsThrough(r, q, first, out.frame, len);
  }

  // The second frame is the first but for identification, flags and checksums.
  ghost predicate Repeats(r: seq<byte>, f: seq<byte>, len: nat)
    requires 54 <= len <= |r| && len <= |f|
  {
    && r[..18] == f[..18] && r[20..24] == f[20..24] && r[26..46] == f[26..46]
    && r[48..50] == f[48..50] && r[52..len] == f[52..len]
  }

  lemma RepeatsThrough(r: seq<byte>, q: seq<byte>, first: seq<byte>, f: seq<byte>, len: nat)
    requires 54 <= len && len <= |r| && len <= |q| && |f| == |q| && len + 4 <= |f| && first == f[..len + 4]
    requires r[..24] == q[..24] && r[26..len] == q[26..len] && Repeats(q, f, len)
    ensures Repeats(r, first, len)
  {
    SameWithin(r, q, 0, 24, 0, 18);
    SameWithin(r, q, 0, 24, 20, 24);
    SameWithin(r, q, 26, len, 26, 46);
    SameWithin(r, q, 26, len, 48, 50);
    SameWithin(r, q, 26, len, 52, len);
    assert first[0..len] == f[0..len];
    SameWithin(first, f, 0, len, 0, 18);
    SameWithin(first, f, 0, len, 20, 24);
    SameWithin(first, f, 0, len, 26, 46);
    SameWithin(first, f, 0, len, 48, 50);
    SameWithin(first, f, 0, len, 52, len);
  }

  lemma WrapLength(f: seq<byte>, len: nat, x: Exit)
    requires |f| >= ICMP_FRAME && x.Valid() && !x.error && 58 <= len && len + 4 <= |f|
    requires f[PROTOCOL] == 6
    ensures var out := Wrap(f, len, x, false);
            out.len == len + 4 && U16(out.frame, TOTAL_LENGTH) == U16(f, TOTAL_LENGTH)
  {
    hide Sealed, FcsMatches, HeaderVerifies;
    var w := Rewritten(f, len, x.mac, x.icmp, x.own, false, false);
    var r := Sealed(w.frame, w.len);
    SealedVerifies(w.frame, w.len);
    SameU16(r, w.frame, 0, 24, TOTAL_LENGTH);
  }

  lemma SecondReply(f: seq<byte>, len: nat)
    requires 64 <= len <= |f| <= 0x10000
    ensures var q := Finished(SecondFrame(f), 1, len - 34);
            && TcpVerifies(q, len - 34) && U16(q, TOTAL_LENGTH) == U16(f, TOTAL_LENGTH)
            && U16(q, IDENTIFICATION) == 1 && Repeats(q, f, len)
            && U16(q, TCP_FLAGS) == U16(f, TCP_FLAGS) / 0x1000 * 0x1000 + FIN_ACK_BITS
  {
    hide TcpVerifies, WithTcpChecksum, Be16;
    var flags := U16(f, TCP_FLAGS) / 0x1000 * 0x1000 + FIN_ACK_BITS;
    var g := SecondFrame(f);
    var h := Put(g, IDENTIFICATION, Be16(1));
    var q := WithTcpChecksum(h, len - 34);
    TcpChecksumVerifies(h, len - 34);
    SameU16(q, h, 0, 50, TOTAL_LENGTH);
    SameU16(q, h, 0, 50, IDENTIFICATION);
    SameU16(q, h, 0, 50, TCP_FLAGS);
    SecondKeeps(q, h, f, len);
    assert h[18..20] == Be16(1) && h[46..48] == Be16(flags);
    U16Slice(h, 18, 20, IDENTIFICATION);
    U16Slice(h, 46, 48, TCP_FLAGS);
  }

  lemma SecondKeeps(q: seq<byte>, h: seq<byte>, f: seq<byte>, len: nat)
    requires 54 <= len <= |f| && |q| == |f|
    requires h == Put(SecondFrame(f), IDENTIFICATION, Be16(1))
    requires q[..50] == h[..50] && q[52..] == h[52..]
    ensures Repeats(q, f, len)
  {
    hide Put, Be16, U16;
    assert q[0..50] == h[0..50] && q[52..|q|] == h[52..|h|];
    SameWithin(q, h, 0, 50, 0, 18);
    SameWithin(q, h, 0, 50, 20, 24);
    SameWithin(q, h, 0, 50, 26, 46);
    SameWithin(q, h, 0, 50, 48, 50);
    SameWithin(q, h, 52, |q|, 52, len);
  }
}
