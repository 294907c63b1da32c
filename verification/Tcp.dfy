// tcp.c: handle_tcp and handle_tcp_payload, one pass over a received segment.
module Tcp {
  import opened Bytes
  import opened Encapsulation
  import opened TcpTable
  import opened TcpSegment

  // stack.h, line 16.
  const TCP_IP: seq<byte> := [0xC0, 0xA8, 0x00, 0x05]

  const TCP_NONE: int := -1
  const TCP_REG: int := 0
  const TCP_CLOSED_ACK: int := -2
  const TCP_FIN_ACK: int := -3

  const SYN: nat := 2
  const ACK: nat := 16
  const FIN_ACK: nat := 17
  const PSH_ACK: nat := 24

  const SYN_ACK_BITS: nat := 0x12
  const ACK_BITS: nat := 0x10
  const FIN_ACK_BITS: nat := 0x11

  // ---------- what a segment says ----------

  // octets is data_octets before it is narrowed to int8_t.
  datatype Arrival = Arrival(key: Key, mac: seq<byte>, control: nat, seqNo: nat, ackNo: nat, octets: nat) {
    predicate Valid() {
      && |key.ip| == 4 && key.port < 0x10000 && |mac| == 6
      && seqNo < TWO32 && ackNo < TWO32 && octets < 0x10000
    }
  }

  function HeaderLength(f: seq<byte>): (n: nat)
    requires |f| >= 54
    ensures n <= 60
  {
    U16(f, TCP_FLAGS) / 0x1000 * 4
  }

  // (uint16_t)len - 14 - 20 - tcp_header_len, back in 16 bits.
  function DataOctets(f: seq<byte>, len: nat): (n: nat)
    requires |f| >= 54
    ensures n < 0x10000
  {
    (len - 34 - HeaderLength(f)) % 0x10000
  }

  // What the datagram carries, by its own length fields; below 0 they contradict each other.
  function Carried(f: seq<byte>): int
    requires |f| >= 54
  {
    U16(f, TOTAL_LENGTH) - 20 - HeaderLength(f)
  }

  // What the frame holds beyond the datagram: padding, or its FCS.
  function Excess(f: seq<byte>, len: nat): int
    requires |f| >= 54
  {
    len - 14 - U16(f, TOTAL_LENGTH)
  }

  // The code counts both as data.
  lemma OctetsCount(f: seq<byte>, len: nat)
    requires |f| >= 54
    ensures Parse(f, len).octets == (Carried(f) + Excess(f, len)) % 0x10000
  {}

  function Parse(f: seq<byte>, len: nat): (s: Arrival)
    requires |f| >= 54
    ensures s.Valid()
  {
    Arrival(Key(f[SRC_IP..SRC_IP + 4], U16(f, SRC_PORT)), f[6..12], U16(f, TCP_FLAGS) % 64,
            U32(f, SEQ_NUMBER), U32(f, ACK_NUMBER), DataOctets(f, len))
  }

  // Conversion to int8_t.
  function Narrow(n: int): (r: int)
    ensures -128 <= r <= 127 && (r - n) % 256 == 0
  {
    (n + 128) % 256 - 128
  }

  function Advance(number: nat, step: int): (r: nat)
    ensures r < TWO32
  {
    (number + step) % TWO32
  }

  // ---------- what it does to its slot ----------

  // One pass over the slot: lines 133-271 without the frame.
  function Received(slot: Slot, s: Arrival): Slot {
    if s.control == SYN then
      slot.(key := s.key, mac := s.mac, nextSeq := Advance(s.seqNo, 1), status := SYN_RECEIVED)
    else if s.control == ACK then
      if slot.status == NOT_CONNECTED then slot
      else slot.(nextSeq := Advance(s.seqNo, Narrow(s.octets)), currSeq := s.ackNo,
                 status := if slot.status == SYN_RECEIVED then ESTABLISHED else slot.status)
    else if s.control == PSH_ACK then
      slot.(nextSeq := Advance(s.seqNo, Narrow(s.octets)), currSeq := s.ackNo)
    else if s.control == FIN_ACK then
      slot.(nextSeq := Advance(s.seqNo, 1), currSeq := s.ackNo)
    else slot
  }

  // The value handle_tcp_payload returns.
  function Verdict(slot: Slot, s: Arrival): int {
    if s.control == SYN then TCP_REG
    else if s.control == ACK then
      if slot.status == ESTABLISHED && Narrow(s.octets) > 0 then TCP_REG else TCP_NONE
    else if s.control == PSH_ACK then Narrow(s.octets)
    else if s.control == FIN_ACK then
      if slot.status == NOT_CONNECTED then TCP_CLOSED_ACK else TCP_FIN_ACK
    else TCP_NONE
  }

  function Closed(slot: Slot): Slot {
    slot.(status := NOT_CONNECTED)
  }

  // ---------- what it does to the frame ----------

  // The header turned round towards the peer, with new numbers and control bits.
  function Turned(f: seq<byte>, seqNo: nat, ackNo: nat, bits: nat): (r: seq<byte>)
    requires |f| >= 54 && seqNo < TWO32 && ackNo < TWO32 && bits < 64
    ensures |r| == |f|
  {
    var a := Put(f, ACK_NUMBER, Be32(ackNo));
    var b := Put(a, SEQ_NUMBER, Be32(seqNo));
    var c := Put(b, TCP_FLAGS, Be16(U16(f, TCP_FLAGS) / 0x1000 * 0x1000 + bits));
    var d := Put(c, DST_PORT, c[SRC_PORT..SRC_PORT + 2]);
    Put(d, SRC_PORT, Be16(HOST_TCP_PORT))
  }

  // Frame bytes after handle_tcp_payload; isn is the generated sequence number.
  function PayloadFrame(f: seq<byte>, s: Arrival, status: nat, isn: nat): (r: seq<byte>)
    requires |f| >= 54 && s.Valid() && isn < TWO32
    ensures |r| == |f|
  {
    if s.control == SYN then
      Turned(f, isn, Advance(s.seqNo, 1), SYN_ACK_BITS)
    else if s.control == ACK then
      if status == NOT_CONNECTED then f
      else Put(Put(f, ACK_NUMBER, Be32(Advance(s.seqNo, Narrow(s.octets)))), SEQ_NUMBER, Be32(s.ackNo))
    else if s.control == PSH_ACK then
      var t := Turned(f, s.ackNo, Advance(s.seqNo, Narrow(s.octets)), ACK_BITS);
      Put(t, TOTAL_LENGTH, Be16((U16(f, TOTAL_LENGTH) - Narrow(s.octets)) % 0x10000))
    else if s.control == FIN_ACK then
      Turned(f, s.ackNo, Advance(s.seqNo, 1), ACK_BITS)
    else f
  }

  // The second pass only sets FIN in the reply.
  function SecondFrame(f: seq<byte>): (r: seq<byte>)
    requires |f| >= 54
    ensures |r| == |f|
  {
    Put(f, TCP_FLAGS, Be16(U16(f, TCP_FLAGS) / 0x1000 * 0x1000 + FIN_ACK_BITS))
  }

  function Readdressed(f: seq<byte>): (r: seq<byte>)
    requires |f| >= 54
    ensures |r| == |f|
  {
    var a := Put(f, DST_IP, f[SRC_IP..SRC_IP + 4]);
    var b := Put(a, SRC_IP, TCP_IP);
    Put(b, TTL, [64])
  }

  function Finished(f: seq<byte>, identification: nat, tcpLen: nat): (r: seq<byte>)
    requires |f| >= 54 && identification < 0x10000 && tcpLen < 0x10000 && 34 + tcpLen <= |f|
    ensures |r| == |f|
  {
    WithTcpChecksum(Put(f, IDENTIFICATION, Be16(identification)), tcpLen)
  }

  // ---------- one call of handle_tcp ----------

  datatype Outcome = Outcome(frame: seq<byte>, slots: seq<Slot>, verdict: int)

  predicate ForListener(f: seq<byte>)
    requires |f| >= 54
  {
    f[DST_IP..DST_IP + 4] == TCP_IP && U16(f, DST_PORT) == HOST_TCP_PORT
  }

  predicate FitsBuffer(f: seq<byte>, len: nat) {
    94 <= |f| && 34 <= len <= |f| && |f| <= 0x10000
  }

  // The octets the reply's checksum covers: all of the segment, or its header alone
  // once the data has been acknowledged.
  function ReplyLength(f: seq<byte>, len: nat, verdict: int): (n: nat)
    requires FitsBuffer(f, len)
    ensures 34 + n <= |f|
  {
    if verdict >= 1 then HeaderLength(f) else len - 34
  }

  function FirstPass(f: seq<byte>, len: nat, slots: seq<Slot>, isn: nat): (r: Outcome)
    requires FitsBuffer(f, len) && isn < TWO32
    ensures |r.frame| == |f| && |r.slots| == |slots|
  {
    var s := Parse(f, len);
    var i := Target(slots, s.key);
    if !ForListener(f) || i == -1 then Outcome(f, slots, TCP_NONE)
    else
      var verdict := Verdict(slots[i], s);
      var g := Readdressed(PayloadFrame(f, s, slots[i].status, isn));
      Outcome(Finished(g, 0, ReplyLength(f, len, verdict)), slots[i := Received(slots[i], s)], verdict)
  }

  // With flag set: FIN/ACK, for the peer the turned-round header names.
  function SecondPass(f: seq<byte>, len: nat, slots: seq<Slot>): (r: Outcome)
    requires FitsBuffer(f, len)
    ensures |r.frame| == |f| && |r.slots| == |slots|
  {
    var i := Target(slots, Key(f[DST_IP..DST_IP + 4], U16(f, DST_PORT)));
    if i == -1 then Outcome(f, slots, TCP_NONE)
    else Outcome(Finished(SecondFrame(f), 1, len - 34), slots[i := Closed(slots[i])], TCP_REG)
  }

  // ---------- the code, in place ----------

  method TurnHeader(frame: array<byte>, seqNo: nat, ackNo: nat, bits: nat)
    requires frame.Length >= 54 && seqNo < TWO32 && ackNo < TWO32 && bits < 64
    modifies frame
    ensures frame[..] == Turned(old(frame[..]), seqNo, ackNo, bits)
  {
    hide Be16, Be32;
    var offset := U16(frame[..], TCP_FLAGS) / 0x1000;
    Write(frame, ACK_NUMBER, Be32(ackNo));
    Write(frame, SEQ_NUMBER, Be32(seqNo));
    Write(frame, TCP_FLAGS, Be16(offset * 0x1000 + bits));
    Write(frame, DST_PORT, frame[SRC_PORT..SRC_PORT + 2]);
    Write(frame, SRC_PORT, Be16(HOST_TCP_PORT));
  }

  method HandleTcpPayload(frame: array<byte>, table: array<Slot>, id: nat, s: Arrival, isn: nat) returns (verdict: int)
    requires frame.Length >= 54 && id < table.Length && s.Valid() && isn < TWO32
    modifies frame, table
    ensures frame[..] == PayloadFrame(old(frame[..]), s, old(table[id].status), isn)
    ensures table[..] == old(table[..])[id := Received(old(table[id]), s)]
    ensures verdict == Verdict(old(table[id]), s)
  {
    hide Turned, Be16, Be32;
    var octets := Narrow(s.octets);
    if s.control == SYN {
      var ackNo := Advance(s.seqNo, 1);
      TurnHeader(frame, isn, ackNo, SYN_ACK_BITS);
      table[id] := table[id].(key := s.key, mac := s.mac);
      table[id] := table[id].(nextSeq := ackNo);
      table[id] := table[id].(status := SYN_RECEIVED);
      return TCP_REG;
    } else if s.control == ACK {
      if table[id].status == NOT_CONNECTED {
        return TCP_NONE;
      }
      var ackNo := Advance(s.seqNo, octets);
      Write(frame, ACK_NUMBER, Be32(ackNo));
      Write(frame, SEQ_NUMBER, Be32(s.ackNo));
      table[id] := table[id].(nextSeq := ackNo, currSeq := s.ackNo);
      if table[id].status == ESTABLISHED {
        if octets > 0 {
          return TCP_REG;
        }
      } else if table[id].status == SYN_RECEIVED {
        table[id] := table[id].(status := ESTABLISHED);
      }
      return TCP_NONE;
    } else if s.control == PSH_ACK {
      var ackNo := Advance(s.seqNo, octets);
      var newLength := (U16(frame[..], TOTAL_LENGTH) - octets) % 0x10000;
      TurnHeader(frame, s.ackNo, ackNo, ACK_BITS);
      table[id] := table[id].(nextSeq := ackNo, currSeq := s.ackNo);
      Write(frame, TOTAL_LENGTH, Be16(newLength));
      return octets;
    } else if s.control == FIN_ACK {
      var ackNo := Advance(s.seqNo, 1);
      TurnHeader(frame, s.ackNo, ackNo, ACK_BITS);
      table[id] := table[id].(nextSeq := ackNo, currSeq := s.ackNo);
      if table[id].status == NOT_CONNECTED {
        return TCP_CLOSED_ACK;
      }
      return TCP_FIN_ACK;
    }
    return TCP_NONE;
  }

  method FinishReply(frame: array<byte>, identification: nat, tcpLen: nat)
    requires frame.Length >= 54 && identification < 0x10000 && tcpLen < 0x10000 && 34 + tcpLen <= frame.Length
    modifies frame
    ensures frame[..] == Finished(old(frame[..]), identification, tcpLen)
  {
    hide TcpSum, Be16;
    Write(frame, IDENTIFICATION, Be16(identification));
    Write(frame, TCP_CHECKSUM, [0, 0]);
    var checksum := CalculateTcpChecksum(frame, tcpLen);
    Write(frame, TCP_CHECKSUM, Be16(checksum));
  }

  method Readdress(frame: array<byte>)
    requires frame.Length >= 54
    modifies frame
    ensures frame[..] == Readdressed(old(frame[..]))
  {
    Write(frame, DST_IP, frame[SRC_IP..SRC_IP + 4]);
    Write(frame, SRC_IP, TCP_IP);
    Write(frame, TTL, [64]);
  }

  // Lines 74-82.
  method FindTarget(table: array<Slot>, key: Key) returns (id: int)
    ensures id == Target(table[..], key)
  {
    id := ConnectionLookup(table, key);
    if id == -1 {
      id := IsSpace(table);
    }
  }

  // The 16-bit length arithmetic of lines 39-41 and 101 comes out exact.
  lemma LengthsAgree(len: nat, headerLen: nat, octets: nat)
    requires 34 <= len <= 0x10000 && headerLen <= 60 && octets == (len - 34 - headerLen) % 0x10000
    ensures (headerLen + octets) % 0x10000 == len - 34
    ensures (len - 34 - octets) % 0x10000 == headerLen
  {
    if len - 34 < headerLen {
      assert octets == len - 34 - headerLen + 0x10000;
    } else {
      assert octets == len - 34 - headerLen;
    }
  }

  // handle_tcp with flag 0.
  method HandleTcp(frame: array<byte>, len: nat, table: array<Slot>, isn: nat) returns (verdict: int)
    requires FitsBuffer(frame[..], len) && isn < TWO32
    modifies frame, table
    ensures Outcome(frame[..], table[..], verdict) == FirstPass(old(frame[..]), len, old(table[..]), isn)
  {
    hide PayloadFrame, Received, Verdict, Finished, Be16, Readdressed, Target, U32, Be32;
    var s := Parse(frame[..], len);
    var headerLen := HeaderLength(frame[..]);
    LengthsAgree(len, headerLen, s.octets);
    var segmentLen := (headerLen + s.octets) % 0x10000;
    if frame[DST_IP..DST_IP + 4] != TCP_IP {
      assert !ForListener(frame[..]);
      return TCP_NONE;
    }
    if U16(frame[..], DST_PORT) != HOST_TCP_PORT {
      return TCP_NONE;
    }
    var id := FindTarget(table, s.key);
    if id == -1 {
      return TCP_NONE;
    }
    verdict := HandleTcpPayload(frame, table, id, s, isn);
    Readdress(frame);
    if verdict >= 1 {
      segmentLen := (segmentLen - s.octets) % 0x10000;
    }
    FinishReply(frame, 0, segmentLen);
  }

  // handle_tcp with flag 1.
  method HandleTcpAgain(frame: array<byte>, len: nat, table: array<Slot>) returns (verdict: int)
    requires FitsBuffer(frame[..], len)
    modifies frame, table
    ensures Outcome(frame[..], table[..], verdict) == SecondPass(old(frame[..]), len, old(table[..]))
  {
    hide Finished, Be16, Target;
    var f := frame[..];
    var key := Key(f[DST_IP..DST_IP + 4], U16(f, DST_PORT));
    var id := FindTarget(table, key);
    if id == -1 {
      return TCP_NONE;
    }
    Write(frame, TCP_FLAGS, Be16(U16(f, TCP_FLAGS) / 0x1000 * 0x1000 + FIN_ACK_BITS));
    table[id] := table[id].(status := NOT_CONNECTED);
    FinishReply(frame, 1, len - 34);
    return TCP_REG;
  }
}
