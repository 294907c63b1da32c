// tcp.c: the TCP checksum and the segments the user's input becomes.
module TcpSegment {
  import opened Bytes
  import opened CrcDetection
  import opened InternetChecksum
  import opened Ethernet
  import opened Encapsulation
  import opened TcpTable

  const HOST_TCP_PORT: nat := 1234

  const SRC_PORT := 34
  const DST_PORT := 36
  const SEQ_NUMBER := 38
  const ACK_NUMBER := 42
  const TCP_FLAGS := 46
  const TCP_CHECKSUM := 50

  // ---------- checksum over pseudo-header and segment ----------

  function PseudoHeader(src: seq<byte>, dst: seq<byte>, tcpLen: nat): (s: seq<byte>)
    requires |src| == 4 && |dst| == 4 && tcpLen < 0x10000
    ensures |s| == 12
  {
    src + dst + [0, 6] + Be16(tcpLen)
  }

  // What is summed for the segment at offset 34 of f, before padding.
  function Covered(f: seq<byte>, tcpLen: nat): (s: seq<byte>)
    requires 34 + tcpLen <= |f| && tcpLen < 0x10000
    ensures |s| == 12 + tcpLen
  {
    PseudoHeader(f[SRC_IP..SRC_IP + 4], f[DST_IP..DST_IP + 4], tcpLen) + f[34..34 + tcpLen]
  }

  function TcpSum(f: seq<byte>, tcpLen: nat): (r: nat)
    requires 34 + tcpLen <= |f| && tcpLen < 0x10000
    ensures r <= 0xFFFF
  {
    Checksum(Covered(f, tcpLen))
  }

  predicate TcpVerifies(f: seq<byte>, tcpLen: nat)
    requires 34 + tcpLen <= |f| && tcpLen < 0x10000
  {
    TcpSum(f, tcpLen) == 0
  }

  // The code pads the copy to an even length before summing it.
  method CalculateTcpChecksum(frame: array<byte>, tcpLen: nat) returns (checksum: nat)
    requires 34 + tcpLen <= frame.Length && tcpLen < 0x10000
    ensures checksum == TcpSum(frame[..], tcpLen)
  {
    hide Checksum, PseudoHeader, Put;
    var totalLen := 12 + tcpLen;
    if totalLen % 2 != 0 {
      totalLen := totalLen + 1;
    }
    var buffer := new byte[totalLen](_ => 0);
    Write(buffer, 0, PseudoHeader(frame[SRC_IP..SRC_IP + 4], frame[DST_IP..DST_IP + 4], tcpLen));
    Write(buffer, 12, frame[34..34 + tcpLen]);
    ghost var covered := Covered(frame[..], tcpLen);
    assert frame[..][34..34 + tcpLen] == frame[34..34 + tcpLen];
    if totalLen == 12 + tcpLen {
      assert buffer[0..totalLen] == covered;
    } else {
      assert buffer[0..totalLen] == covered + [0];
      ChecksumPadded(covered);
    }
    checksum := ComputeChecksum(buffer, 0, totalLen);
  }

  function WithTcpChecksum(f: seq<byte>, tcpLen: nat): (r: seq<byte>)
    requires 34 + tcpLen <= |f| && tcpLen < 0x10000 && |f| >= 54
    ensures |r| == |f|
  {
    var z := Put(f, TCP_CHECKSUM, [0, 0]);
    Put(z, TCP_CHECKSUM, Be16(TcpSum(z, tcpLen)))
  }

  lemma TcpChecksumVerifies(f: seq<byte>, tcpLen: nat)
    requires 20 <= tcpLen < 0x10000 && 34 + tcpLen <= |f|
    ensures TcpVerifies(WithTcpChecksum(f, tcpLen), tcpLen)
    ensures WithTcpChecksum(f, tcpLen)[..50] == f[..50] && WithTcpChecksum(f, tcpLen)[52..] == f[52..]
  {
    hide Checksum;
    var z := Put(f, TCP_CHECKSUM, [0, 0]);
    var c := Covered(z, tcpLen);
    var r := WithTcpChecksum(f, tcpLen);
    assert c[28] == z[50] && c[29] == z[51];
    StoredChecksumVerifies(c, 28);
    assert Covered(r, tcpLen) == Put(c, 28, Be16(Checksum(c)));
  }

  // The TCP sum reads the two addresses and the segment, nothing else.
  lemma SameTcpSum(f: seq<byte>, g: seq<byte>, tcpLen: nat)
    requires tcpLen < 0x10000 && 34 + tcpLen <= |f| && 34 + tcpLen <= |g|
    requires f[26..34 + tcpLen] == g[26..34 + tcpLen]
    ensures TcpSum(f, tcpLen) == TcpSum(g, tcpLen)
  {
    hide Checksum;
    var hi := 34 + tcpLen;
    SameWithin(f, g, 26, hi, SRC_IP, SRC_IP + 4);
    SameWithin(f, g, 26, hi, DST_IP, DST_IP + 4);
    SameWithin(f, g, 26, hi, 34, hi);
  }

  lemma CoveredSum(f: seq<byte>, tcpLen: nat)
    requires 34 + tcpLen <= |f| && tcpLen < 0x10000
    ensures WordSum(Covered(f, tcpLen))
            == WordSum(f[SRC_IP..SRC_IP + 4] + f[DST_IP..DST_IP + 4] + [0, 6]) + tcpLen + WordSum(f[34..34 + tcpLen])
  {
    hide WordSum, Be16;
    var head, segment := f[SRC_IP..SRC_IP + 4] + f[DST_IP..DST_IP + 4] + [0, 6], f[34..34 + tcpLen];
    assert Covered(f, tcpLen) == head + (Be16(tcpLen) + segment);
    WordSumAppend(head, Be16(tcpLen) + segment);
    WordSumAppend(Be16(tcpLen), segment);
    WordSumOfWord(tcpLen);
  }

  lemma WordSumOfWord(v: nat)
    requires v < 0x10000
    ensures WordSum(Be16(v)) == v
  {
    assert Be16(v)[2..] == [];
  }

  // The length is part of the sum: a checksum that verifies with zeros counted as part
  // of the segment does not verify without them.
  lemma PaddingCounts(f: seq<byte>, tcpLen: nat, padded: nat)
    requires 0 < tcpLen < padded < 0x10000 && 34 + padded <= |f|
    requires AllZero(f[34 + tcpLen..34 + padded]) && TcpVerifies(f, padded)
    ensures !TcpVerifies(f, tcpLen)
  {
    hide WordSum, Checksum, Covered;
    var segment, zeros := f[34..34 + tcpLen], f[34 + tcpLen..34 + padded];
    CoveredSum(f, tcpLen);
    CoveredSum(f, padded);
    assert f[34..34 + padded] == segment + zeros;
    WordSumZeros(segment, zeros);
    VerifiesIff(Covered(f, tcpLen));
    VerifiesIff(Covered(f, padded));
    var n := WordSum(Covered(f, padded));
    ShiftedMultiple(n, tcpLen - padded);
  }

  // Sealing leaves the TCP checksum valid.
  lemma SealKeepsTcp(f: seq<byte>, len: nat, tcpLen: nat)
    requires tcpLen < 0x10000 && 34 + tcpLen + 4 <= len <= |f|
    requires TcpVerifies(f, tcpLen)
    ensures TcpVerifies(Sealed(f, len), tcpLen)
  {
    hide Sealed, TcpSum, HeaderVerifies, FcsMatches;
    var r := Sealed(f, len);
    SealedVerifies(f, len);
    SameWithin(r, f, 26, len - 4, 26, 34 + tcpLen);
    SameTcpSum(r, f, tcpLen);
  }

  // ---------- what a receiver checks ----------

  // The frame is not short, all three checksums verify, the TCP one over the segment the
  // IP header announces, and the datagram it announces fills the frame.
  ghost predicate AcceptedByPeer(r: seq<byte>)
    requires |r| >= 54
  {
    && MIN_FRAME <= |r| && 20 < U16(r, TOTAL_LENGTH) && |r| == 14 + U16(r, TOTAL_LENGTH) + 4
    && FcsMatches(r) && HeaderVerifies(r) && TcpVerifies(r, U16(r, TOTAL_LENGTH) - 20)
  }

  // The checksums verify, the TCP one over everything up to the FCS.
  ghost predicate Sound(r: seq<byte>)
    requires 54 <= |r| <= 0x10000
  {
    FcsMatches(r) && HeaderVerifies(r) && TcpVerifies(r, |r| - 38)
  }

  lemma SoundIsAcceptedIff(r: seq<byte>)
    requires 58 <= |r| <= 0x10000 && Sound(r)
    ensures AcceptedByPeer(r) <==> U16(r, TOTAL_LENGTH) == |r| - 18 && MIN_FRAME <= |r|
  {
    hide FcsMatches, HeaderVerifies, TcpSum;
  }

  // ---------- create_tcp_segment ----------

  const MAX_DATA: nat := 1023

  function EthernetHeader(slot: Slot, tcpMac: seq<byte>): (h: seq<byte>)
    requires slot.Valid() && |tcpMac| == 6
    ensures |h| == 14
  {
    slot.mac + tcpMac + [0x08, 0x00]
  }

  // Version and IHL, type of service, total length, identification, don't fragment,
  // TTL, protocol, checksum (still zero), addresses.
  function IpHeader(slot: Slot, tcpIp: seq<byte>, n: nat): (h: seq<byte>)
    requires slot.Valid() && |tcpIp| == 4 && n <= MAX_DATA
    ensures |h| == 20
  {
    [0x45, 0x00] + Be16(40 + n) + [0, 0] + [0x40, 0x00] + [64, 6] + [0, 0] + tcpIp + slot.key.ip
  }

  // Ports, sequence and acknowledgement numbers, flags, window, checksum (still zero),
  // urgent pointer.
  function TcpHeader(slot: Slot, fin: bool): (h: seq<byte>)
    requires slot.Valid()
    ensures |h| == 20
  {
    Be16(HOST_TCP_PORT) + Be16(slot.key.port) + Be32(slot.currSeq) + Be32(slot.nextSeq)
    + Be16(if fin then 0x5011 else 0x5018) + [0xFF, 0xFF] + [0, 0] + [0, 0]
  }

  // The frame with its checksums still zero.
  function SegmentDraft(slot: Slot, tcpMac: seq<byte>, tcpIp: seq<byte>, data: seq<byte>, fin: bool): (f: seq<byte>)
    requires slot.Valid() && |tcpMac| == 6 && |tcpIp| == 4 && |data| <= MAX_DATA
    ensures |f| == 58 + |data|
  {
    EthernetHeader(slot, tcpMac) + IpHeader(slot, tcpIp, |data|) + TcpHeader(slot, fin) + data + [0, 0, 0, 0]
  }

  function Segment(slot: Slot, tcpMac: seq<byte>, tcpIp: seq<byte>, data: seq<byte>, fin: bool): (f: seq<byte>)
    requires slot.Valid() && |tcpMac| == 6 && |tcpIp| == 4 && |data| <= MAX_DATA
    ensures |f| == 58 + |data|
  {
    Sealed(WithTcpChecksum(SegmentDraft(slot, tcpMac, tcpIp, data, fin), 20 + |data|), 58 + |data|)
  }

  // The slot once a segment with n octets has gone out: a segment without data takes
  // one sequence number, and a FIN closes the connection.
  function AfterSend(slot: Slot, n: nat, fin: bool): Slot {
    slot.(currSeq := (slot.currSeq + if n == 0 then 1 else n) % TWO32,
          status := if fin then NOT_CONNECTED else slot.status)
  }

  method CreateTcpSegment(table: array<Slot>, id: nat, tcpMac: seq<byte>, tcpIp: seq<byte>, data: seq<byte>, fin: bool)
    returns (frame: array<byte>)
    requires id < table.Length && table[id].Valid()
    requires |tcpMac| == 6 && |tcpIp| == 4 && |data| <= MAX_DATA
    modifies table
    ensures fresh(frame)
    ensures var sent := if fin then [] else data;
            && frame[..] == Segment(old(table[id]), tcpMac, tcpIp, sent, fin)
            && table[..] == old(table[..])[id := AfterSend(old(table[id]), |sent|, fin)]
  {
    hide Sealed, Checksum, TcpSum, SegmentDraft, Be16;
    var sent := if fin then [] else data;
    var n := |sent|;
    var slot := table[id];
    frame := new byte[58 + n](_ => 0);
    WriteHeaders(frame, slot, tcpMac, tcpIp, sent, fin);
    if fin {
      table[id] := table[id].(status := NOT_CONNECTED);
    }
    if n == 0 {
      table[id] := table[id].(currSeq := (table[id].currSeq + 1) % TWO32);
    } else {
      table[id] := table[id].(currSeq := (table[id].currSeq + n) % TWO32);
    }
    Write(frame, TCP_CHECKSUM, [0, 0]);
    var tcpChecksum := CalculateTcpChecksum(frame, 20 + n);
    Write(frame, TCP_CHECKSUM, Be16(tcpChecksum));
    Seal(frame, 58 + n);
  }

  // The next field after the `done` octets already written at `start`.
  method Extend(frame: array<byte>, ghost before: seq<byte>, start: nat, ghost done: seq<byte>, at: nat, field: seq<byte>)
    returns (ghost now: seq<byte>)
    requires |before| == frame.Length && at == start + |done| && at + |field| <= frame.Length
    requires frame[..] == Put(before, start, done)
    modifies frame
    ensures now == done + field && frame[..] == Put(before, start, now)
  {
    Write(frame, at, field);
    PutAppend(before, start, done, field);
    now := done + field;
  }

  method WriteIpHeader(frame: array<byte>, slot: Slot, tcpIp: seq<byte>, n: nat)
    requires slot.Valid() && |tcpIp| == 4 && n <= MAX_DATA && frame.Length >= 34
    modifies frame
    ensures frame[..] == Put(old(frame[..]), 14, IpHeader(slot, tcpIp, n))
  {
    hide Be16;
    ghost var f := frame[..];
    ghost var h: seq<byte> := [0x45, 0x00];
    Write(frame, 14, [0x45, 0x00]);
    h := Extend(frame, f, 14, h, TOTAL_LENGTH, Be16(40 + n));
    h := Extend(frame, f, 14, h, IDENTIFICATION, [0, 0]);
    h := Extend(frame, f, 14, h, 20, [0x40, 0x00]);
    h := Extend(frame, f, 14, h, TTL, [64, 6]);
    h := Extend(frame, f, 14, h, HEADER_CHECKSUM, [0, 0]);
    h := Extend(frame, f, 14, h, SRC_IP, tcpIp);
    h := Extend(frame, f, 14, h, DST_IP, slot.key.ip);
  }

  method WriteTcpHeader(frame: array<byte>, slot: Slot, fin: bool)
    requires slot.Valid() && frame.Length >= 54
    modifies frame
    ensures frame[..] == Put(old(frame[..]), 34, TcpHeader(slot, fin))
  {
    hide Be16, Be32;
    ghost var f := frame[..];
    ghost var h := Be16(HOST_TCP_PORT);
    Write(frame, SRC_PORT, Be16(HOST_TCP_PORT));
    h := Extend(frame, f, 34, h, DST_PORT, Be16(slot.key.port));
    h := Extend(frame, f, 34, h, SEQ_NUMBER, Be32(slot.currSeq));
    h := Extend(frame, f, 34, h, ACK_NUMBER, Be32(slot.nextSeq));
    h := Extend(frame, f, 34, h, TCP_FLAGS, Be16(if fin then 0x5011 else 0x5018));
    h := Extend(frame, f, 34, h, 48, [0xFF, 0xFF]);
    h := Extend(frame, f, 34, h, TCP_CHECKSUM, [0, 0]);
    h := Extend(frame, f, 34, h, 52, [0, 0]);
  }

  // Lines 569-605: the three headers and the data, into a zeroed frame.
  method WriteHeaders(frame: array<byte>, slot: Slot, tcpMac: seq<byte>, tcpIp: seq<byte>, data: seq<byte>, fin: bool)
    requires slot.Valid() && |tcpMac| == 6 && |tcpIp| == 4 && |data| <= MAX_DATA
    requires frame[..] == seq(58 + |data|, _ => 0)
    modifies frame
    ensures frame[..] == SegmentDraft(slot, tcpMac, tcpIp, data, fin)
  {
    hide IpHeader, TcpHeader, Put;
    ghost var f := frame[..];
    ghost var ip, tcp := IpHeader(slot, tcpIp, |data|), TcpHeader(slot, fin);
    Write(frame, 6, tcpMac);
    Write(frame, 0, slot.mac);
    ghost var h := Extend(frame, f, 0, slot.mac + tcpMac, 12, [0x08, 0x00]);
    WriteIpHeader(frame, slot, tcpIp, |data|);
    PutAppend(f, 0, h, ip);
    WriteTcpHeader(frame, slot, fin);
    PutAppend(f, 0, h + ip, tcp);
    Write(frame, 54, data);
    PutAppend(f, 0, h + ip + tcp, data);
    assert frame[..] == Put(f, 0, h + ip + tcp + data);
  }

  // Every segment verifies at all three layers, its lengths agree, and it carries the
  // data, both ends' addresses and the slot's numbers. It is not padded, so the peer
  // accepts it exactly when the data make up the length of a frame.
  lemma SegmentIsAccepted(slot: Slot, tcpMac: seq<byte>, tcpIp: seq<byte>, data: seq<byte>, fin: bool)
    requires slot.Valid() && |tcpMac| == 6 && |tcpIp| == 4 && |data| <= MAX_DATA
    ensures var f := Segment(slot, tcpMac, tcpIp, data, fin);
            && Sound(f) && (AcceptedByPeer(f) <==> |data| >= 6)
            && U16(f, TOTAL_LENGTH) == 40 + |data| && |f| == 14 + U16(f, TOTAL_LENGTH) + 4
            && f[..6] == slot.mac && f[6..12] == tcpMac && f[12..14] == [0x08, 0x00]
            && f[14..16] == [0x45, 0x00] && f[18..24] == [0x00, 0x00, 0x40, 0x00, 64, 6]
            && f[SRC_IP..SRC_IP + 4] == tcpIp && f[DST_IP..DST_IP + 4] == slot.key.ip
            && U16(f, SRC_PORT) == HOST_TCP_PORT && U16(f, DST_PORT) == slot.key.port
            && U32(f, SEQ_NUMBER) == slot.currSeq && U32(f, ACK_NUMBER) == slot.nextSeq
            && U16(f, TCP_FLAGS) == (if fin then 0x5011 else 0x5018)
            && f[48..50] == [0xFF, 0xFF] && f[52..54] == [0x00, 0x00] && f[54..54 + |data|] == data
  {
    hide Sealed, Checksum, WithTcpChecksum, SegmentDraft, FcsMatches, AcceptedByPeer;
    var n := |data|;
    var d := SegmentDraft(slot, tcpMac, tcpIp, data, fin);
    var t := WithTcpChecksum(d, 20 + n);
    var f := Sealed(t, 58 + n);
    DraftFields(slot, tcpMac, tcpIp, data, fin);
    TcpChecksumVerifies(d, 20 + n);
    SealedVerifies(t, 58 + n);
    SealKeepsTcp(t, 58 + n, 20 + n);
    assert f[..58 + n] == f;
    SameWithin(t, d, 0, 50, 0, 24);
    SameWithin(f, t, 0, 24, 0, 24);
    assert f[..24] == d[..24];
    SameWithin(f, d, 0, 24, 0, 6);
    SameWithin(f, d, 0, 24, 6, 12);
    SameWithin(f, d, 0, 24, 12, 14);
    SameWithin(f, d, 0, 24, 14, 16);
    SameWithin(f, d, 0, 24, 18, 24);
    SameWithin(f, d, 0, 24, 16, 18);
    SameWithin(f, d, 0, 24, 17, 18);
    SameWithin(t, d, 0, 50, 26, 50);
    SameWithin(f, t, 26, 54 + n, 26, 50);
    assert f[26..50] == d[26..50];
    SameWithin(f, d, 26, 50, 48, 50);
    SameWithin(f, d, 26, 50, SRC_IP, SRC_IP + 4);
    SameWithin(f, d, 26, 50, DST_IP, DST_IP + 4);
    SameFields(f, d);
    assert t[52..54 + n] == t[52..][..n + 2] && d[52..54 + n] == d[52..][..n + 2];
    SameWithin(t, d, 52, 54 + n, 52, 54);
    SameWithin(f, t, 26, 54 + n, 52, 54);
    SameWithin(t, d, 52, 54 + n, 54, 54 + n);
    SameWithin(f, t, 26, 54 + n, 54, 54 + n);
    SoundIsAcceptedIff(f);
  }

  // In particular no FIN of the user's is accepted: it carries no data.
  lemma FinIsShort(slot: Slot, tcpMac: seq<byte>, tcpIp: seq<byte>)
    requires slot.Valid() && |tcpMac| == 6 && |tcpIp| == 4
    ensures var f := Segment(slot, tcpMac, tcpIp, [], true);
            |f| == 58 && !AcceptedByPeer(f)
  {
    hide Segment, AcceptedByPeer;
    SegmentIsAccepted(slot, tcpMac, tcpIp, [], true);
  }

  lemma SameFields(f: seq<byte>, d: seq<byte>)
    requires |f| >= 50 && |d| >= 50 && f[26..50] == d[26..50]
    ensures U16(f, SRC_PORT) == U16(d, SRC_PORT) && U16(f, DST_PORT) == U16(d, DST_PORT)
    ensures U16(f, TCP_FLAGS) == U16(d, TCP_FLAGS)
    ensures U32(f, SEQ_NUMBER) == U32(d, SEQ_NUMBER) && U32(f, ACK_NUMBER) == U32(d, ACK_NUMBER)
  {
    SameU16(f, d, 26, 50, 34);
    SameU16(f, d, 26, 50, 36);
    SameU16(f, d, 26, 50, 38);
    SameU16(f, d, 26, 50, 40);
    SameU16(f, d, 26, 50, 42);
    SameU16(f, d, 26, 50, 44);
    SameU16(f, d, 26, 50, 46);
  }

  lemma DraftFields(slot: Slot, tcpMac: seq<byte>, tcpIp: seq<byte>, data: seq<byte>, fin: bool)
    requires slot.Valid() && |tcpMac| == 6 && |tcpIp| == 4 && |data| <= MAX_DATA
    ensures var d := SegmentDraft(slot, tcpMac, tcpIp, data, fin);
            && d[..6] == slot.mac && d[6..12] == tcpMac && d[12..14] == [0x08, 0x00]
            && U16(d, TOTAL_LENGTH) == 40 + |data|
            && d[14..16] == [0x45, 0x00] && d[18..24] == [0x00, 0x00, 0x40, 0x00, 64, 6]
            && d[48..50] == [0xFF, 0xFF] && d[52..54] == [0x00, 0x00]
            && d[SRC_IP..SRC_IP + 4] == tcpIp && d[DST_IP..DST_IP + 4] == slot.key.ip
            && U16(d, SRC_PORT) == HOST_TCP_PORT && U16(d, DST_PORT) == slot.key.port
            && U32(d, SEQ_NUMBER) == slot.currSeq && U32(d, ACK_NUMBER) == slot.nextSeq
            && U16(d, TCP_FLAGS) == (if fin then 0x5011 else 0x5018)
            && d[54..54 + |data|] == data
  {
    hide EthernetHeader, IpHeader, TcpHeader, SegmentDraft, U16, U32;
    var d := SegmentDraft(slot, tcpMac, tcpIp, data, fin);
    var tcp := TcpHeader(slot, fin);
    DraftParts(slot, tcpMac, tcpIp, data, fin);
    IpHeaderFields(slot, tcpIp, |data|);
    TcpHeaderFields(slot, fin);
    EthernetFields(slot, tcpMac);
    assert d[0..14] == d[..14];
    SliceWithin(d, 0, 14, 0, 6);
    SliceWithin(d, 0, 14, 6, 12);
    SliceWithin(d, 0, 14, 12, 14);
    SliceWithin(d, 14, 34, 14, 16);
    SliceWithin(d, 14, 34, 18, 24);
    SliceWithin(d, 14, 34, 26, 30);
    SliceWithin(d, 14, 34, 30, 34);
    SliceWithin(d, 34, 54, 38, 42);
    SliceWithin(d, 34, 54, 42, 46);
    SliceWithin(d, 34, 54, 48, 50);
    SliceWithin(d, 34, 54, 52, 54);
    assert d[22] == d[18..24][4] && d[23] == d[18..24][5];
    U16Slice(d, 14, 34, 16);
    U16Slice(d, 34, 54, 34);
    U16Slice(d, 34, 54, 36);
    U16Slice(d, 34, 54, 46);
    U32Slice(d, 38, 42);
    U32Slice(d, 42, 46);
    U32Slice(tcp, 4, 8);
    U32Slice(tcp, 8, 12);
  }

  lemma DraftParts(slot: Slot, tcpMac: seq<byte>, tcpIp: seq<byte>, data: seq<byte>, fin: bool)
    requires slot.Valid() && |tcpMac| == 6 && |tcpIp| == 4 && |data| <= MAX_DATA
    ensures var d := SegmentDraft(slot, tcpMac, tcpIp, data, fin);
            && d[..14] == EthernetHeader(slot, tcpMac) && d[14..34] == IpHeader(slot, tcpIp, |data|)
            && d[34..54] == TcpHeader(slot, fin) && d[54..54 + |data|] == data
  {
    hide EthernetHeader, IpHeader, TcpHeader;
  }

  lemma EthernetFields(slot: Slot, tcpMac: seq<byte>)
    requires slot.Valid() && |tcpMac| == 6
    ensures var h := EthernetHeader(slot, tcpMac);
            h[..6] == slot.mac && h[6..12] == tcpMac && h[12..14] == [0x08, 0x00]
  {}

  lemma IpHeaderFields(slot: Slot, tcpIp: seq<byte>, n: nat)
    requires slot.Valid() && |tcpIp| == 4 && n <= MAX_DATA
    ensures var h := IpHeader(slot, tcpIp, n);
            && h[..2] == [0x45, 0x00] && U16(h, 2) == 40 + n && h[4..10] == [0x00, 0x00, 0x40, 0x00, 64, 6]
            && h[12..16] == tcpIp && h[16..20] == slot.key.ip
  {
    hide Be16;
    var h := IpHeader(slot, tcpIp, n);
    var head := [0x45, 0x00] + Be16(40 + n) + [0, 0] + [0x40, 0x00] + [64, 6] + [0, 0];
    assert h[2..4] == Be16(40 + n);
    U16Slice(h, 2, 4, 2);
    assert |head| == 12 && h == head + tcpIp + slot.key.ip;
    assert h[..16] == head + tcpIp && h[16..] == slot.key.ip;
    assert h[12..16] == (head + tcpIp)[12..] && h[16..20] == h[16..];
  }

  lemma TcpHeaderFields(slot: Slot, fin: bool)
    requires slot.Valid()
    ensures var h := TcpHeader(slot, fin);
            && U16(h, 0) == HOST_TCP_PORT && U16(h, 2) == slot.key.port
            && U32(h, 4) == slot.currSeq && U32(h, 8) == slot.nextSeq
            && U16(h, 12) == (if fin then 0x5011 else 0x5018)
            && h[14..16] == [0xFF, 0xFF] && h[18..20] == [0x00, 0x00]
  {
    hide Be16, Be32;
    var h := TcpHeader(slot, fin);
    assert h[0..2] == Be16(HOST_TCP_PORT) && h[2..4] == Be16(slot.key.port);
    assert h[4..8] == Be32(slot.currSeq) && h[8..12] == Be32(slot.nextSeq);
    assert h[12..14] == Be16(if fin then 0x5011 else 0x5018);
    U16Slice(h, 0, 2, 0);
    U16Slice(h, 2, 4, 2);
    U16Slice(h, 12, 14, 12);
    U32Slice(h, 4, 8);
    U32Slice(h, 8, 12);
  }
}
