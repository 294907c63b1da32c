// ip-encapsulation.c and icmp.c: rewriting a received frame in place and sealing it.
// frame_, packet_ and or_frame all point into one buffer, so one array stands for the
// three of them and header fields are offsets into it.
module Encapsulation {
  import opened Bytes
  import opened Crc32
  import opened CrcDetection
  import opened InternetChecksum
  import opened Ethernet

  // ---------- fields of an IPv4 frame with a 20-byte header ----------

  const SRC_MAC := 6
  const TOTAL_LENGTH := 16
  const IDENTIFICATION := 18
  const TTL := 22
  const PROTOCOL := 23
  const HEADER_CHECKSUM := 24
  const SRC_IP := 26
  const DST_IP := 30
  const PAYLOAD := 34

  const ICMP_FRAME := 74

  predicate HeaderVerifies(f: seq<byte>)
    requires |f| >= PAYLOAD
  {
    Checksum(f[14..34]) == 0
  }

  // An ICMP error: type and code as they go on the wire.
  datatype Icmp = Icmp(kind: byte, code: byte)

  // ---------- sealing ----------

  function WithHeaderChecksum(f: seq<byte>): (r: seq<byte>)
    requires |f| >= PAYLOAD
    ensures |r| == |f|
  {
    var z := Put(f, HEADER_CHECKSUM, [0, 0]);
    Put(z, HEADER_CHECKSUM, Be16(Checksum(z[14..34])))
  }

  function WithFcs(f: seq<byte>, len: nat): (r: seq<byte>)
    requires 4 <= len <= |f|
    ensures |r| == |f|
  {
    Put(f, len - 4, StoreLe(Crc(0, f[..len - 4])))
  }

  function Sealed(f: seq<byte>, len: nat): (r: seq<byte>)
    requires PAYLOAD + 4 <= len <= |f|
    ensures |r| == |f|
  {
    WithFcs(WithHeaderChecksum(f), len)
  }

  lemma HeaderChecksumVerifies(f: seq<byte>)
    requires |f| >= PAYLOAD
    ensures HeaderVerifies(WithHeaderChecksum(f))
    ensures WithHeaderChecksum(f)[..24] == f[..24] && WithHeaderChecksum(f)[26..] == f[26..]
  {
    hide Checksum;
    var z := Put(f, HEADER_CHECKSUM, [0, 0]);
    StoredChecksumVerifies(z[14..34], 10);
    PutWithin(z, HEADER_CHECKSUM, Be16(Checksum(z[14..34])), 14, 34);
  }

  lemma FcsVerifies(f: seq<byte>, len: nat)
    requires 4 <= len <= |f|
    ensures FcsMatches(WithFcs(f, len)[..len])
    ensures WithFcs(f, len)[..len - 4] == f[..len - 4] && WithFcs(f, len)[len..] == f[len..]
  {
    hide Crc, StoreLe;
    var p := f[..len - 4];
    SealedMatches(p);
    assert WithFcs(f, len)[..len] == p + StoreLe(Crc(0, p));
  }

  // Whatever was in the buffer, a sealed frame passes both receive-side checks, and
  // sealing changes nothing but the two checksum fields.
  lemma SealedVerifies(f: seq<byte>, len: nat)
    requires PAYLOAD + 4 <= len <= |f|
    ensures var r := Sealed(f, len);
            && FcsMatches(r[..len]) && HeaderVerifies(r)
            && r[..24] == f[..24] && r[26..len - 4] == f[26..len - 4]
  {
    hide FcsMatches, WithFcs, WithHeaderChecksum, Checksum;
    var h := WithHeaderChecksum(f);
    var r := WithFcs(h, len);
    HeaderChecksumVerifies(f);
    FcsVerifies(h, len);
    assert r[14..34] == r[..len - 4][14..34] == h[14..34];
    assert r[..24] == r[..len - 4][..24] == h[..24];
    assert r[26..len - 4] == r[..len - 4][26..] == h[26..len - 4] == h[26..][..len - 30];
    assert f[26..len - 4] == f[26..][..len - 30];
  }

  // ---------- icmp.c: the error message built over the received datagram ----------

  // Everything handle_icmp writes before its checksum.
  function IcmpDraft(f: seq<byte>, icmp: Icmp, own: Interface): (r: seq<byte>)
    requires |f| >= ICMP_FRAME && own.Valid()
    ensures |r| == |f|
  {
    var f1 := Put(f, 42, f[14..42]);
    var f2 := Put(f1, PROTOCOL, [1]);
    var f3 := Put(f2, TOTAL_LENGTH, Be16(56));
    var f4 := Put(f3, TTL, [64]);
    var f5 := Put(f4, IDENTIFICATION, [0, 0]);
    var f6 := Put(f5, DST_IP, f5[26..30]);
    var f7 := Put(f6, SRC_IP, own.ip);
    var f8 := Put(f7, 34, [icmp.kind]);
    var f9 := Put(f8, 35, [icmp.code]);
    var f10 := Put(f9, 36, [0, 0]);
    Put(f10, 38, [0, 0, 0, 0])
  }

  function IcmpMessage(f: seq<byte>, icmp: Icmp, own: Interface): (r: seq<byte>)
    requires |f| >= ICMP_FRAME && own.Valid()
    ensures |r| == |f|
  {
    var d := IcmpDraft(f, icmp, own);
    var e := Put(d, 36, Be16(Checksum(d[34..70])));
    Put(e, TOTAL_LENGTH, Be16(56))
  }

  method HandleIcmp(frame: array<byte>, icmp: Icmp, own: Interface) returns (len: nat)
    requires frame.Length >= ICMP_FRAME && own.Valid()
    modifies frame
    ensures frame[..] == IcmpMessage(old(frame[..]), icmp, own)
    ensures len == ICMP_FRAME
  {
    hide Checksum;
    Write(frame, 42, frame[14..42]);
    Write(frame, PROTOCOL, [1]);
    Write(frame, TOTAL_LENGTH, Be16(56));
    Write(frame, TTL, [64]);
    Write(frame, IDENTIFICATION, [0, 0]);
    Write(frame, DST_IP, frame[26..30]);
    Write(frame, SRC_IP, own.ip);
    Write(frame, 34, [icmp.kind]);
    Write(frame, 35, [icmp.code]);
    Write(frame, 36, [0, 0]);
    Write(frame, 38, [0, 0, 0, 0]);
    var newChecksum := ComputeChecksum(frame, 34, 36);
    Write(frame, 36, Be16(newChecksum));
    Write(frame, TOTAL_LENGTH, Be16(56));
    len := ICMP_FRAME;
  }

  // The draft field by field.
  lemma IcmpDraftFields(f: seq<byte>, icmp: Icmp, own: Interface)
    requires |f| >= ICMP_FRAME && own.Valid()
    ensures var d := IcmpDraft(f, icmp, own);
            && d[..16] == f[..16] && U16(d, TOTAL_LENGTH) == 56 && U16(d, IDENTIFICATION) == 0
            && d[20..22] == f[20..22] && d[TTL] == 64 && d[PROTOCOL] == 1
            && d[26..30] == own.ip && d[30..34] == f[26..30]
            && d[34] == icmp.kind && d[35] == icmp.code && d[36..42] == [0, 0, 0, 0, 0, 0]
            && d[42..70] == f[14..42]
  {
    hide Put;
  }

  lemma IcmpMessageFields(f: seq<byte>, icmp: Icmp, own: Interface)
    requires |f| >= ICMP_FRAME && own.Valid()
    ensures var m := IcmpMessage(f, icmp, own);
            && m[..14] == f[..14] && m[26..30] == own.ip && m[30..34] == f[26..30]
            && U16(m, TOTAL_LENGTH) == 56 && U16(m, IDENTIFICATION) == 0 && m[TTL] == 64 && m[PROTOCOL] == 1
            && m[34] == icmp.kind && m[35] == icmp.code && m[38..42] == [0, 0, 0, 0]
            && m[14..16] == f[14..16] && m[20..22] == f[20..22]
            && m[42..70] == f[14..42] && Checksum(m[34..70]) == 0
  {
    hide Checksum, IcmpDraft;
    var d := IcmpDraft(f, icmp, own);
    var e := Put(d, 36, Be16(Checksum(d[34..70])));
    var m := IcmpMessage(f, icmp, own);
    IcmpDraftFields(f, icmp, own);
    assert d[34..70][2] == d[36..42][0] && d[34..70][3] == d[36..42][1];
    StoredChecksumVerifies(d[34..70], 2);
    PutWithin(d, 36, Be16(Checksum(d[34..70])), 34, 70);
    PutKeeps(e, TOTAL_LENGTH, Be16(56), 34, 70);
    PutKeeps(e, TOTAL_LENGTH, Be16(56), 42, 70);
    PutKeeps(d, 36, Be16(Checksum(d[34..70])), 42, 70);
    assert m[38..42] == d[36..42][2..];
    assert m[..14] == d[..16][..14] && m[14..16] == d[..16][14..];
    assert m[26..34] == d[26..34];
  }

  // What the ICMP checksum covers, its own field zeroed.
  function IcmpBody(icmp: Icmp, quote: seq<byte>): seq<byte> {
    [icmp.kind, icmp.code, 0, 0, 0, 0, 0, 0] + quote
  }

  lemma IcmpChecksumField(f: seq<byte>, icmp: Icmp, own: Interface)
    requires |f| >= ICMP_FRAME && own.Valid()
    ensures U16(IcmpMessage(f, icmp, own), 36) == Checksum(IcmpBody(icmp, f[14..42]))
  {
    hide Checksum, IcmpDraft, Be16;
    var d := IcmpDraft(f, icmp, own);
    var m := IcmpMessage(f, icmp, own);
    IcmpDraftFields(f, icmp, own);
    assert d[34..70] == [d[34], d[35]] + d[36..42] + d[42..70];
    assert d[34..70] == IcmpBody(icmp, f[14..42]);
    assert m[36..38] == Be16(Checksum(d[34..70]));
    U16Slice(m, 36, 38, 36);
  }

  // ---------- ip-encapsulation.c ----------

  datatype Outgoing = Outgoing(frame: seq<byte>, len: nat)

  function Addressed(f: seq<byte>, dest: seq<byte>, src: seq<byte>): (r: seq<byte>)
    requires |f| >= 14 && |dest| == 6 && |src| == 6
    ensures |r| == |f|
  {
    Put(Put(f, 0, dest), SRC_MAC, src)
  }

  // The frame before sealing, and the length it is sealed at.
  function Rewritten(f: seq<byte>, len: nat, dest: seq<byte>, icmp: Icmp, own: Interface, error: bool, second: bool)
    : (r: Outgoing)
    requires |f| >= ICMP_FRAME && |dest| == 6 && own.Valid()
    ensures |r.frame| == |f|
  {
    if error then
      Outgoing(IcmpMessage(Addressed(f, f[6..12], own.mac), icmp, own), ICMP_FRAME)
    else if second then
      Outgoing(f, len)
    else if f[PROTOCOL] == 6 then
      Outgoing(Addressed(f, f[6..12], own.mac), len + 4)
    else
      Outgoing(Addressed(f, dest, own.mac), len)
  }

  // The length the frame is sealed at.
  function SealLength(f: seq<byte>, len: nat, error: bool, second: bool): nat
    requires |f| >= ICMP_FRAME
  {
    if error then ICMP_FRAME else if !second && f[PROTOCOL] == 6 then len + 4 else len
  }

  // Room for a header and an FCS.
  predicate Sealable(f: seq<byte>, len: nat, error: bool, second: bool)
    requires |f| >= ICMP_FRAME
  {
    PAYLOAD + 4 <= SealLength(f, len, error, second) <= |f|
  }

  function Encapsulated(f: seq<byte>, len: nat, dest: seq<byte>, icmp: Icmp, own: Interface, error: bool, second: bool)
    : (r: Outgoing)
    requires |f| >= ICMP_FRAME && |dest| == 6 && own.Valid()
    requires Sealable(f, len, error, second)
    ensures |r.frame| == |f| && r.len == SealLength(f, len, error, second)
  {
    var w := Rewritten(f, len, dest, icmp, own, error, second);
    Outgoing(Sealed(w.frame, w.len), w.len)
  }

  // Lines 20-40 and 57-59: who the frame is from and for, and its new length.
  method Rewrite(frame: array<byte>, len0: nat, dest: seq<byte>, icmp: Icmp, own: Interface, error: bool, second: bool)
    returns (len: nat)
    requires frame.Length >= ICMP_FRAME && |dest| == 6 && own.Valid()
    modifies frame
    ensures Outgoing(frame[..], len) == Rewritten(old(frame[..]), len0, dest, icmp, own, error, second)
  {
    hide IcmpMessage;
    len := len0;
    if error {
      Write(frame, 0, frame[6..12]);
      Write(frame, SRC_MAC, own.mac);
      len := HandleIcmp(frame, icmp, own);
    } else if !second {
      if frame[PROTOCOL] == 6 {
        Write(frame, 0, frame[6..12]);
        Write(frame, SRC_MAC, own.mac);
        len := len + 4;
      } else {
        Write(frame, SRC_MAC, own.mac);
        Write(frame, 0, dest);
        assert frame[..] == Addressed(old(frame[..]), dest, own.mac);
      }
    }
  }

  // Lines 43-63: header checksum, then FCS. The write of packet_->ttl to offset 22 is
  // left out: both name the same byte.
  method Seal(frame: array<byte>, len: nat)
    requires PAYLOAD + 4 <= len <= frame.Length
    modifies frame
    ensures frame[..] == Sealed(old(frame[..]), len)
  {
    hide Checksum, Crc, StoreLe;
    Write(frame, HEADER_CHECKSUM, [0, 0]);
    var newChecksum := ComputeChecksum(frame, 14, 20);
    Write(frame, HEADER_CHECKSUM, Be16(newChecksum));
    var crc := ComputeCrc(0, frame, len - 4);
    Write(frame, len - 4, StoreLe(crc));
  }

  method Encapsulate(frame: array<byte>, len0: nat, dest: seq<byte>, icmp: Icmp, own: Interface, error: bool, second: bool)
    returns (len: nat)
    requires frame.Length >= ICMP_FRAME && |dest| == 6 && own.Valid()
    requires Sealable(frame[..], len0, error, second)
    modifies frame
    ensures Outgoing(frame[..], len) == Encapsulated(old(frame[..]), len0, dest, icmp, own, error, second)
  {
    hide Sealed;
    len := Rewrite(frame, len0, dest, icmp, own, error, second);
    Seal(frame, len);
  }

  // The first interface with this IP address, or -1.
  method IsInterface(interfaces: seq<Interface>, ip: seq<byte>) returns (index: int)
    ensures -1 <= index < |interfaces|
    ensures index >= 0 ==> interfaces[index].ip == ip
    ensures index >= 0 ==> forall i | 0 <= i < index :: interfaces[i].ip != ip
    ensures index < 0 <==> forall i | 0 <= i < |interfaces| :: interfaces[i].ip != ip
  {
    for i := 0 to |interfaces|
      invariant forall j | 0 <= j < i :: interfaces[j].ip != ip
    {
      if interfaces[i].ip == ip {
        return i;
      }
    }
    return -1;
  }

  // ---------- what the receiver of the frame will find ----------

  // Every frame encapsulation leaves, on every branch, passes handle_frame's FCS check
  // and handle_packet's header check.
  lemma EncapsulationIsAccepted(f: seq<byte>, len: nat, dest: seq<byte>, icmp: Icmp, own: Interface, error: bool, second: bool)
    requires |f| >= ICMP_FRAME && |dest| == 6 && own.Valid()
    requires Sealable(f, len, error, second)
    ensures var r := Encapsulated(f, len, dest, icmp, own, error, second);
            FcsMatches(r.frame[..r.len]) && HeaderVerifies(r.frame)
  {
    hide Sealed;
    var w := Rewritten(f, len, dest, icmp, own, error, second);
    assert w.len == SealLength(f, len, error, second);
    SealedVerifies(w.frame, w.len);
  }

  // A forwarded frame changes hands and keeps everything else, checksums apart.
  lemma ForwardedFields(f: seq<byte>, len: nat, dest: seq<byte>, icmp: Icmp, own: Interface)
    requires |f| >= ICMP_FRAME && |dest| == 6 && own.Valid()
    requires PAYLOAD + 4 <= len <= |f| && f[PROTOCOL] != 6
    ensures var r := Encapsulated(f, len, dest, icmp, own, false, false);
            && r.len == len && r.frame[..6] == dest && r.frame[6..12] == own.mac
            && r.frame[12..24] == f[12..24] && r.frame[26..len - 4] == f[26..len - 4]
  {
    hide Sealed;
    var w := Addressed(f, dest, own.mac);
    var r := Sealed(w, len);
    SealedVerifies(w, len);
    assert r[..6] == r[..24][..6] && r[6..12] == r[..24][6..12] && r[12..24] == r[..24][12..];
  }

  // The error reply: addressed from the receiving interface to the sender, quoting the
  // first 28 octets of the datagram as it arrived, valid at all three layers.
  lemma IcmpReply(f: seq<byte>, len: nat, dest: seq<byte>, icmp: Icmp, own: Interface, second: bool)
    requires |f| >= ICMP_FRAME && |dest| == 6 && own.Valid()
    requires Sealable(f, len, true, second)
    ensures var r := Encapsulated(f, len, dest, icmp, own, true, second);
            && r.len == ICMP_FRAME
            && FcsMatches(r.frame[..r.len]) && HeaderVerifies(r.frame) && Checksum(r.frame[34..70]) == 0
            && r.frame[42..70] == f[14..42]
            && r.frame[..6] == f[6..12] && r.frame[6..12] == own.mac
            && r.frame[26..30] == own.ip && r.frame[30..34] == f[26..30]
            && U16(r.frame, TOTAL_LENGTH) == 56 && U16(r.frame, IDENTIFICATION) == 0
            && r.frame[TTL] == 64 && r.frame[PROTOCOL] == 1
            && r.frame[12..16] == f[12..16] && r.frame[20..22] == f[20..22]
            && r.frame[34] == icmp.kind && r.frame[35] == icmp.code && r.frame[38..42] == [0, 0, 0, 0]
  {
    hide Sealed, IcmpMessage, Checksum, FcsMatches, HeaderVerifies;
    var a := Addressed(f, f[6..12], own.mac);
    var m := IcmpMessage(a, icmp, own);
    IcmpMessageFields(a, icmp, own);
    SealedVerifies(m, ICMP_FRAME);
    SealedKeepsFields(m);
    assert a[14..42] == f[14..42] && a[26..30] == f[26..30] && a[..6] == f[6..12] && a[6..12] == own.mac;
    SameWithin(m, a, 0, 14, 0, 6);
    SameWithin(m, a, 0, 14, 6, 12);
    SameWithin(m, a, 0, 14, 12, 14);
    assert m[12..16] == m[12..14] + m[14..16] && a[12..16] == f[12..16] && a[20..22] == f[20..22];
    assert a[12..16] == a[12..14] + a[14..16];
  }

  // Read as a TCP header, the error has its checksum for a destination port.
  lemma IcmpReplyPort(f: seq<byte>, len: nat, dest: seq<byte>, icmp: Icmp, own: Interface)
    requires |f| >= ICMP_FRAME && |dest| == 6 && own.Valid() && Sealable(f, len, true, false)
    ensures U16(Encapsulated(f, len, dest, icmp, own, true, false).frame, 36)
            == Checksum(IcmpBody(icmp, f[14..42]))
  {
    hide Sealed, IcmpMessage, Checksum, FcsMatches, HeaderVerifies;
    var a := Addressed(f, f[6..12], own.mac);
    var m := IcmpMessage(a, icmp, own);
    IcmpChecksumField(a, icmp, own);
    SealedVerifies(m, ICMP_FRAME);
    SameU16(Sealed(m, ICMP_FRAME), m, 26, 70, 36);
    assert a[14..42] == f[14..42];
  }

  lemma SealedKeepsFields(m: seq<byte>)
    requires |m| >= ICMP_FRAME
    ensures var r := Sealed(m, ICMP_FRAME);
            && r[..6] == m[..6] && r[6..12] == m[6..12]
            && U16(r, TOTAL_LENGTH) == U16(m, TOTAL_LENGTH) && U16(r, IDENTIFICATION) == U16(m, IDENTIFICATION)
            && r[TTL] == m[TTL] && r[PROTOCOL] == m[PROTOCOL]
            && r[12..16] == m[12..16] && r[20..22] == m[20..22]
            && r[26..30] == m[26..30] && r[30..34] == m[30..34] && r[34..70] == m[34..70]
            && r[34] == m[34] && r[35] == m[35] && r[38..42] == m[38..42] && r[42..70] == m[42..70]
  {
    hide Sealed, FcsMatches, HeaderVerifies;
    var r := Sealed(m, ICMP_FRAME);
    SealedVerifies(m, ICMP_FRAME);
    SameWithin(r, m, 0, 24, 0, 6);
    SameWithin(r, m, 0, 24, 6, 12);
    SameU16(r, m, 0, 24, TOTAL_LENGTH);
    SameU16(r, m, 0, 24, IDENTIFICATION);
    SameWithin(r, m, 0, 24, 12, 16);
    SameWithin(r, m, 0, 24, 20, 22);
    SameWithin(r, m, 0, 24, TTL, 24);
    SameWithin(r, m, 0, 24, PROTOCOL, 24);
    SameWithin(r, m, 26, 70, 26, 30);
    SameWithin(r, m, 26, 70, 30, 34);
    SameWithin(r, m, 26, 70, 34, 70);
    SameWithin(r, m, 26, 70, 35, 70);
    SameWithin(r, m, 26, 70, 38, 42);
    SameWithin(r, m, 26, 70, 42, 70);
  }
}
