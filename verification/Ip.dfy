// ip.c: handle_packet, from the received frame to what goes out on which interface.
module Ip {
  import opened Bytes
  import opened CrcDetection
  import opened InternetChecksum
  import opened Ethernet
  import opened Encapsulation
  import opened Routing
  import opened TcpTable
  import opened TcpExchange
  import opened TcpSegment
  import Tcp
  import TcpRuns

  datatype Config = Config(interfaces: seq<Interface>, routes: seq<Route>, cache: seq<ArpEntry>) {
    ghost predicate Valid() {
      && (forall i | 0 <= i < |interfaces| :: interfaces[i].Valid())
      && (forall i | 0 <= i < |routes| :: |routes[i].gateway| == 4 && routes[i].interfaceId < |interfaces|)
      && (forall i | 0 <= i < |cache| :: |cache[i].mac| == 6)
    }
  }

  const NO_GATEWAY: seq<byte> := [0, 0, 0, 0]

  const TIME_EXCEEDED: Icmp := Icmp(11, 0)
  const NET_UNREACHABLE: Icmp := Icmp(3, 0)
  const HOST_UNREACHABLE: Icmp := Icmp(3, 1)
  // What stack.c, line 182, leaves in the record for a packet without an error.
  const NO_ERROR: Icmp := Icmp(1, 0)

  // What handle_packet decides about a packet before anything is written.
  datatype Plan =
    | Drop
    | Deliver(error: bool)                          // TCP for one of our addresses
    | Forward(transmitter: nat, mac: seq<byte>)
    | Refuse(icmp: Icmp)

  predicate IsLocal(interfaces: seq<Interface>, ip: seq<byte>) {
    exists i | 0 <= i < |interfaces| :: interfaces[i].ip == ip
  }

  function NextHop(route: Route, destination: seq<byte>): seq<byte> {
    if route.gateway == NO_GATEWAY then destination else route.gateway
  }

  function RoutePlan(c: Config, destination: seq<byte>): (p: Plan)
    requires |destination| == 4
    ensures p.Forward? || p.Refuse?
  {
    var best := BestRoute(c.routes, Address(destination), |c.routes|);
    if best == -1 then Refuse(NET_UNREACHABLE)
    else
      match ArpLookup(c.cache, NextHop(c.routes[best], destination), |c.cache|)
      case None => Refuse(HOST_UNREACHABLE)
      case Some(mac) => Forward(c.routes[best].interfaceId, mac)
  }

  function Decide(c: Config, f: seq<byte>): Plan
    requires |f| >= PAYLOAD
  {
    if U16(f, TOTAL_LENGTH) <= 20 || f[TTL] == 0 then Drop
    else if IsLocal(c.interfaces, f[DST_IP..DST_IP + 4]) then
      if f[PROTOCOL] == 6 then Deliver(f[TTL] == 1) else Drop
    else if f[TTL] == 1 then Refuse(TIME_EXCEEDED)
    else RoutePlan(c, f[DST_IP..DST_IP + 4])
  }

  lemma ArpMacs(c: Config, ip: seq<byte>, n: nat)
    requires c.Valid() && n <= |c.cache|
    ensures ArpLookup(c.cache, ip, n).Some? ==> |ArpLookup(c.cache, ip, n).value| == 6
  {
    if n > 0 {
      ArpMacs(c, ip, n - 1);
    }
  }

  lemma PlanShape(c: Config, f: seq<byte>)
    requires |f| >= PAYLOAD && c.Valid()
    ensures var p := Decide(c, f);
            p.Forward? ==> p.transmitter < |c.interfaces| && |p.mac| == 6 && f[TTL] >= 2
  {
    hide ArpLookup, BestRoute, Address;
    var d := f[DST_IP..DST_IP + 4];
    var best := BestRoute(c.routes, Address(d), |c.routes|);
    if best != -1 {
      ArpMacs(c, NextHop(c.routes[best], d), |c.cache|);
    }
  }

  // The interface a plan sends on: the receiving one unless the packet is forwarded.
  function Transmitter(p: Plan, receiver: nat): nat {
    if p.Forward? then p.transmitter else receiver
  }

  // What encapsulation is told.
  function ExitFor(c: Config, p: Plan, f: seq<byte>, receiver: nat): (x: Exit)
    requires |f| >= PAYLOAD && Transmitter(p, receiver) < |c.interfaces|
  {
    var own := c.interfaces[Transmitter(p, receiver)];
    match p
    case Forward(_, mac) => Exit(mac, NO_ERROR, own, false)
    case Refuse(icmp) => Exit(f[6..12], icmp, own, true)
    case Deliver(error) => Exit(f[6..12], if error then TIME_EXCEEDED else NO_ERROR, own, error)
    case Drop => Exit(f[6..12], NO_ERROR, own, false)
  }

  // packet->ttl-- on the forwarding path.
  function Aged(f: seq<byte>, p: Plan): (r: seq<byte>)
    requires |f| >= PAYLOAD && (p.Forward? ==> f[TTL] >= 1)
    ensures |r| == |f|
  {
    if p.Forward? then Put(f, TTL, [f[TTL] - 1]) else f
  }

  // A frame of legal length in a buffer with room for it (stack.c, lines 168 and 186).
  predicate FitsFrame(f: seq<byte>, len: nat) {
    94 <= |f| <= 0x10000 && MIN_FRAME <= len && len + 4 <= |f|
  }

  lemma AgedShape(f: seq<byte>, p: Plan)
    requires |f| >= PAYLOAD && (p.Forward? ==> f[TTL] >= 1)
    ensures Aged(f, p)[PROTOCOL] == f[PROTOCOL]
  {}

  function Process(c: Config, receiver: nat, f: seq<byte>, len: nat, slots: seq<Slot>, isn: nat): (r: Exchange)
    requires c.Valid() && receiver < |c.interfaces| && FitsFrame(f, len) && isn < TWO32
    ensures |r.frame| == |f| && |r.slots| == |slots|
  {
    hide Respond, Encapsulated, Decide;
    PlanShape(c, f);
    var p := Decide(c, f);
    if p.Drop? then Exchange([], f, slots)
    else
      AgedShape(f, p);
      var x := ExitFor(c, p, f, receiver);
      var g := Aged(f, p);
      if f[PROTOCOL] == 6 then Respond(g, len, slots, x, isn)
      else
        var out := Wrap(g, len, x, false);
        Exchange([out.frame[..out.len]], out.frame, slots)
  }

  // stack.h, line 17.
  const TCP_MAC: seq<byte> := [0x12, 0x9F, 0x41, 0x0D, 0x0E, 0x64]

  // A sound frame from the stack to slot's peer, with its numbers and this text.
  ghost predicate Carries(r: seq<byte>, slot: Slot, data: seq<byte>, fin: bool)
    requires |data| <= MAX_DATA
  {
    && |r| == 58 + |data| && Sound(r) && U16(r, TOTAL_LENGTH) == |r| - 18
    && r[..6] == slot.mac && r[6..12] == [0x12, 0x9F, 0x41, 0x0D, 0x0E, 0x64]
    && r[26..30] == [192, 168, 0, 5] && r[30..34] == slot.key.ip && U16(r, 34) == 1234 && U16(r, 36) == slot.key.port
    && U32(r, 38) == slot.currSeq && U32(r, 42) == slot.nextSeq
    && U16(r, 46) == (if fin then 0x5011 else 0x5018)
    && r[54..54 + |data|] == data
  }

  lemma SegmentCarries(slot: Slot, data: seq<byte>, fin: bool)
    requires slot.Valid() && |data| <= MAX_DATA
    ensures var r := Segment(if fin then Tcp.Closed(slot) else slot, TCP_MAC, Tcp.TCP_IP, data, fin);
            Carries(r, slot, data, fin) && (AcceptedByPeer(r) <==> |data| >= 6)
  {
    hide Segment, Sound, AcceptedByPeer;
    SegmentIsAccepted(if fin then Tcp.Closed(slot) else slot, TCP_MAC, Tcp.TCP_IP, data, fin);
  }

  // The segment a line of input makes the stack send, if any.
  function Typed(slots: seq<Slot>, input: TcpRuns.Input, typed: seq<byte>): seq<seq<byte>>
    requires ValidTable(slots)
    requires input.Data? ==> |typed| == input.octets <= MAX_DATA
  {
    var w := Writing(slots, 0);
    if w == -1 && input.Close? && TcpRuns.ValidId(slots, input.id) then
      [Segment(Tcp.Closed(slots[input.id]), TCP_MAC, Tcp.TCP_IP, [], true)]
    else if w != -1 && input.Data? && input.octets > 0 then
      [Segment(slots[w], TCP_MAC, Tcp.TCP_IP, typed, false)]
    else []
  }

  // At most one segment leaves for a line of input. It verifies at all three layers and
  // carries the text to the peer being written to, or a FIN to the one being closed. The
  // peer accepts text of at least 6 octets, and never the FIN: short frames are ignored.
  lemma TypedIsAccepted(slots: seq<Slot>, input: TcpRuns.Input, typed: seq<byte>)
    requires ValidTable(slots)
    requires input.Data? ==> |typed| == input.octets <= MAX_DATA
    ensures var w, sent := Writing(slots, 0), Typed(slots, input, typed);
            if w == -1 && input.Close? && TcpRuns.ValidId(slots, input.id) then
              |sent| == 1 && Carries(sent[0], slots[input.id], [], true) && !AcceptedByPeer(sent[0])
            else if w != -1 && input.Data? && typed != [] then
              && |sent| == 1 && Carries(sent[0], slots[w], typed, false)
              && (AcceptedByPeer(sent[0]) <==> |typed| >= 6)
            else sent == []
  {
    hide Segment, Sound, AcceptedByPeer;
    var w := Writing(slots, 0);
    if w == -1 && input.Close? && TcpRuns.ValidId(slots, input.id) {
      SegmentCarries(slots[input.id], [], true);
    } else if w != -1 && input.Data? && typed != [] {
      SegmentCarries(slots[w], typed, false);
    }
  }

  // The frames sent, in order, with the interface they leave on.
  function Tagged(interfaceId: nat, frames: seq<seq<byte>>): seq<(nat, seq<byte>)> {
    seq(|frames|, i requires 0 <= i < |frames| => (interfaceId, frames[i]))
  }

  lemma TaggedPair(interfaceId: nat, frames: seq<seq<byte>>)
    ensures frames == [] ==> Tagged(interfaceId, frames) == []
    ensures |frames| == 1 ==> Tagged(interfaceId, frames) == [(interfaceId, frames[0])]
    ensures |frames| == 2 ==> Tagged(interfaceId, frames) == [(interfaceId, frames[0]), (interfaceId, frames[1])]
  {}

  // The running stack: its configuration, its connection table and what it has sent.
  class Stack {
    const config: Config
    const table: array<Slot>
    var sent: seq<(nat, seq<byte>)>

    constructor (config: Config)
      requires config.Valid()
      ensures this.config == config && sent == [] && fresh(table)
      ensures table[..] == TcpRuns.InitialTable()
      ensures table.Length == 10
      ensures forall i | 0 <= i < 10 :: table[i] == Slot(false, Key([0, 0, 0, 0], 0), [0, 0, 0, 0, 0, 0], 0, 0, 0)
    {
      this.config := config;
      table := new Slot[CONNECTION_LIMIT](_ => EMPTY_SLOT);
      sent := [];
    }

    // Lines 69-142: the decision, with its effect on the TTL.
    method Route(frame: array<byte>) returns (plan: Plan)
      requires config.Valid() && frame.Length >= PAYLOAD
      modifies frame
      ensures plan == Decide(config, old(frame[..]))
      ensures plan.Forward? ==> old(frame[TTL]) >= 1
      ensures frame[..] == Aged(old(frame[..]), plan)
    {
      hide BestRoute, ArpLookup, Address;
      ghost var f := frame[..];
      PlanShape(config, f);
      assert U16(f, TOTAL_LENGTH) == U16(frame[16..18], 0);
      var destination := frame[DST_IP..DST_IP + 4];
      assert destination == f[DST_IP..DST_IP + 4];
      if U16(frame[16..18], 0) <= 20 || frame[TTL] == 0 {
        return Drop;
      }
      var expired := frame[TTL] == 1;
      var own := IsInterface(config.interfaces, destination);
      if own >= 0 {
        assert IsLocal(config.interfaces, destination);
        return if frame[PROTOCOL] != 6 then Drop else Deliver(expired);
      }
      assert !IsLocal(config.interfaces, destination);
      if expired {
        return Refuse(TIME_EXCEEDED);
      }
      var best := LongestPrefix(config.routes, Address(destination));
      if best == -1 {
        return Refuse(NET_UNREACHABLE);
      }
      var mac := FindMac(config.cache, NextHop(config.routes[best], destination));
      if mac.None? {
        return Refuse(HOST_UNREACHABLE);
      }
      Write(frame, TTL, [frame[TTL] - 1]);
      return Forward(config.routes[best].interfaceId, mac.value);
    }

    // tcp.c, lines 436-464 and 495-518: one segment for slot id.
    method SendSegment(id: nat, typed: seq<byte>, fin: bool, interfaceId: nat)
      requires id < table.Length && ValidTable(table[..]) && |typed| <= MAX_DATA && (fin ==> typed == [])
      modifies this`sent, table
      ensures sent == old(sent) + [(interfaceId, Segment(old(table[id]), TCP_MAC, Tcp.TCP_IP, typed, fin))]
      ensures table[..] == old(table[..])[id := AfterSend(old(table[id]), |typed|, fin)]
    {
      hide Segment;
      var frame := CreateTcpSegment(table, id, TCP_MAC, Tcp.TCP_IP, typed, fin);
      sent := sent + [(interfaceId, frame[..])];
    }

    // tcp.c, lines 398-522, after the line has been read and its command parsed.
    method HandleInput(input: TcpRuns.Input, typed: seq<byte>, interfaceId: nat)
      requires ValidTable(table[..])
      requires input.Data? ==> |typed| == input.octets <= MAX_DATA
      modifies this`sent, table
      ensures table[..] == TcpRuns.AfterInput(old(table[..]), input)
      ensures sent == old(sent) + Tagged(interfaceId, Typed(old(table[..]), input, typed))
    {
      hide Segment;
      var active := Promise(table);
      if active == -1 {
        if input.Close? {
          var verified := VerifyUserId(table, input.id);
          if verified != -1 {
            table[verified] := table[verified].(status := NOT_CONNECTED);
            SendSegment(verified, [], true, interfaceId);
          }
        } else if input.Open? {
          var verified := VerifyUserId(table, input.id);
          if verified != -1 {
            table[verified] := table[verified].(io := true);
          }
        }
      } else if input.Leave? {
        table[active] := table[active].(io := false);
      } else if input.Data? && input.octets > 0 {
        SendSegment(active, typed, false, interfaceId);
        table[active] := table[active].(io := false);
      }
    }

    method HandlePacket(frame: array<byte>, len: nat, receiver: nat, isn: nat)
      returns (validLength: bool, validChecksum: bool)
      requires config.Valid() && receiver < |config.interfaces|
      requires FitsFrame(frame[..], len) && isn < TWO32
      modifies this`sent, frame, table
      ensures validLength <==> U16(old(frame[..]), TOTAL_LENGTH) > 20
      ensures validChecksum <==> HeaderVerifies(old(frame[..]))
      ensures var p := Decide(config, old(frame[..]));
              var r := Process(config, receiver, old(frame[..]), len, old(table[..]), isn);
              && frame[..] == r.frame && table[..] == r.slots
              && sent == old(sent) + Tagged(Transmitter(p, receiver), r.sent)
    {
      hide Decide, Respond, Encapsulated, Checksum;
      ghost var f := frame[..];
      PlanShape(config, f);
      validLength := U16(frame[..], TOTAL_LENGTH) > 20;
      var sum := ComputeChecksum(frame, 14, 20);
      assert f[14..34] == frame[14..34];
      validChecksum := sum == 0;
      var plan := Route(frame);
      if plan.Drop? {
        return;
      }
      AgedShape(f, plan);
      var x := ExitFor(config, plan, frame[..], receiver);
      AgedExit(config, plan, f, receiver);
      if frame[PROTOCOL] == 6 {
        var frames := HandleTcpPacket(frame, len, table, x, isn);
        sent := sent + Tagged(Transmitter(plan, receiver), frames);
      } else {
        var currLen := Encapsulate(frame, len, x.mac, x.icmp, x.own, x.error, false);
        sent := sent + [(Transmitter(plan, receiver), frame[..currLen])];
      }
    }
  }

  lemma AgedExit(c: Config, p: Plan, f: seq<byte>, receiver: nat)
    requires |f| >= PAYLOAD && Transmitter(p, receiver) < |c.interfaces| && (p.Forward? ==> f[TTL] >= 1)
    ensures ExitFor(c, p, Aged(f, p), receiver) == ExitFor(c, p, f, receiver)
  {
    assert Aged(f, p)[6..12] == f[6..12];
  }

  // ---------- forwarding ----------

  // g is f sent on by `own` towards `mac`: one hop less to live, otherwise as it came,
  // and accepted by the next router's checks.
  ghost predicate PassedOn(f: seq<byte>, g: seq<byte>, mac: seq<byte>, own: Interface)
    requires |f| >= |g| >= PAYLOAD + 4
  {
    && MIN_FRAME <= |g| && FcsMatches(g) && HeaderVerifies(g)
    && f[TTL] >= 2 && g[TTL] == f[TTL] - 1
    && g[..6] == mac && g[6..12] == own.mac
    && g[12..TTL] == f[12..TTL] && g[PROTOCOL] == f[PROTOCOL] && g[26..|g| - 4] == f[26..|g| - 4]
  }

  // A packet for somewhere else leaves on the longest matching route, for its next hop.
  lemma ForwardedPacket(c: Config, receiver: nat, f: seq<byte>, len: nat, slots: seq<Slot>, isn: nat)
    requires c.Valid() && receiver < |c.interfaces| && FitsFrame(f, len) && isn < TWO32
    requires f[PROTOCOL] != 6 && Decide(c, f).Forward?
    ensures var p, r := Decide(c, f), Process(c, receiver, f, len, slots, isn);
            && r.slots == slots && |r.sent| == 1 && |r.sent[0]| == len
            && p.transmitter < |c.interfaces| && PassedOn(f, r.sent[0], p.mac, c.interfaces[p.transmitter])
  {
    hide Decide, Encapsulated, FcsMatches, HeaderVerifies, Checksum;
    PlanShape(c, f);
    var p := Decide(c, f);
    var x := ExitFor(c, p, f, receiver);
    var a := Aged(f, p);
    var out := Wrap(a, len, x, false);
    var g := out.frame[..len];
    EncapsulationIsAccepted(a, len, x.mac, x.icmp, x.own, false, false);
    ForwardedFields(a, len, x.mac, x.icmp, x.own);
    assert g[14..34] == out.frame[14..34];
    SameHeaderVerdict(g, out.frame);
    assert g[..6] == out.frame[..6] && g[6..12] == out.frame[6..12];
    assert g[12..24] == out.frame[12..24] == a[12..24];
    SameWithin(g, a, 12, 24, 12, TTL);
    SameWithin(g, a, 12, 24, TTL, 24);
    SameWithin(g, a, 12, 24, PROTOCOL, 24);
    assert a[12..TTL] == f[12..TTL];
    assert g[26..len - 4] == out.frame[26..len - 4] == a[26..len - 4] == f[26..len - 4];
  }

  lemma SameHeaderVerdict(g: seq<byte>, h: seq<byte>)
    requires |g| >= PAYLOAD && |h| >= PAYLOAD && g[14..34] == h[14..34]
    ensures HeaderVerifies(g) == HeaderVerifies(h)
  {}

  // One router on a path: its configuration and the buffer a frame arrives in.
  datatype Hop = Hop(config: Config, receiver: nat, buffer: seq<byte>, len: nat, slots: seq<Slot>, isn: nat) {
    ghost predicate Valid() {
      && config.Valid() && receiver < |config.interfaces| && FitsFrame(buffer, len) && isn < TWO32
    }

    ghost predicate Forwards() {
      Valid() && buffer[PROTOCOL] != 6 && Decide(config, buffer).Forward?
    }

    ghost function Sent(): seq<byte>
      requires Forwards()
    {
      ForwardedPacket(config, receiver, buffer, len, slots, isn);
      Process(config, receiver, buffer, len, slots, isn).sent[0]
    }
  }

  // Each router receives what the one before it sent, whatever else is in its buffer.
  ghost predicate Path(hops: seq<Hop>) {
    && (forall k | 0 <= k < |hops| :: hops[k].Forwards())
    && (forall k | 0 < k < |hops| :: hops[k].len == |hops[k - 1].Sent()| && hops[k].buffer[..hops[k].len] == hops[k - 1].Sent())
  }

  lemma HopTtl(h: Hop)
    requires h.Forwards()
    ensures |h.Sent()| == h.len && h.buffer[TTL] >= 2 && h.Sent()[TTL] == h.buffer[TTL] - 1
  {
    hide Process, Decide, FcsMatches, HeaderVerifies;
    ForwardedPacket(h.config, h.receiver, h.buffer, h.len, h.slots, h.isn);
  }

  lemma {:induction false} PathTtl(hops: seq<Hop>, k: nat)
    requires Path(hops) && k < |hops|
    ensures hops[k].buffer[TTL] as int == hops[0].buffer[TTL] as int - k >= 2
    decreases k
  {
    hide Process, Decide, Hop.Sent;
    HopTtl(hops[k]);
    if k > 0 {
      PathTtl(hops, k - 1);
      HopTtl(hops[k - 1]);
      assert hops[k].buffer[TTL] == hops[k].buffer[..hops[k].len][TTL];
    }
  }

  // However the routers are configured, at most TTL - 1 of them forward a packet.
  lemma ForwardingIsBounded(hops: seq<Hop>)
    requires Path(hops) && hops != []
    ensures |hops| <= hops[0].buffer[TTL] as int - 1 <= 254
  {
    PathTtl(hops, |hops| - 1);
  }

  // ---------- errors ----------

  // A refused packet draws one ICMP error from the receiving interface back to the
  // sender, quoting the datagram as it arrived, valid under all three checksums.
  lemma RefusedPacket(c: Config, receiver: nat, f: seq<byte>, len: nat, slots: seq<Slot>, isn: nat)
    requires c.Valid() && receiver < |c.interfaces| && FitsFrame(f, len) && isn < TWO32
    requires f[PROTOCOL] != 6 && Decide(c, f).Refuse?
    ensures var p, r := Decide(c, f), Process(c, receiver, f, len, slots, isn);
            var own := c.interfaces[receiver];
            && |r.sent| == 1 && |r.sent[0]| == ICMP_FRAME >= MIN_FRAME && r.slots == slots
            && var g := r.sent[0];
               && FcsMatches(g) && HeaderVerifies(g) && Checksum(g[34..70]) == 0
               && g[42..70] == f[14..42]
               && g[..6] == f[6..12] && g[6..12] == own.mac && g[26..30] == own.ip && g[30..34] == f[26..30]
               && g[34] == p.icmp.kind && g[35] == p.icmp.code && g[PROTOCOL] == 1
               && U16(g, TOTAL_LENGTH) == 56
  {
    hide Decide, Encapsulated, FcsMatches, HeaderVerifies, Checksum;
    PlanShape(c, f);
    var p := Decide(c, f);
    var x := ExitFor(c, p, f, receiver);
    var out := Wrap(f, len, x, false);
    var g := out.frame[..ICMP_FRAME];
    IcmpReply(f, len, x.mac, x.icmp, x.own, false);
    assert g[14..34] == out.frame[14..34];
    SameHeaderVerdict(g, out.frame);
    assert g[34..70] == out.frame[34..70] && g[42..70] == out.frame[42..70];
    assert g[..6] == out.frame[..6] && g[6..12] == out.frame[6..12];
    assert g[26..30] == out.frame[26..30] && g[30..34] == out.frame[30..34];
  }

  // The cache has a MAC address for ip.
  ghost predicate Known(c: Config, ip: seq<byte>) {
    exists k | 0 <= k < |c.cache| :: c.cache[k].ip == ip
  }

  // The address whose MAC address is wanted on route b: the gateway, or, when that is
  // 0.0.0.0, the destination itself.
  ghost predicate GoesVia(route: Route, destination: seq<byte>, hop: seq<byte>) {
    && (route.gateway == [0, 0, 0, 0] ==> hop == destination)
    && (route.gateway != [0, 0, 0, 0] ==> hop == route.gateway)
  }

  lemma NextHopIs(route: Route, destination: seq<byte>, hop: seq<byte>)
    ensures hop == NextHop(route, destination) <==> GoesVia(route, destination, hop)
  {}

  lemma KnownIff(c: Config, ip: seq<byte>)
    ensures ArpLookup(c.cache, ip, |c.cache|).Some? <==> Known(c, ip)
  {
    ArpLookupFinds(c.cache, ip, |c.cache|);
  }

  // Which packets are dropped, delivered, refused and forwarded.
  lemma DecisionIff(c: Config, f: seq<byte>)
    requires |f| >= PAYLOAD
    ensures var p, destination := Decide(c, f), f[30..34];
            var length, ttl, protocol := U16(f, 16), f[22], f[23];
            var local := exists i | 0 <= i < |c.interfaces| :: c.interfaces[i].ip == destination;
            var matching := exists i | 0 <= i < |c.routes| :: Matches(c.routes[i], Address(destination));
            var b := BestRoute(c.routes, Address(destination), |c.routes|);
            var known := b >= 0 && exists hop :: GoesVia(c.routes[b], destination, hop) && Known(c, hop);
            && (p.Drop? <==> length <= 20 || ttl == 0 || (local && protocol != 6))
            && (p.Deliver? <==> length > 20 && ttl >= 1 && local && protocol == 6)
            && (p.Deliver? ==> (p.error <==> ttl == 1))
            && (p == Refuse(Icmp(11, 0)) <==> length > 20 && ttl == 1 && !local)
            && (p == Refuse(Icmp(3, 0)) <==> length > 20 && ttl >= 2 && !local && !matching)
            && (p == Refuse(Icmp(3, 1)) <==> length > 20 && ttl >= 2 && !local && matching && !known)
            && (p.Forward? <==> length > 20 && ttl >= 2 && !local && known)
  {
    hide Address, Matches, ArpLookup, NextHop, GoesVia, Known, BestRoute;
    var destination := f[30..34];
    var b := BestRoute(c.routes, Address(destination), |c.routes|);
    BestRouteIsLongest(c.routes, Address(destination), |c.routes|);
    if b != -1 {
      var via := NextHop(c.routes[b], destination);
      forall hop
        ensures hop == via <==> GoesVia(c.routes[b], destination, hop)
      {
        NextHopIs(c.routes[b], destination, hop);
      }
      KnownIff(c, via);
      assert Known(c, via) ==> GoesVia(c.routes[b], destination, via);
    }
  }

  // A dropped packet leaves no trace.
  lemma DroppedPacket(c: Config, receiver: nat, f: seq<byte>, len: nat, slots: seq<Slot>, isn: nat)
    requires c.Valid() && receiver < |c.interfaces| && FitsFrame(f, len) && isn < TWO32
    requires Decide(c, f).Drop?
    ensures Process(c, receiver, f, len, slots, isn) == Exchange([], f, slots)
  {
    hide Decide, Respond, Encapsulated;
  }

  // When a packet is refused, and why.
  lemma RefusalReasons(c: Config, f: seq<byte>)
    requires |f| >= PAYLOAD && Decide(c, f).Refuse?
    ensures var destination, icmp := f[30..34], Decide(c, f).icmp;
            var best := BestRoute(c.routes, Address(destination), |c.routes|);
            var matching := exists i | 0 <= i < |c.routes| :: Matches(c.routes[i], Address(destination));
            && !IsLocal(c.interfaces, destination) && f[TTL] >= 1
            && (icmp == Icmp(11, 0) <==> f[TTL] == 1)
            && (icmp == Icmp(3, 0) <==> f[TTL] >= 2 && !matching)
            && (icmp == Icmp(3, 1) <==>
                  f[TTL] >= 2 && matching && forall hop | GoesVia(c.routes[best], destination, hop) :: !Known(c, hop))
  {
    hide Address, Matches, ArpLookup, BestRoute, GoesVia, Known, Decide;
    DecisionIff(c, f);
    BestRouteIsLongest(c.routes, Address(f[30..34]), |c.routes|);
  }

  lemma {:induction false} ArpLookupFinds(cache: seq<ArpEntry>, ip: seq<byte>, n: nat)
    requires n <= |cache|
    ensures match ArpLookup(cache, ip, n)
            case None => forall j | 0 <= j < n :: cache[j].ip != ip
            case Some(mac) => exists j | 0 <= j < n :: cache[j] == ArpEntry(ip, mac)
  {
    if n > 0 {
      ArpLookupFinds(cache, ip, n - 1);
    }
  }

  // A forwarded packet leaves on the first of the longest matching routes, for the MAC
  // address the last cache entry has for the gateway, or for the destination itself when
  // the gateway is 0.0.0.0.
  lemma ForwardingChoice(c: Config, f: seq<byte>) returns (b: nat, k: nat)
    requires |f| >= PAYLOAD && Decide(c, f).Forward?
    ensures b < |c.routes|
    ensures var p, destination := Decide(c, f), f[30..34];
            && p.transmitter == c.routes[b].interfaceId && Matches(c.routes[b], Address(destination))
            && (forall i | 0 <= i < |c.routes| && Matches(c.routes[i], Address(destination)) ::
                  PopCount(c.routes[i].mask) <= PopCount(c.routes[b].mask)
                  && (i < b ==> PopCount(c.routes[i].mask) < PopCount(c.routes[b].mask)))
            && k < |c.cache| && c.cache[k].mac == p.mac
            && (c.routes[b].gateway == [0, 0, 0, 0] ==> LastEntry(c.cache, destination, k))
            && (c.routes[b].gateway != [0, 0, 0, 0] ==> LastEntry(c.cache, c.routes[b].gateway, k))
  {
    hide Address, Matches, PopCount, ArpLookup;
    var destination := f[DST_IP..DST_IP + 4];
    b := BestRoute(c.routes, Address(destination), |c.routes|);
    BestRouteIsLongest(c.routes, Address(destination), |c.routes|);
    var hop := NextHop(c.routes[b], destination);
    ArpLookupLast(c.cache, hop, |c.cache|);
    assert c.cache[..|c.cache|] == c.cache;
    k :| LastEntry(c.cache, hop, k) && c.cache[k].mac == ArpLookup(c.cache, hop, |c.cache|).value;
  }

  // ---------- the connection table ----------

  // TCP for the listener that is not dropped.
  predicate Accepted(f: seq<byte>)
    requires |f| >= 54
  {
    f[PROTOCOL] == 6 && U16(f, TOTAL_LENGTH) > 20 && f[TTL] != 0 && Tcp.ForListener(f)
  }

  // The frame that leaves is an ICMP error, and which.
  predicate Errs(p: Plan) {
    p.Refuse? || (p.Deliver? && p.error)
  }

  function ErrorOf(p: Plan): Icmp {
    if p.Refuse? then p.icmp else TIME_EXCEEDED
  }

  // The event a packet is for the connection table.
  function PacketEvent(c: Config, f: seq<byte>, len: nat): TcpRuns.Event
    requires |f| >= 54
  {
    if Accepted(f) then
      var p := Decide(c, f);
      EventOf(f, len, Errs(p), ErrorOf(p))
    else
      TcpRuns.User(TcpRuns.Nothing)
  }

  // With the listener's address on one of the interfaces, as in stack.c, line 28, an error
  // means the TTL was spent.
  lemma ListenerPlan(c: Config, f: seq<byte>)
    requires |f| >= 54 && Accepted(f) && IsLocal(c.interfaces, Tcp.TCP_IP)
    ensures Errs(Decide(c, f)) <==> f[TTL] == 1
    ensures ErrorOf(Decide(c, f)) == TIME_EXCEEDED
  {}

  // Of all packets only TCP segments for the listener touch the connection table, and
  // they move it by one abstract step.
  lemma ProcessRefinesStep(c: Config, receiver: nat, f: seq<byte>, len: nat, slots: seq<Slot>, isn: nat)
    requires c.Valid() && receiver < |c.interfaces| && FitsFrame(f, len) && isn < TWO32
    ensures Process(c, receiver, f, len, slots, isn).slots == TcpRuns.After(slots, PacketEvent(c, f, len))
  {
    hide Respond, Wrap, RoutePlan, TcpRuns.AfterSegment, TcpRuns.AfterRefused, Tcp.Parse, ErrorKey, Tcp.ForListener;
    PlanShape(c, f);
    var p := Decide(c, f);
    NothingTyped(slots);
    if !p.Drop? && f[PROTOCOL] == 6 {
      AgedShape(f, p);
      var x, g := ExitFor(c, p, f, receiver), Aged(f, p);
      AgedListener(f, p, len);
      if Tcp.ForListener(f) {
        RespondRefinesStep(g, len, slots, x, isn);
      } else {
        NotForListener(g, len, slots, x, isn);
      }
    }
  }

  lemma NothingTyped(slots: seq<Slot>)
    ensures TcpRuns.After(slots, TcpRuns.User(TcpRuns.Nothing)) == slots
  {}

  lemma AgedListener(f: seq<byte>, p: Plan, len: nat)
    requires |f| >= 54 && (p.Forward? ==> f[TTL] >= 1)
    ensures Tcp.ForListener(Aged(f, p)) == Tcp.ForListener(f)
    ensures Tcp.Parse(Aged(f, p), len) == Tcp.Parse(f, len)
  {
    var g := Aged(f, p);
    assert g[DST_IP..DST_IP + 4] == f[DST_IP..DST_IP + 4];
    assert g[SRC_IP..SRC_IP + 4] == f[SRC_IP..SRC_IP + 4] && g[6..12] == f[6..12];
  }
}
