// Runs of the whole stack: packets, however they are addressed and whatever their TTL, and
// lines of input, in any order. They refine the runs of the connection table.
module StackRuns {
  import opened Bytes
  import opened Ethernet
  import opened Encapsulation
  import opened TcpTable
  import opened TcpSegment
  import opened TcpExchange
  import opened Tcp
  import opened TcpRuns
  import opened Ip
  import opened Octets

  datatype StackEvent =
    | Packet(receiver: nat, frame: seq<byte>, len: nat, isn: nat)
    | Line(input: Input)
  {
    ghost predicate Valid(c: Config) {
      Packet? ==> receiver < |c.interfaces| && FitsFrame(frame, len) && isn < TWO32
    }
  }

  ghost predicate ValidRun(c: Config, events: seq<StackEvent>) {
    c.Valid() && forall k | 0 <= k < |events| :: events[k].Valid(c)
  }

  // The table as Stack.HandlePacket and Stack.HandleInput leave it.
  ghost function StackStep(c: Config, slots: seq<Slot>, e: StackEvent): (r: seq<Slot>)
    requires c.Valid() && e.Valid(c)
    ensures |r| == |slots|
  {
    match e
    case Packet(receiver, frame, len, isn) => Process(c, receiver, frame, len, slots, isn).slots
    case Line(input) => AfterInput(slots, input)
  }

  ghost function StackRun(c: Config, events: seq<StackEvent>): (r: seq<Slot>)
    requires ValidRun(c, events)
    ensures |r| == CONNECTION_LIMIT
    decreases |events|
  {
    if events == [] then InitialTable()
    else StackStep(c, StackRun(c, events[..|events| - 1]), events[|events| - 1])
  }

  // ---------- refinement ----------

  ghost function TableEvent(c: Config, e: StackEvent): Event
    requires e.Valid(c)
  {
    match e
    case Packet(_, frame, len, _) => PacketEvent(c, frame, len)
    case Line(input) => User(input)
  }

  ghost function TableEvents(c: Config, events: seq<StackEvent>): (r: seq<Event>)
    requires ValidRun(c, events)
    ensures |r| == |events|
  {
    seq(|events|, k requires 0 <= k < |events| => TableEvent(c, events[k]))
  }

  lemma StepRefines(c: Config, slots: seq<Slot>, e: StackEvent)
    requires c.Valid() && e.Valid(c)
    ensures StackStep(c, slots, e) == After(slots, TableEvent(c, e))
  {
    hide Process, After, PacketEvent;
    match e
    case Packet(receiver, frame, len, isn) => ProcessRefinesStep(c, receiver, frame, len, slots, isn);
    case Line(input) => InputIsStep(slots, input);
  }

  lemma InputIsStep(slots: seq<Slot>, input: Input)
    ensures AfterInput(slots, input) == After(slots, User(input))
  {}

  // Event for event a run of the stack moves its table as a run of the table does.
  lemma {:induction false} StackRefinesTable(c: Config, events: seq<StackEvent>)
    requires ValidRun(c, events)
    ensures StackRun(c, events) == Run(TableEvents(c, events))
    decreases |events|
  {
    hide StackStep, After, TableEvent;
    if events != [] {
      var init := events[..|events| - 1];
      StackRefinesTable(c, init);
      StepRefines(c, StackRun(c, init), events[|events| - 1]);
      PrefixEvents(c, events, |events| - 1);
    }
  }

  lemma PrefixEvents(c: Config, events: seq<StackEvent>, k: nat)
    requires ValidRun(c, events) && k <= |events|
    ensures TableEvents(c, events[..k]) == TableEvents(c, events)[..k]
  {
    hide TableEvent;
  }

  // ---------- every reachable table ----------

  lemma TableEventValid(c: Config, e: StackEvent)
    requires e.Valid(c)
    ensures TableEvent(c, e).User? || TableEvent(c, e).arrival.Valid()
  {
    hide Decide, ErrorKey, Accepted;
  }

  // Every slot is within the widths of its fields, an active slot is the one its own key
  // finds, and at most one slot is in write mode.
  lemma {:induction false} ReachableTable(c: Config, events: seq<StackEvent>)
    requires ValidRun(c, events)
    ensures var t := StackRun(c, events);
            ValidTable(t) && Consistent(t) && OneWriter(t)
    decreases |events|
  {
    hide StackStep, After, TableEvent, Consistent, OneWriter;
    StackRefinesTable(c, events);
    RunConsistent(TableEvents(c, events));
    AtMostOneWriter(TableEvents(c, events));
    if events != [] {
      var init, e := events[..|events| - 1], events[|events| - 1];
      ReachableTable(c, init);
      TableEventValid(c, e);
      StepRefines(c, StackRun(c, init), e);
      StepValid(StackRun(c, init), TableEvent(c, e));
    }
  }

  lemma ReachableKeysDistinct(c: Config, events: seq<StackEvent>, i: nat, j: nat)
    requires ValidRun(c, events) && i < j < CONNECTION_LIMIT
    ensures var t := StackRun(c, events); t[i].Active() && t[j].Active() ==> t[i].key != t[j].key
  {
    hide StackRun;
    ReachableTable(c, events);
  }

  // ---------- the handshake ----------

  // e is a TCP segment for the listener from this peer.
  ghost predicate SegmentFrom(e: StackEvent, key: Key, control: nat) {
    && e.Packet? && |e.frame| >= 54 && ToListener(e.frame)
    && Peer(e.frame) == key && Control(e.frame) == control
  }

  lemma FromPeerIsPacket(c: Config, e: StackEvent, key: Key, control: nat)
    requires e.Valid(c) && FromPeer(TableEvent(c, e), key, control)
    ensures SegmentFrom(e, key, control) && TableEvent(c, e).arrival.mac == e.frame[6..12]
  {
    hide Decide, ErrorKey, Accepted, ToListener, Parse;
    if e.Packet? {
      AcceptedOctets(e.frame);
      ReadsOctets(e.frame, e.len);
    }
  }

  // Slot i is open for one peer in every state after the first a events.
  ghost predicate StackOpenSince(c: Config, events: seq<StackEvent>, i: nat, a: nat)
    requires ValidRun(c, events) && i < CONNECTION_LIMIT
  {
    forall k | a <= k <= |events| ::
      StackRun(c, events[..k])[i].Active() && StackRun(c, events[..k])[i].key == StackRun(c, events)[i].key
  }

  // In every reachable table an open slot has been open since a SYN of its peer, whose MAC
  // address it holds; an established one saw an ACK of the same peer after that.
  lemma StackHandshake(c: Config, events: seq<StackEvent>, i: nat) returns (a: nat, b: nat)
    requires ValidRun(c, events) && i < CONNECTION_LIMIT && StackRun(c, events)[i].Active()
    ensures var slot := StackRun(c, events)[i];
            && a < |events| && SegmentFrom(events[a], slot.key, SYN) && StackOpenSince(c, events, i, a + 1)
            && slot.mac == events[a].frame[6..12]
            && (slot.status == SYN_RECEIVED || slot.status == ESTABLISHED)
            && (slot.status == ESTABLISHED ==> a < b < |events| && SegmentFrom(events[b], slot.key, ACK))
  {
    hide StackRun, Run, TableEvent, FromPeer, SegmentFrom;
    var abstract_ := TableEvents(c, events);
    var key := StackRun(c, events)[i].key;
    StackRefinesTable(c, events);
    a, b := OpenedByHandshake(abstract_, i);
    FromPeerIsPacket(c, events[a], key, SYN);
    if Run(abstract_)[i].status == ESTABLISHED {
      FromPeerIsPacket(c, events[b], key, ACK);
    }
    forall k | a + 1 <= k <= |events|
      ensures StackRun(c, events[..k])[i].Active() && StackRun(c, events[..k])[i].key == key
    {
      PrefixEvents(c, events, k);
      StackRefinesTable(c, events[..k]);
    }
  }

  // ---------- one packet and the other peers ----------

  // The packet closes its own connection: a FIN on an open one, or data that with padding
  // and FCS come to 253 octets modulo 256.
  ghost predicate ClosesItself(f: seq<byte>, len: nat, slots: seq<Slot>)
    requires |f| >= 54
  {
    var i := Target(slots, Peer(f));
    && ToListener(f) && i != -1
    && ((Control(f) == 17 && slots[i].status != 0) || (Control(f) == 24 && Behind(f, len) % 256 == 253))
  }

  lemma ClosesItselfIff(f: seq<byte>, len: nat, slots: seq<Slot>)
    requires |f| >= 54
    ensures ClosesItself(f, len, slots) <==> Accepted(f) && Closing(slots, Parse(f, len))
  {
    hide Parse, Accepted, ToListener, Peer, Control, Closing, Target;
    AcceptedOctets(f);
    ReadsOctets(f, len);
    ClosingFrameIff(f, len, slots);
  }

  // It does so and leaves as an ICMP error.
  ghost predicate ClosesInError(c: Config, f: seq<byte>, len: nat, slots: seq<Slot>)
    requires |f| >= 54
  {
    ClosesItself(f, len, slots) && Errs(Decide(c, f))
  }

  // A packet changes another peer's active slot exactly when it closes its own connection,
  // leaves as an ICMP error, and the error read as a TCP header names the other peer.
  lemma PacketTouchesIff(c: Config, receiver: nat, f: seq<byte>, len: nat, slots: seq<Slot>, isn: nat, j: nat)
    requires c.Valid() && receiver < |c.interfaces| && FitsFrame(f, len) && isn < TWO32
    requires Consistent(slots) && j < |slots| && slots[j].Active() && slots[j].key != Peer(f)
    ensures Process(c, receiver, f, len, slots, isn).slots[j] != slots[j]
            <==> ClosesInError(c, f, len, slots) && slots[j].key == ErrorKey(f, ErrorOf(Decide(c, f)))
  {
    hide Process, Decide, ErrorKey, Parse, AfterSegment, AfterRefused, Closing, Consistent, Accepted;
    hide Peer, ClosesItself;
    var s := Parse(f, len);
    ReadsOctets(f, len);
    ClosesItselfIff(f, len, slots);
    ProcessRefinesStep(c, receiver, f, len, slots, isn);
    OtherPeersUntouched(slots, s);
    RefusedTouchesIff(slots, s, ErrorKey(f, ErrorOf(Decide(c, f))), j);
    NothingTyped(slots);
  }

  // With the listener's address on an interface: only a TTL of 1 does that.
  lemma TtlIsolates(c: Config, receiver: nat, f: seq<byte>, len: nat, slots: seq<Slot>, isn: nat, j: nat)
    requires c.Valid() && receiver < |c.interfaces| && FitsFrame(f, len) && isn < TWO32
    requires Consistent(slots) && j < |slots| && slots[j].Active() && slots[j].key != Peer(f)
    requires IsLocal(c.interfaces, TCP_IP)
    ensures Process(c, receiver, f, len, slots, isn).slots[j] != slots[j]
            <==> f[TTL] == 1 && ClosesItself(f, len, slots) && slots[j].key == ErrorKey(f, TIME_EXCEEDED)
  {
    hide Process, Decide, ErrorKey, Parse, Closing, Consistent, Accepted, IsLocal, ClosesItself, Peer;
    ClosesItselfIff(f, len, slots);
    PacketTouchesIff(c, receiver, f, len, slots, isn, j);
    if Accepted(f) {
      ListenerPlan(c, f);
    }
  }

  // A packet closes its own connection exactly when it is a FIN, or data that with padding
  // and FCS comes to 253 octets modulo 256, and did not arrive with TTL 1, or the error
  // that answers it happens to name its own sender.
  lemma ClosesIff(c: Config, receiver: nat, f: seq<byte>, len: nat, slots: seq<Slot>, isn: nat, i: nat)
    requires c.Valid() && receiver < |c.interfaces| && FitsFrame(f, len) && isn < TWO32
    requires IsLocal(c.interfaces, TCP_IP) && ToListener(f)
    requires Consistent(slots) && i < |slots| && slots[i].Active() && slots[i].key == Peer(f)
    ensures !Process(c, receiver, f, len, slots, isn).slots[i].Active()
            <==> (Control(f) == 17 || (Control(f) == 24 && Behind(f, len) % 256 == 253))
                 && (f[TTL] != 1 || Peer(f) == ErrorKey(f, TIME_EXCEEDED))
  {
    hide Process, Decide, ErrorKey, Parse, After, Accepted, IsLocal, Closing, ToListener, Peer, Control;
    AcceptedOctets(f);
    ReadsOctets(f, len);
    ClosesItselfIff(f, len, slots);
    ProcessRefinesStep(c, receiver, f, len, slots, isn);
    ListenerPlan(c, f);
    assert Target(slots, slots[i].key) == i;
    ClosesOwn(slots, Parse(f, len), ErrorKey(f, TIME_EXCEEDED), f[TTL] == 1, i);
  }

  // ---------- conversations ----------

  // The peer's packet, read by its own length fields, comes in order, acknowledges all the
  // peer has had, carries at most 127 octets, and its datagram fills the frame.
  ghost predicate InOrderPacket(f: seq<byte>, len: nat, p: Phase, q: Phase)
    requires |f| >= 54
  {
    var n := U16(f, 16) - 20 - 4 * (f[46] as int / 16);
    var seqNo, ackNo := U32(f, 38), U32(f, 42);
    && len == 14 + U16(f, 16) && n >= 0
    && if p.Opening? then
         && Control(f) == 16 && n == 0 && seqNo == (p.iss + 1) % 0x1_0000_0000
         && q.Talking? && q.iss == p.iss && q.received == 0 && q.sent == 0
         && ackNo == (q.irs + 1) % 0x1_0000_0000
       else
         && (if Control(f) == 24 then 1 <= n <= 127 else Control(f) == 16 && n == 0)
         && seqNo == (p.iss + 1 + p.received) % 0x1_0000_0000
         && ackNo == (p.irs + 1 + p.sent) % 0x1_0000_0000
         && q == p.(received := p.received + n)
  }

  // The conversation on slot i goes from p to q, or something happens that is not for it:
  // not a packet that closes its own connection and draws an error with this peer's key.
  ghost predicate InOrderEvent(c: Config, slots: seq<Slot>, i: nat, key: Key, e: StackEvent, p: Phase, q: Phase)
    requires e.Valid(c)
  {
    match e
    case Packet(_, f, len, _) =>
      if ToListener(f) && Peer(f) == key then InOrderPacket(f, len, p, q)
      else q == p && (ClosesInError(c, f, len, slots) ==> ErrorKey(f, ErrorOf(Decide(c, f))) != key)
    case Line(input) => InOrder(slots, i, key, User(input), p, q)
  }

  lemma InOrderPacketIsSegment(f: seq<byte>, len: nat, p: Phase, q: Phase)
    requires |f| >= 54 && InOrderPacket(f, len, p, q)
    ensures InOrderSegment(Parse(f, len), p, q)
  {
    hide Parse, Excess, Carried, U16, U32, Control;
    OctetsCount(f, len);
    CarriedFits(f);
    ReadsOctets(f, len);
  }

  lemma InOrderEventIsStep(c: Config, slots: seq<Slot>, i: nat, key: Key, e: StackEvent, p: Phase, q: Phase)
    requires e.Valid(c) && InOrderEvent(c, slots, i, key, e, p, q)
    ensures InOrder(slots, i, key, TableEvent(c, e), p, q)
  {
    hide Parse, Decide, ErrorKey, ClosesItself, InOrderPacket, InOrderSegment, Accepted, Closing, ToListener, Peer;
    if e.Packet? {
      AcceptedOctets(e.frame);
      ReadsOctets(e.frame, e.len);
      ClosesItselfIff(e.frame, e.len, slots);
      if ToListener(e.frame) && Peer(e.frame) == key {
        InOrderPacketIsSegment(e.frame, e.len, p, q);
      }
    }
  }

  // phases[k] is where the conversation stands k events after the first `since`.
  ghost predicate StackConversation(c: Config, events: seq<StackEvent>, since: nat, i: nat, key: Key, phases: seq<Phase>)
    requires ValidRun(c, events)
  {
    && since <= |events| && |phases| == |events| - since + 1
    && forall k | since <= k < |events| ::
         InOrderEvent(c, StackRun(c, events[..k]), i, key, events[k], phases[k - since], phases[k - since + 1])
  }

  lemma ConversationShorter(c: Config, events: seq<StackEvent>, since: nat, i: nat, key: Key, phases: seq<Phase>)
    requires ValidRun(c, events) && StackConversation(c, events, since, i, key, phases) && since < |events|
    ensures StackConversation(c, events[..|events| - 1], since, i, key, phases[..|phases| - 1])
  {
    hide StackRun, InOrderEvent;
    var n := |events| - 1;
    assert forall k | 0 <= k < n :: events[..n][..k] == events[..k];
  }

  // From a peer's SYN on, wherever it lands and whatever else arrives or is typed, the
  // slot's numbers are the initial numbers plus the octets exchanged, modulo 2^32.
  lemma {:induction false} StackConversationTracks(c: Config, events: seq<StackEvent>, since: nat, i: nat, phases: seq<Phase>)
    requires ValidRun(c, events) && 0 < since <= |events| && events[since - 1].Packet?
    requires var syn := events[since - 1];
             && |syn.frame| >= 54 && SegmentFrom(syn, Peer(syn.frame), 2)
             && i == Target(StackRun(c, events[..since - 1]), Peer(syn.frame))
             && StackConversation(c, events, since, i, Peer(syn.frame), phases)
             && phases[0] == Opening(U32(syn.frame, 38))
    ensures i < CONNECTION_LIMIT
    ensures Tracks(StackRun(c, events)[i], Peer(events[since - 1].frame), phases[|events| - since])
    decreases |events|
  {
    hide StackRun, StackStep, After, TableEvent, Tracks, InOrderEvent, InOrder, SegmentFrom, Peer, Target, U32;
    var syn := events[since - 1];
    var key := Peer(syn.frame);
    var init, e := events[..|events| - 1], events[|events| - 1];
    StackRunStep(c, events);
    StepRefines(c, StackRun(c, init), e);
    if since == |events| {
      SynPacketOpens(c, StackRun(c, init), syn, key);
    } else {
      ConversationShorter(c, events, since, i, key, phases);
      assert init[..since - 1] == events[..since - 1];
      StackConversationTracks(c, init, since, i, phases[..|phases| - 1]);
      ReachableTable(c, init);
      InOrderEventIsStep(c, StackRun(c, init), i, key, e, phases[|phases| - 2], phases[|phases| - 1]);
      StepTracks(StackRun(c, init), i, key, TableEvent(c, e), phases[|phases| - 2], phases[|phases| - 1]);
    }
  }

  lemma StackRunStep(c: Config, events: seq<StackEvent>)
    requires ValidRun(c, events) && events != []
    ensures StackRun(c, events) == StackStep(c, StackRun(c, events[..|events| - 1]), events[|events| - 1])
  {}

  lemma SynPacketOpens(c: Config, slots: seq<Slot>, syn: StackEvent, key: Key)
    requires syn.Valid(c) && SegmentFrom(syn, key, SYN) && Target(slots, key) != -1
    ensures Tracks(After(slots, TableEvent(c, syn))[Target(slots, key)], key, Opening(U32(syn.frame, 38)))
  {
    hide Parse, Decide, ErrorKey, Accepted, ToListener, U32, Peer, Control;
    AcceptedOctets(syn.frame);
    ReadsOctets(syn.frame, syn.len);
    SynOpens(slots, Parse(syn.frame, syn.len));
  }

  // A handshake ACK that fills a frame long enough not to be ignored has TCP options.
  lemma BareAckHasOptions(f: seq<byte>, len: nat)
    requires FitsFrame(f, len) && Excess(f, len) == 0 && Carried(f) == 0
    ensures HeaderLength(f) >= 30
  {}

  // ---------- whom typed text reaches ----------

  // A SYN packet from another peer takes slot i.
  ghost predicate PacketTakes(slots: seq<Slot>, e: StackEvent, i: nat)
    requires i < |slots|
  {
    && e.Packet? && |e.frame| >= 54 && ToListener(e.frame) && Control(e.frame) == 2
    && Peer(e.frame) != slots[i].key && Target(slots, Peer(e.frame)) == i
  }

  lemma PacketTakesIff(c: Config, slots: seq<Slot>, e: StackEvent, i: nat)
    requires e.Valid(c) && i < |slots|
    ensures PacketTakes(slots, e, i) <==> Takes(slots, TableEvent(c, e), i)
  {
    hide Parse, Decide, ErrorKey, Accepted, Target, ToListener, Peer, Control;
    if e.Packet? {
      AcceptedOctets(e.frame);
      ReadsOctets(e.frame, e.len);
    }
  }

  // While the user stays in the write mode opened on slot i, each text typed is for the
  // peer then chosen exactly as long as no other peer's SYN packet has taken the slot.
  lemma StackTypedReachesChosen(c: Config, events: seq<StackEvent>, a: nat, i: nat)
    requires ValidRun(c, events) && a < |events| && i < CONNECTION_LIMIT && events[a] == Line(Open(i))
    requires forall k | a < k <= |events| :: Writing(StackRun(c, events[..k]), 0) == i
    ensures (forall k | a < k <= |events| ::
               StackRun(c, events[..k])[Writing(StackRun(c, events[..k]), 0)].key == StackRun(c, events[..a])[i].key)
            <==> forall k | a < k < |events| :: !PacketTakes(StackRun(c, events[..k]), events[k], i)
  {
    hide StackRun, Run, TableEvent, Takes, PacketTakes;
    var abstract_ := TableEvents(c, events);
    assert abstract_[a] == User(Open(i)) by { LineEvent(c, events[a]); }
    forall k | 0 <= k <= |events|
      ensures StackRun(c, events[..k]) == Run(abstract_[..k])
      ensures k < |events| ==> (PacketTakes(StackRun(c, events[..k]), events[k], i) <==> Takes(Run(abstract_[..k]), abstract_[k], i))
    {
      StackRefinesTable(c, events[..k]);
      PrefixEvents(c, events, k);
      if k < |events| {
        PacketTakesIff(c, StackRun(c, events[..k]), events[k], i);
      }
    }
    TypedReachesChosen(abstract_, a, i);
  }

  lemma LineEvent(c: Config, e: StackEvent)
    requires e.Line?
    ensures TableEvent(c, e) == User(e.input)
  {}

  // ---------- where isolation fails ----------

  // What interface_receiver hands to handle_packet (stack.c, lines 177-223): IPv4 for the
  // receiving interface, in a frame that is neither short nor broadcast.
  ghost predicate Delivered(c: Config, e: StackEvent)
    requires e.Valid(c)
  {
    e.Packet? ==>
      && MIN_FRAME <= e.len && e.frame[..6] != BROADCAST && U16(e.frame, 12) == 2048
      && e.frame[..6] == c.interfaces[e.receiver].mac && OwnMac(c, e.receiver)
  }

  // eth_cmp finds this interface by its MAC address.
  ghost predicate OwnMac(c: Config, receiver: nat)
    requires receiver < |c.interfaces|
  {
    forall k | 0 <= k < receiver :: c.interfaces[k].mac != c.interfaces[receiver].mac
  }

  // A frame of minimum size, padded by nothing, with a segment from this peer for the
  // listener.
  function SegmentFrame(mac: seq<byte>, key: Key, control: nat, ttl: byte): (f: seq<byte>)
    requires |mac| == 6 && |key.ip| == 4 && key.port < 0x10000 && control < 64
    ensures |f| == 94
  {
    mac + [0x02, 0, 0, 0, 0, 1] + [0x08, 0x00] + [0x45, 0x00] + Be16(50) + [0, 0, 0, 0, ttl, 6, 0, 0]
    + key.ip + TCP_IP + Be16(key.port) + Be16(HOST_TCP_PORT)
    + seq(8, _ => 0) + Be16(0x5000 + control) + seq(46, _ => 0)
  }

  lemma SegmentFrameFields(mac: seq<byte>, key: Key, control: nat, ttl: byte)
    requires |mac| == 6 && |key.ip| == 4 && key.port < 0x10000 && control < 64 && ttl != 0
    ensures var f := SegmentFrame(mac, key, control, ttl);
            && f[..6] == mac && U16(f, 12) == 2048 && f[14] == 0x45
            && f[TTL] == ttl && Accepted(f) && FitsFrame(f, 64)
            && Parse(f, 64).key == key && Parse(f, 64).control == control
            && Excess(f, 64) == 0 && HeaderLength(f) == 20
  {
    hide Be16, U32;
    var f := SegmentFrame(mac, key, control, ttl);
    assert f[16..18] == Be16(50) && f[26..30] == key.ip && f[30..34] == TCP_IP;
    assert f[34..36] == Be16(key.port) && f[36..38] == Be16(HOST_TCP_PORT) && f[46..48] == Be16(0x5000 + control);
    U16Slice(f, 16, 18, 16);
    U16Slice(f, 34, 36, 34);
    U16Slice(f, 36, 38, 36);
    U16Slice(f, 46, 48, 46);
  }

  function SegmentPacket(c: Config, receiver: nat, key: Key, control: nat, ttl: byte, isn: nat): StackEvent
    requires receiver < |c.interfaces| && |c.interfaces[receiver].mac| == 6
    requires |key.ip| == 4 && key.port < 0x10000 && control < 64
  {
    Packet(receiver, SegmentFrame(c.interfaces[receiver].mac, key, control, ttl), 64, isn)
  }

  // Such frames reach the stack, and the listener's address is on an interface.
  ghost predicate Listening(c: Config, receiver: nat) {
    && c.Valid() && receiver < |c.interfaces| && OwnMac(c, receiver)
    && c.interfaces[receiver].mac != BROADCAST && IsLocal(c.interfaces, TCP_IP)
  }

  // The last of a run's packets, when it is such a segment.
  lemma SegmentStep(c: Config, events: seq<StackEvent>, e: StackEvent, key: Key, control: nat, ttl: byte)
    requires ValidRun(c, events) && |key.ip| == 4 && key.port < 0x10000 && control < 64 && ttl != 0
    requires e.Packet? && Listening(c, e.receiver) && e.isn < TWO32
    requires e == SegmentPacket(c, e.receiver, key, control, ttl, e.isn)
    ensures ValidRun(c, events + [e]) && Delivered(c, e)
    ensures var s := Parse(e.frame, 64);
            && s.key == key && s.control == control
            && StackRun(c, events + [e])
               == After(StackRun(c, events), if ttl == 1 then Refused(s, ErrorKey(e.frame, TIME_EXCEEDED)) else Arrives(s))
  {
    hide SegmentFrame, Process, Parse, After, ErrorKey, Accepted, Decide, IsLocal, U16;
    SegmentFrameFields(c.interfaces[e.receiver].mac, key, control, ttl);
    ListenerPlan(c, e.frame);
    ProcessRefinesStep(c, e.receiver, e.frame, 64, StackRun(c, events), e.isn);
    assert (events + [e])[..|events|] == events;
  }

  // It can happen in a run of three packets: a peer connects; one connects from the
  // listener's own address, by the port the coming error will show; and the first sends a
  // FIN with TTL 1. That closes the second connection and leaves the first open.
  lemma IsolationFails(c: Config, receiver: nat, isn: nat)
    requires Listening(c, receiver) && isn < TWO32
    ensures var a := Key([10, 0, 0, 1], 5000);
            var fin := SegmentPacket(c, receiver, a, FIN_ACK, 1, isn);
            var b := ErrorKey(fin.frame, TIME_EXCEEDED);
            var synA, synB := SegmentPacket(c, receiver, a, SYN, 64, isn), SegmentPacket(c, receiver, b, SYN, 64, isn);
            && ValidRun(c, [synA, synB]) && ValidRun(c, [synA, synB, fin])
            && Delivered(c, synA) && Delivered(c, synB) && Delivered(c, fin)
            && var t, r := StackRun(c, [synA, synB]), StackRun(c, [synA, synB, fin]);
               && t[0].Active() && t[0].key == a && t[1].Active() && t[1].key == b
               && r[0].Active() && r[0].key == a && !r[1].Active()
  {
    hide SegmentFrame, ErrorKey, Parse, Advance, Narrow, StackStep, After, OwnMac, IsLocal, Delivered;
    var a := Key([10, 0, 0, 1], 5000);
    var fin := SegmentPacket(c, receiver, a, FIN_ACK, 1, isn);
    var b := ErrorKey(fin.frame, TIME_EXCEEDED);
    var synA, synB := SegmentPacket(c, receiver, a, SYN, 64, isn), SegmentPacket(c, receiver, b, SYN, 64, isn);
    SegmentStep(c, [], synA, a, SYN, 64);
    SegmentStep(c, [synA], synB, b, SYN, 64);
    SegmentStep(c, [synA, synB], fin, a, FIN_ACK, 1);
    assert [] + [synA] == [synA] && [synA] + [synB] == [synA, synB] && [synA, synB] + [fin] == [synA, synB, fin];
    var t0, t1, t2 := InitialTable(), StackRun(c, [synA]), StackRun(c, [synA, synB]);
    SynAt(t0, Parse(synA.frame, 64), 0);
    assert b.ip[0] == 0xC0 && a.ip[0] == 10 && EMPTY_SLOT.key.ip[0] == 0;
    assert Lookup(t1, b, 0) == -1;
    SynAt(t1, Parse(synB.frame, 64), 1);
    RefusedFin(t2, Parse(fin.frame, 64), b, 0, 1);
  }

  lemma RefusedFin(slots: seq<Slot>, s: Arrival, second: Key, i: nat, j: nat)
    requires s.control == FIN_ACK && i < |slots| && j < |slots| && i != j
    requires Target(slots, s.key) == i && slots[i].Active() && Lookup(slots, second, 0) == j
    ensures After(slots, Refused(s, second)) == slots[i := Received(slots[i], s)][j := Closed(slots[j])]
  {
    LookupUnchanged(slots, i, Received(slots[i], s), second, 0);
  }

  // Typed text does go astray: a peer is chosen and closes, and the next to connect gets
  // what is typed.
  lemma StackTypedGoesAstray(c: Config, receiver: nat, isn: nat, a: Key, b: Key)
    requires Listening(c, receiver) && isn < TWO32
    requires |a.ip| == 4 && a.port < 0x10000 && |b.ip| == 4 && b.port < 0x10000
    requires b != a && b != EMPTY_SLOT.key
    ensures var syn, fin := SegmentPacket(c, receiver, a, SYN, 64, isn), SegmentPacket(c, receiver, a, FIN_ACK, 64, isn);
            var next := SegmentPacket(c, receiver, b, SYN, 64, isn);
            && ValidRun(c, [syn]) && ValidRun(c, [syn, Line(Open(0)), fin, next])
            && Delivered(c, syn) && Delivered(c, fin) && Delivered(c, next)
            && var t := StackRun(c, [syn, Line(Open(0)), fin, next]);
               StackRun(c, [syn])[0].key == a && Writing(t, 0) == 0 && t[0].key == b
  {
    hide SegmentFrame, Parse, StackStep, StackRun, After, OwnMac, IsLocal, Delivered, Run, ErrorKey;
    EmptyStackRun(c);
    var syn, fin := SegmentPacket(c, receiver, a, SYN, 64, isn), SegmentPacket(c, receiver, a, FIN_ACK, 64, isn);
    var next, choice := SegmentPacket(c, receiver, b, SYN, 64, isn), Line(Open(0));
    SegmentStep(c, [], syn, a, SYN, 64);
    assert [] + [syn] == [syn] && [syn, choice] + [fin] == [syn, choice, fin];
    assert [syn, choice, fin] + [next] == [syn, choice, fin, next];
    ChoiceStep(c, [syn], Open(0));
    assert [syn] + [choice] == [syn, choice];
    SegmentStep(c, [syn, choice], fin, a, FIN_ACK, 64);
    SegmentStep(c, [syn, choice, fin], next, b, SYN, 64);
    var s1, s3, s4 := Parse(syn.frame, 64), Parse(fin.frame, 64), Parse(next.frame, 64);
    TypedGoesAstray(s1, s3, s4);
    RunOfFour(Arrives(s1), User(Open(0)), Arrives(s3), Arrives(s4));
  }

  lemma EmptyStackRun(c: Config)
    requires c.Valid()
    ensures StackRun(c, []) == InitialTable()
  {}

  lemma ChoiceStep(c: Config, events: seq<StackEvent>, input: Input)
    requires ValidRun(c, events)
    ensures ValidRun(c, events + [Line(input)])
    ensures StackRun(c, events + [Line(input)]) == After(StackRun(c, events), User(input))
  {
    hide StackStep, After;
    var longer := events + [Line(input)];
    assert longer[..|events|] == events;
    StepRefines(c, StackRun(c, events), Line(input));
  }

  lemma RunOfFour(e1: Event, e2: Event, e3: Event, e4: Event)
    ensures Run([e1]) == After(InitialTable(), e1)
    ensures Run([e1, e2, e3, e4]) == After(After(After(Run([e1]), e2), e3), e4)
  {
    hide After, Run;
    EmptyRun();
    RunStep([e1]);
    RunStep([e1, e2]);
    RunStep([e1, e2, e3]);
    RunStep([e1, e2, e3, e4]);
    assert [e1][..0] == [] && [e1, e2][..1] == [e1] && [e1, e2, e3][..2] == [e1, e2];
    assert [e1, e2, e3, e4][..3] == [e1, e2, e3];
  }
}
