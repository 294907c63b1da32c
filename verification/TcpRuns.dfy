// Runs of the connection table: segments arriving and the user typing, in any order.
module TcpRuns {
  import opened Bytes
  import opened TcpTable
  import opened TcpSegment
  import opened Tcp

  // What the user does with one line of input (interaction_handler).
  datatype Input =
    | Nothing                     // no octets read
    | Malformed                   // parse_connection_command returned -1
    | Close(id: int)              // "[ID]q"
    | Open(id: int)               // "[ID]c"
    | Data(octets: nat)           // typed while a connection is in write mode
    | Leave                       // "q" while a connection is in write mode

  // A refused segment is one whose frame encapsulation turns into an ICMP error: the
  // second pass, if there is one, then takes its key from the error.
  datatype Event =
    | Arrives(arrival: Arrival)
    | Refused(arrival: Arrival, second: Key)
    | User(input: Input)

  predicate ValidId(slots: seq<Slot>, id: int) {
    0 <= id < |slots| && slots[id].Active()
  }

  // The table after one segment for the listener, both passes included.
  function AfterSegment(slots: seq<Slot>, s: Arrival): (r: seq<Slot>)
    ensures |r| == |slots|
  {
    var i := Target(slots, s.key);
    if i == -1 then slots
    else
      var slot := Received(slots[i], s);
      slots[i := if Verdict(slots[i], s) == TCP_FIN_ACK then Closed(slot) else slot]
  }

  function CloseKey(slots: seq<Slot>, key: Key): (r: seq<Slot>)
    ensures |r| == |slots|
  {
    var j := Lookup(slots, key, 0);
    if j == -1 then slots else slots[j := Closed(slots[j])]
  }

  predicate Closing(slots: seq<Slot>, s: Arrival) {
    var i := Target(slots, s.key);
    i != -1 && Verdict(slots[i], s) == TCP_FIN_ACK
  }

  // A FIN on an open connection closes, and so does a data segment whose length narrows
  // to the code of the FIN exchange.
  lemma ClosingIff(slots: seq<Slot>, s: Arrival)
    ensures var i := Target(slots, s.key);
            Closing(slots, s) <==>
              i != -1 && ((s.control == FIN_ACK && slots[i].Active()) || (s.control == PSH_ACK && s.octets % 256 == 253))
  {
    hide Narrow, Target;
    NarrowIsFin(s.octets);
  }

  lemma Remainder(n: int, q: int, r: int)
    requires n == q * 256 + r && 0 <= r < 256
    ensures n % 256 == r
  {}

  lemma NarrowIsFin(n: int)
    ensures Narrow(n) == TCP_FIN_ACK <==> n % 256 == 253
  {
    var q, r := (n + 128) / 256, (n + 128) % 256;
    if r >= 128 {
      Remainder(n, q, r - 128);
    } else {
      Remainder(n, q - 1, r + 128);
    }
  }

  // The table after one refused segment for the listener.
  function AfterRefused(slots: seq<Slot>, s: Arrival, second: Key): (r: seq<Slot>)
    ensures |r| == |slots|
  {
    if !Closing(slots, s) then AfterSegment(slots, s)
    else
      var i := Target(slots, s.key);
      CloseKey(slots[i := Received(slots[i], s)], second)
  }

  // The table after one line of input: which reading applies depends on whether some
  // slot is in write mode.
  function AfterInput(slots: seq<Slot>, input: Input): (r: seq<Slot>)
    ensures |r| == |slots|
  {
    var w := Writing(slots, 0);
    if w == -1 then
      match input
      case Close(id) => if ValidId(slots, id) then slots[id := AfterSend(Closed(slots[id]), 0, true)] else slots
      case Open(id) => if ValidId(slots, id) then slots[id := slots[id].(io := true)] else slots
      case _ => slots
    else
      match input
      case Data(n) => if n > 0 then slots[w := AfterSend(slots[w], n, false).(io := false)] else slots
      case Leave => slots[w := slots[w].(io := false)]
      case _ => slots
  }

  function After(slots: seq<Slot>, e: Event): (r: seq<Slot>)
    ensures |r| == |slots|
  {
    match e
    case Arrives(s) => AfterSegment(slots, s)
    case Refused(s, second) => AfterRefused(slots, s, second)
    case User(input) => AfterInput(slots, input)
  }

  // stack.c, lines 78-80.
  function InitialTable(): seq<Slot> { seq(CONNECTION_LIMIT, _ => EMPTY_SLOT) }

  function Run(events: seq<Event>): (r: seq<Slot>)
    ensures |r| == CONNECTION_LIMIT
    decreases |events|
  {
    if events == [] then InitialTable()
    else After(Run(events[..|events| - 1]), events[|events| - 1])
  }

  // What the user's lines do, slot by slot: a close takes one sequence number and closes
  // the connection; text takes as many as it has octets and ends write mode, as "q" does;
  // a choice starts it; nothing else changes anything.
  lemma InputEffects(slots: seq<Slot>, input: Input, i: nat)
    requires i < |slots|
    ensures var d, e := slots[i], AfterInput(slots, input)[i];
            var writing := exists j | 0 <= j < |slots| :: slots[j].io;
            var first := d.io && forall j | 0 <= j < i :: !slots[j].io;
            if !writing && input.Close? && input.id == i && d.status != 0 then
              e == Slot(d.io, d.key, d.mac, d.nextSeq, (d.currSeq + 1) % 0x1_0000_0000, 0)
            else if !writing && input.Open? && input.id == i && d.status != 0 then
              e == Slot(true, d.key, d.mac, d.nextSeq, d.currSeq, d.status)
            else if first && input.Data? && input.octets > 0 then
              e == Slot(false, d.key, d.mac, d.nextSeq, (d.currSeq + input.octets) % 0x1_0000_0000, d.status)
            else if first && input.Leave? then
              e == Slot(false, d.key, d.mac, d.nextSeq, d.currSeq, d.status)
            else e == d
  {}

  // Text sent ends write mode: what is typed next is a command again.
  lemma TextEndsWriting(slots: seq<Slot>, octets: nat)
    requires OneWriter(slots) && Writing(slots, 0) != -1 && octets > 0
    ensures Writing(AfterInput(slots, Data(octets)), 0) == -1
  {}

  // ---------- one slot per key ----------

  // Looking up an active slot's key finds that slot.
  ghost predicate Consistent(slots: seq<Slot>) {
    forall i | 0 <= i < |slots| && slots[i].Active() :: Lookup(slots, slots[i].key, 0) == i
  }

  lemma UpdateConsistent(slots: seq<Slot>, i: nat, slot: Slot)
    requires Consistent(slots) && i < |slots|
    requires slot.key == slots[i].key || Lookup(slots, slot.key, 0) == -1
    requires slot.Active() ==>
      slots[i].Active() || Lookup(slots, slot.key, 0) == i || Lookup(slots, slot.key, 0) == -1
    ensures Consistent(slots[i := slot])
  {
    var r := slots[i := slot];
    forall j | 0 <= j < |r| && r[j].Active()
      ensures Lookup(r, r[j].key, 0) == j
    {
      assert r[Lookup(r, r[j].key, 0)].key == r[j].key;
    }
  }

  lemma SegmentConsistent(slots: seq<Slot>, s: Arrival)
    requires Consistent(slots)
    ensures Consistent(AfterSegment(slots, s))
  {
    hide Narrow, Advance;
    var i := Target(slots, s.key);
    if i != -1 {
      var slot := Received(slots[i], s);
      UpdateConsistent(slots, i, if Verdict(slots[i], s) == TCP_FIN_ACK then Closed(slot) else slot);
    }
  }

  lemma RefusedConsistent(slots: seq<Slot>, s: Arrival, second: Key)
    requires Consistent(slots)
    ensures Consistent(AfterRefused(slots, s, second))
  {
    hide Narrow, Advance, Verdict;
    SegmentConsistent(slots, s);
    if Closing(slots, s) {
      var i := Target(slots, s.key);
      var t := slots[i := Received(slots[i], s)];
      UpdateConsistent(slots, i, t[i]);
      var j := Lookup(t, second, 0);
      if j != -1 {
        UpdateConsistent(t, j, Closed(t[j]));
      }
    }
  }

  lemma InputConsistent(slots: seq<Slot>, input: Input)
    requires Consistent(slots)
    ensures Consistent(AfterInput(slots, input))
  {
    var w := Writing(slots, 0);
    if w == -1 {
      match input
      case Close(id) =>
        if ValidId(slots, id) { UpdateConsistent(slots, id, AfterSend(Closed(slots[id]), 0, true)); }
      case Open(id) =>
        if ValidId(slots, id) { UpdateConsistent(slots, id, slots[id].(io := true)); }
      case _ =>
    } else {
      match input
      case Data(n) => UpdateConsistent(slots, w, AfterSend(slots[w], n, false).(io := false));
      case Leave => UpdateConsistent(slots, w, slots[w].(io := false));
      case _ =>
    }
  }

  lemma AfterConsistent(slots: seq<Slot>, e: Event)
    requires Consistent(slots)
    ensures Consistent(After(slots, e))
  {
    match e
    case Arrives(s) => SegmentConsistent(slots, s);
    case Refused(s, second) => RefusedConsistent(slots, s, second);
    case User(input) => InputConsistent(slots, input);
  }

  // In every reachable table each active slot is the one its own key finds.
  lemma {:induction false} RunConsistent(events: seq<Event>)
    ensures Consistent(Run(events))
    decreases |events|
  {
    if events != [] {
      RunConsistent(events[..|events| - 1]);
      AfterConsistent(Run(events[..|events| - 1]), events[|events| - 1]);
    }
  }

  lemma ActiveKeysDistinct(events: seq<Event>, i: nat, j: nat)
    requires i < j < CONNECTION_LIMIT
    ensures var t := Run(events); t[i].Active() && t[j].Active() ==> t[i].key != t[j].key
  {
    RunConsistent(events);
  }

  lemma ReceivedValid(slot: Slot, s: Arrival)
    requires slot.Valid() && s.Valid()
    ensures Received(slot, s).Valid()
  {
    hide Narrow, Advance;
  }

  // Every reachable slot stays within the widths of its fields.
  lemma StepValid(slots: seq<Slot>, e: Event)
    requires ValidTable(slots) && (e.User? || e.arrival.Valid())
    ensures ValidTable(After(slots, e))
  {
    hide Received, Verdict;
    if !e.User? {
      var i := Target(slots, e.arrival.key);
      if i != -1 {
        ReceivedValid(slots[i], e.arrival);
      }
    }
  }

  // ---------- peers do not touch each other ----------

  // A segment changes at most one slot, which is its peer's own or a closed one: an
  // active slot of another peer keeps every field.
  lemma OtherPeersUntouched(slots: seq<Slot>, s: Arrival)
    ensures var i, r := Target(slots, s.key), AfterSegment(slots, s);
            && (forall j | 0 <= j < |slots| && j != i :: r[j] == slots[j])
            && (forall j | 0 <= j < |slots| && slots[j].Active() && slots[j].key != s.key :: r[j] == slots[j])
  {}

  // Not so a refused one. Another peer's active slot changes exactly when the segment
  // would close its own connection and the error names the other peer's key.
  lemma RefusedTouchesIff(slots: seq<Slot>, s: Arrival, second: Key, j: nat)
    requires Consistent(slots) && j < |slots| && slots[j].Active() && slots[j].key != s.key
    ensures AfterRefused(slots, s, second)[j] != slots[j] <==> Closing(slots, s) && slots[j].key == second
  {
    hide Narrow, Advance;
    if Closing(slots, s) {
      var i := Target(slots, s.key);
      LookupUnchanged(slots, i, Received(slots[i], s), second, 0);
    }
  }

  // ---------- one conversation at a time is typed into ----------

  ghost predicate OneWriter(slots: seq<Slot>) {
    forall i, j | 0 <= i < j < |slots| :: !(slots[i].io && slots[j].io)
  }

  lemma {:induction false} AtMostOneWriter(events: seq<Event>)
    ensures OneWriter(Run(events))
    decreases |events|
  {
    if events != [] {
      AtMostOneWriter(events[..|events| - 1]);
      StepOneWriter(Run(events[..|events| - 1]), events[|events| - 1]);
    }
  }

  lemma StepOneWriter(slots: seq<Slot>, e: Event)
    requires OneWriter(slots)
    ensures OneWriter(After(slots, e))
  {
    hide Narrow, Advance;
  }

  // ---------- whom typed text reaches ----------

  // A SYN from another peer takes slot i.
  ghost predicate Takes(slots: seq<Slot>, e: Event, i: nat)
    requires i < |slots|
  {
    && !e.User? && e.arrival.control == SYN && e.arrival.key != slots[i].key
    && Target(slots, e.arrival.key) == i
  }

  lemma KeyChangesIff(slots: seq<Slot>, e: Event, i: nat)
    requires i < |slots|
    ensures After(slots, e)[i].key != slots[i].key <==> Takes(slots, e, i)
  {
    hide Narrow, Advance;
  }

  // From event a on slot i holds the key it held then.
  ghost predicate KeepsKey(events: seq<Event>, a: nat, i: nat)
    requires a < |events| && i < CONNECTION_LIMIT
  {
    forall k | a < k <= |events| :: Run(events[..k])[i].key == Run(events[..a])[i].key
  }

  // No other peer takes slot i after event a.
  ghost predicate NotTaken(events: seq<Event>, a: nat, i: nat)
    requires a < |events| && i < CONNECTION_LIMIT
  {
    forall k | a < k < |events| :: !Takes(Run(events[..k]), events[k], i)
  }

  lemma KeepsKeyStep(events: seq<Event>, a: nat, i: nat)
    requires a + 1 < |events| && i < CONNECTION_LIMIT
    ensures var init := events[..|events| - 1];
            KeepsKey(events, a, i) <==> KeepsKey(init, a, i) && Run(events)[i].key == Run(events[..a])[i].key
  {
    hide Run;
    var init := events[..|events| - 1];
    assert events[..|events|] == events;
    assert forall k | 0 <= k < |events| :: init[..k] == events[..k];
  }

  lemma NotTakenStep(events: seq<Event>, a: nat, i: nat)
    requires a + 1 < |events| && i < CONNECTION_LIMIT
    ensures var n := |events| - 1;
            NotTaken(events, a, i) <==> NotTaken(events[..n], a, i) && !Takes(Run(events[..n]), events[n], i)
  {
    hide Takes, Run;
    var n := |events| - 1;
    assert forall k | 0 <= k <= n :: events[..n][..k] == events[..k];
  }

  lemma {:induction false} KeepsKeyIff(events: seq<Event>, a: nat, i: nat)
    requires a < |events| && i < CONNECTION_LIMIT && events[a] == User(Open(i))
    ensures KeepsKey(events, a, i) <==> NotTaken(events, a, i)
    decreases |events|
  {
    hide After, Takes, Run, KeepsKey, NotTaken;
    var n := |events| - 1;
    var init := events[..n];
    RunStep(events);
    KeyChangesIff(Run(init), events[n], i);
    if a == n {
      OpenKeeps(events, i);
    } else {
      KeepsKeyStep(events, a, i);
      NotTakenStep(events, a, i);
      KeepsKeyIff(init, a, i);
      if KeepsKey(init, a, i) {
        KeepsKeyLast(init, a, i);
      }
      assert init[..a] == events[..a];
    }
  }

  lemma KeepsKeyLast(events: seq<Event>, a: nat, i: nat)
    requires a < |events| && i < CONNECTION_LIMIT && KeepsKey(events, a, i)
    ensures Run(events)[i].key == Run(events[..a])[i].key
  {
    assert events[..|events|] == events;
  }

  lemma OpenKeeps(events: seq<Event>, i: nat)
    requires events != [] && i < CONNECTION_LIMIT && events[|events| - 1] == User(Open(i))
    ensures KeepsKey(events, |events| - 1, i) && NotTaken(events, |events| - 1, i)
  {
    var n := |events| - 1;
    KeyChangesIff(Run(events[..n]), events[n], i);
    assert events[..|events|] == events;
  }

  // Write mode outlives a connection: nothing clears it when the slot is closed or taken
  // by another peer. While the user stays in the write mode opened on slot i, each text
  // typed is for the peer then chosen exactly as long as no other has taken the slot.
  lemma TypedReachesChosen(events: seq<Event>, a: nat, i: nat)
    requires a < |events| && i < CONNECTION_LIMIT && events[a] == User(Open(i))
    requires forall k | a < k <= |events| :: Writing(Run(events[..k]), 0) == i
    ensures (forall k | a < k <= |events| ::
               Run(events[..k])[Writing(Run(events[..k]), 0)].key == Run(events[..a])[i].key)
            <==> NotTaken(events, a, i)
  {
    hide Run, NotTaken;
    KeepsKeyIff(events, a, i);
    assert forall k | a < k <= |events| ::
      Run(events[..k])[Writing(Run(events[..k]), 0)].key == Run(events[..k])[i].key;
  }

  lemma RunStep(events: seq<Event>)
    requires events != []
    ensures Run(events) == After(Run(events[..|events| - 1]), events[|events| - 1])
  {}

  lemma SynAt(slots: seq<Slot>, s: Arrival, i: nat)
    requires s.control == SYN && Target(slots, s.key) == i
    ensures After(slots, Arrives(s)) == slots[i := Received(slots[i], s)]
  {}

  // It happens: a peer is chosen, closes, and the next to connect gets the text.
  lemma TypedGoesAstray(syn: Arrival, fin: Arrival, next: Arrival)
    requires syn.control == SYN && fin.control == FIN_ACK && fin.key == syn.key
    requires next.control == SYN && next.key != syn.key && next.key != EMPTY_SLOT.key
    ensures var chosen := Run([Arrives(syn)])[0];
            var t := Run([Arrives(syn), User(Open(0)), Arrives(fin), Arrives(next)]);
            chosen.key == syn.key && Writing(t, 0) == 0 && t[0].key == next.key
  {
    hide Narrow, Advance, Run, After;
    var e1, e2, e3, e4 := Arrives(syn), User(Open(0)), Arrives(fin), Arrives(next);
    var t0 := InitialTable();
    RunStep([e1]);
    RunStep([e1, e2]);
    RunStep([e1, e2, e3]);
    RunStep([e1, e2, e3, e4]);
    EmptyRun();
    assert [e1][..0] == [] && [e1, e2][..1] == [e1] && [e1, e2, e3][..2] == [e1, e2];
    assert [e1, e2, e3, e4][..3] == [e1, e2, e3];
    var t1 := t0[0 := Received(t0[0], syn)];
    SynAt(t0, syn, 0);
    var t2 := t1[0 := t1[0].(io := true)];
    OpensFirst(t1);
    var t3 := t2[0 := Closed(Received(t2[0], fin))];
    FinAt(t2, fin, 0);
    SynAt(t3, next, 0);
  }

  lemma EmptyRun()
    ensures Run([]) == InitialTable()
  {}

  lemma OpensFirst(slots: seq<Slot>)
    requires slots != [] && slots[0].Active() && Writing(slots, 0) == -1
    ensures After(slots, User(Open(0))) == slots[0 := slots[0].(io := true)]
  {}

  lemma FinAt(slots: seq<Slot>, s: Arrival, i: nat)
    requires s.control == FIN_ACK && Target(slots, s.key) == i && slots[i].Active()
    ensures After(slots, Arrives(s)) == slots[i := Closed(Received(slots[i], s))]
  {}

  // ---------- how a slot got where it is ----------

  // Slot i is open for one peer in every state after the first a events.
  ghost predicate OpenSince(events: seq<Event>, i: nat, a: nat)
    requires i < CONNECTION_LIMIT
  {
    forall k | a <= k <= |events| ::
      && Run(events[..k])[i].Active() && Run(events[..k])[i].key == Run(events)[i].key
      && Run(events[..k])[i].mac == Run(events)[i].mac
  }

  ghost predicate FromPeer(e: Event, key: Key, control: nat) {
    !e.User? && e.arrival.key == key && e.arrival.control == control
  }

  lemma OpenLonger(events: seq<Event>, i: nat, a: nat)
    requires i < CONNECTION_LIMIT && events != [] && a <= |events|
    requires a < |events| ==> OpenSince(events[..|events| - 1], i, a)
    requires Run(events)[i].Active()
    requires a < |events| ==> Run(events[..|events| - 1])[i].key == Run(events)[i].key
    requires a < |events| ==> Run(events[..|events| - 1])[i].mac == Run(events)[i].mac
    ensures OpenSince(events, i, a)
  {
    var init := events[..|events| - 1];
    forall k | a <= k <= |events|
      ensures Run(events[..k])[i].Active() && Run(events[..k])[i].key == Run(events)[i].key
      ensures Run(events[..k])[i].mac == Run(events)[i].mac
    {
      if k < |events| {
        assert init[..k] == events[..k];
      } else {
        assert events[..k] == events;
      }
    }
  }

  lemma OneSegment(slot: Slot, s: Arrival)
    ensures var new_ := Received(slot, s);
            if s.control == SYN then new_.key == s.key && new_.mac == s.mac && new_.status == SYN_RECEIVED
            else
              && new_.key == slot.key && new_.mac == slot.mac
              && (new_.status == slot.status
                  || (slot.status == SYN_RECEIVED && new_.status == ESTABLISHED && s.control == ACK))
  {
    hide Narrow, Advance;
  }

  // One event on slot i: it stays as open as it was, or it was just opened by a SYN,
  // or a SYN-RECEIVED slot was confirmed by an ACK from its peer.
  lemma OneEvent(slots: seq<Slot>, e: Event, i: nat)
    requires i < |slots| && After(slots, e)[i].Active()
    ensures var old_, new_ := slots[i], After(slots, e)[i];
            || (FromPeer(e, new_.key, SYN) && new_.status == SYN_RECEIVED && new_.mac == e.arrival.mac)
            || (old_.Active() && old_.key == new_.key && old_.mac == new_.mac
                && (old_.status == new_.status
                    || (old_.status == SYN_RECEIVED && new_.status == ESTABLISHED && FromPeer(e, new_.key, ACK))))
  {
    hide Received, Verdict, Lookup, Space, Writing;
    if !e.User? && Target(slots, e.arrival.key) == i {
      OneSegment(slots[i], e.arrival);
    }
  }

  // An open slot was opened by a SYN from its peer, whose MAC address it holds, and has
  // been open ever since; an established one saw an ACK from the same peer after that.
  lemma {:induction false} OpenedByHandshake(events: seq<Event>, i: nat) returns (a: nat, b: nat)
    requires i < CONNECTION_LIMIT && Run(events)[i].Active()
    ensures a < |events| && FromPeer(events[a], Run(events)[i].key, SYN) && OpenSince(events, i, a + 1)
    ensures Run(events)[i].mac == events[a].arrival.mac
    ensures Run(events)[i].status == SYN_RECEIVED || Run(events)[i].status == ESTABLISHED
    ensures Run(events)[i].status == ESTABLISHED ==>
              a < b < |events| && FromPeer(events[b], Run(events)[i].key, ACK)
    decreases |events|
  {
    hide After;
    var n := |events| - 1;
    var init, e := events[..n], events[n];
    OneEvent(Run(init), e, i);
    var slot := Run(events)[i];
    if FromPeer(e, slot.key, SYN) && slot.status == SYN_RECEIVED && slot.mac == e.arrival.mac {
      a, b := n, 0;
    } else {
      a, b := OpenedByHandshake(init, i);
      if Run(init)[i].status == SYN_RECEIVED {
        b := n;
      }
    }
    OpenLonger(events, i, a + 1);
  }

  // ---------- sequence numbers of an in-order conversation ----------

  // Where the conversation stands: the peer's initial number, ours, and the octets each
  // side has had from the other.
  datatype Phase =
    | Opening(iss: nat)
    | Talking(iss: nat, irs: nat, received: nat, sent: nat)

  ghost predicate Tracks(slot: Slot, key: Key, p: Phase) {
    && slot.key == key
    && match p
       case Opening(iss) =>
         slot.status == SYN_RECEIVED && slot.nextSeq == (iss + 1) % TWO32
       case Talking(iss, irs, received, sent) =>
         && slot.status == ESTABLISHED
         && slot.nextSeq == (iss + 1 + received) % TWO32
         && slot.currSeq == (irs + 1 + sent) % TWO32
  }

  // The peer sends in order, acknowledging all it has had, in segments that are taken to
  // carry at most 127 octets.
  ghost predicate InOrderSegment(s: Arrival, p: Phase, q: Phase) {
    if p.Opening? then
      && s.control == ACK && s.octets == 0 && s.seqNo == (p.iss + 1) % TWO32
      && q.Talking? && q.iss == p.iss && q.received == 0 && q.sent == 0
      && s.ackNo == (q.irs + 1) % TWO32
    else
      && (if s.control == PSH_ACK then 1 <= s.octets <= 127 else s.control == ACK && s.octets == 0)
      && s.seqNo == (p.iss + 1 + p.received) % TWO32
      && s.ackNo == (p.irs + 1 + p.sent) % TWO32
      && q == p.(received := p.received + s.octets)
  }

  // The conversation on slot i goes from p to q: the peer sends in order; we send on the
  // slot; or something else happens that is not for this slot.
  ghost predicate InOrder(slots: seq<Slot>, i: nat, key: Key, e: Event, p: Phase, q: Phase) {
    match e
    case Arrives(s) => if s.key == key then InOrderSegment(s, p, q) else q == p
    case Refused(s, second) =>
      if s.key == key then InOrderSegment(s, p, q) else (Closing(slots, s) ==> second != key) && q == p
    case User(input) =>
      if input.Data? && input.octets > 0 && Writing(slots, 0) == i then
        p.Talking? && q == p.(sent := p.sent + input.octets)
      else
        q == p && !(input.Close? && input.id == i && Writing(slots, 0) == -1)
  }

  lemma AdvanceTwice(base: nat, had: nat, n: nat)
    ensures ((base + had) % TWO32 + n) % TWO32 == (base + (had + n)) % TWO32
  {}

  lemma NarrowSmall(n: int)
    requires 0 <= n <= 127
    ensures Narrow(n) == n
  {}

  lemma ArrivalTracks(slots: seq<Slot>, i: nat, key: Key, s: Arrival, p: Phase, q: Phase)
    requires i < |slots| && Consistent(slots)
    requires Tracks(slots[i], key, p) && InOrder(slots, i, key, Arrives(s), p, q)
    ensures Tracks(AfterSegment(slots, s)[i], key, q)
  {
    hide Narrow;
    if s.key != key {
      OtherPeersUntouched(slots, s);
    } else {
      assert Target(slots, key) == i;
      NarrowSmall(s.octets);
      if p.Talking? {
        AdvanceTwice(p.iss + 1, p.received, s.octets);
      }
    }
  }

  lemma RefusedTracks(slots: seq<Slot>, i: nat, key: Key, s: Arrival, second: Key, p: Phase, q: Phase)
    requires i < |slots| && Consistent(slots)
    requires Tracks(slots[i], key, p) && InOrder(slots, i, key, Refused(s, second), p, q)
    ensures Tracks(AfterRefused(slots, s, second)[i], key, q)
  {
    hide Received, AfterSegment;
    if s.key == key {
      assert Target(slots, key) == i;
      NarrowSmall(s.octets);
      ArrivalTracks(slots, i, key, s, p, q);
    } else {
      RefusedTouchesIff(slots, s, second, i);
    }
  }

  lemma InputTracks(slots: seq<Slot>, i: nat, key: Key, input: Input, p: Phase, q: Phase)
    requires i < |slots|
    requires Tracks(slots[i], key, p) && InOrder(slots, i, key, User(input), p, q)
    ensures Tracks(AfterInput(slots, input)[i], key, q)
  {
    if input.Data? && p.Talking? {
      AdvanceTwice(p.irs + 1, p.sent, input.octets);
    }
  }

  lemma StepTracks(slots: seq<Slot>, i: nat, key: Key, e: Event, p: Phase, q: Phase)
    requires i < |slots| && Consistent(slots)
    requires Tracks(slots[i], key, p) && InOrder(slots, i, key, e, p, q)
    ensures Tracks(After(slots, e)[i], key, q)
  {
    hide Tracks, InOrder, AfterSegment, AfterInput;
    match e
    case Arrives(s) => ArrivalTracks(slots, i, key, s, p, q);
    case Refused(s, second) => RefusedTracks(slots, i, key, s, second, p, q);
    case User(input) => InputTracks(slots, i, key, input, p, q);
  }

  // phases[k] is where the conversation stands after k of the events.
  ghost predicate Conversation(slots: seq<Slot>, i: nat, key: Key, events: seq<Event>, phases: seq<Phase>)
    decreases |events|
  {
    && |phases| == |events| + 1
    && (events != [] ==>
          && InOrder(slots, i, key, events[0], phases[0], phases[1])
          && Conversation(After(slots, events[0]), i, key, events[1..], phases[1..]))
  }

  function AfterAll(slots: seq<Slot>, events: seq<Event>): (r: seq<Slot>)
    ensures |r| == |slots|
    decreases |events|
  {
    if events == [] then slots else AfterAll(After(slots, events[0]), events[1..])
  }

  // Through any such conversation, other peers and the user interleaved as they like,
  // the slot's numbers are the initial numbers plus the octets exchanged, modulo 2^32.
  lemma {:induction false} ConversationTracks(slots: seq<Slot>, i: nat, key: Key, events: seq<Event>, phases: seq<Phase>)
    requires i < |slots| && Consistent(slots) && Conversation(slots, i, key, events, phases)
    requires Tracks(slots[i], key, phases[0])
    ensures Tracks(AfterAll(slots, events)[i], key, phases[|events|])
    decreases |events|
  {
    hide After, Tracks, InOrder;
    if events != [] {
      StepTracks(slots, i, key, events[0], phases[0], phases[1]);
      AfterConsistent(slots, events[0]);
      ConversationTracks(After(slots, events[0]), i, key, events[1..], phases[1..]);
    }
  }

  // A conversation opens with the peer's SYN, on whatever slot that lands.
  lemma SynOpens(slots: seq<Slot>, s: Arrival)
    requires s.Valid() && s.control == SYN && Target(slots, s.key) != -1
    ensures Tracks(AfterSegment(slots, s)[Target(slots, s.key)], s.key, Opening(s.seqNo))
  {}

  // From the SYN on, over any run that reached the table it found.
  lemma ConversationFromSyn(before: seq<Event>, s: Arrival, events: seq<Event>, phases: seq<Phase>)
    requires s.Valid() && s.control == SYN && Target(Run(before), s.key) != -1
    requires phases != [] && phases[0] == Opening(s.seqNo)
    requires Conversation(AfterSegment(Run(before), s), Target(Run(before), s.key), s.key, events, phases)
    ensures Tracks(AfterAll(AfterSegment(Run(before), s), events)[Target(Run(before), s.key)], s.key, phases[|events|])
  {
    hide After, Tracks, InOrder, AfterSegment;
    RunConsistent(before);
    SegmentConsistent(Run(before), s);
    SynOpens(Run(before), s);
    ConversationTracks(AfterSegment(Run(before), s), Target(Run(before), s.key), s.key, events, phases);
  }
}
