// ethernet-study/hub.c and switch.c: the same devices on a shared medium and on a
// switch. Who transmits in a slot, and to which port, is arbitrary.
module Contention {

  datatype Device = Device(srcPort: nat, dstPort: nat, transmitting: bool)

  // ---------- what a slot amounts to ----------

  function Transmitting(ds: seq<Device>, k: nat): (c: nat)
    requires k <= |ds|
    ensures c <= k
  {
    if k == 0 then 0 else Transmitting(ds, k - 1) + if ds[k - 1].transmitting then 1 else 0
  }

  // Another device transmits in the same slot.
  predicate HubCollides(ds: seq<Device>, i: nat) {
    i < |ds| && ds[i].transmitting && exists j | 0 <= j < |ds| :: j != i && ds[j].transmitting
  }

  // Another device transmits to the same port in the same slot.
  predicate SwitchCollides(ds: seq<Device>, i: nat) {
    && i < |ds| && ds[i].transmitting
    && exists j | 0 <= j < |ds| :: j != i && ds[j].transmitting && ds[j].dstPort == ds[i].dstPort
  }

  datatype Tally = Tally(attempted: nat, successful: nat, failed: nat) {
    function Plus(that: Tally): Tally {
      Tally(attempted + that.attempted, successful + that.successful, failed + that.failed)
    }
  }

  // The first k devices counted, given which of them collide.
  function Count(ds: seq<Device>, collides: set<nat>, k: nat): (c: Tally)
    requires k <= |ds|
    ensures c.attempted == c.successful + c.failed == Transmitting(ds, k)
  {
    if k == 0 then Tally(0, 0, 0)
    else
      var c := Count(ds, collides, k - 1);
      if !ds[k - 1].transmitting then c
      else if k - 1 in collides then Tally(c.attempted + 1, c.successful, c.failed + 1)
      else Tally(c.attempted + 1, c.successful + 1, c.failed)
  }

  function HubCollided(ds: seq<Device>): set<nat> {
    set i: nat | i < |ds| && HubCollides(ds, i)
  }

  function SwitchCollided(ds: seq<Device>): set<nat> {
    set i: nat | i < |ds| && SwitchCollides(ds, i)
  }

  function HubSlot(ds: seq<Device>): Tally { Count(ds, HubCollided(ds), |ds|) }

  function SwitchSlot(ds: seq<Device>): Tally { Count(ds, SwitchCollided(ds), |ds|) }

  // ---------- the code of one slot ----------

  method CountTransmitting(devices: array<Device>) returns (transmitting: nat)
    ensures transmitting == Transmitting(devices[..], devices.Length)
  {
    transmitting := 0;
    for i := 0 to devices.Length
      invariant transmitting == Transmitting(devices[..], i)
    {
      if devices[i].transmitting {
        transmitting := transmitting + 1;
      }
    }
  }

  // hub.c, lines 118-146. A device is listed once for every other one it collides with.
  method HubColDet(devices: array<Device>) returns (collision: bool, collided: seq<nat>)
    ensures forall i: nat :: i in collided <==> HubCollides(devices[..], i)
    ensures collision <==> collided != []
  {
    var transmitting := CountTransmitting(devices);
    collided := [];
    collision := false;
    if transmitting >= 2 {
      for i := 0 to devices.Length
        invariant forall m: nat :: m in collided <==> m < i && HubCollides(devices[..], m)
        invariant collision <==> collided != []
      {
        ghost var before := collided;
        for j := 0 to devices.Length
          invariant forall m: nat | m != i :: m in collided <==> m in before
          invariant i in collided <==>
            devices[i].transmitting && exists m | 0 <= m < j :: m != i && devices[m].transmitting
          invariant collision <==> collided != []
        {
          if i != j && devices[i].transmitting && devices[j].transmitting {
            collided := collided + [i];
            collision := true;
          }
        }
      }
    } else {
      forall i: nat
        ensures !HubCollides(devices[..], i)
      {
        if i < devices.Length && devices[i].transmitting {
          OnlyOne(devices[..], i, devices.Length);
        }
      }
    }
  }

  lemma {:induction false} OnlyOne(ds: seq<Device>, i: nat, k: nat)
    requires i < k <= |ds| && ds[i].transmitting
    ensures Transmitting(ds, k) >= 1
    ensures Transmitting(ds, k) < 2 ==> forall j | 0 <= j < k && j != i :: !ds[j].transmitting
    decreases k
  {
    if i < k - 1 {
      OnlyOne(ds, i, k - 1);
    } else {
      NoneTransmit(ds, k - 1);
    }
  }

  lemma {:induction false} NoneTransmit(ds: seq<Device>, k: nat)
    requires k <= |ds|
    ensures Transmitting(ds, k) == 0 <==> forall j | 0 <= j < k :: !ds[j].transmitting
  {
    if k > 0 {
      NoneTransmit(ds, k - 1);
    }
  }

  // switch.c, lines 136-173: pairs of transmitting devices with one destination.
  method SwitchColDet(devices: array<Device>) returns (collision: bool, collided: seq<nat>)
    ensures forall i: nat :: i in collided <==> SwitchCollides(devices[..], i)
    ensures collision <==> collided != []
  {
    var senders: seq<nat> := [];
    for i := 0 to devices.Length
      invariant forall k | 0 <= k < |senders| :: senders[k] < i && devices[senders[k]].transmitting
      invariant forall m: nat :: m in senders <==> m < i && devices[m].transmitting
      invariant forall k, l | 0 <= k < l < |senders| :: senders[k] < senders[l]
    {
      if devices[i].transmitting {
        senders := senders + [i];
      }
    }
    collided := [];
    collision := false;
    if |senders| >= 2 {
      collision, collided := Pairs(devices, senders);
    }
  }

  method Pairs(devices: array<Device>, senders: seq<nat>) returns (collision: bool, collided: seq<nat>)
    requires forall k | 0 <= k < |senders| :: senders[k] < devices.Length && devices[senders[k]].transmitting
    requires forall m: nat :: m in senders <==> m < devices.Length && devices[m].transmitting
    requires forall k, l | 0 <= k < l < |senders| :: senders[k] < senders[l]
    ensures forall i: nat :: i in collided <==> SwitchCollides(devices[..], i)
    ensures collision <==> collided != []
  {
    collided := [];
    collision := false;
    for i := 0 to |senders|
      invariant forall m: nat :: m in collided <==> m in senders[..i] && SwitchCollides(devices[..], m)
      invariant collision <==> collided != []
    {
      var id := senders[i];
      ghost var before := collided;
      for j := 0 to |senders|
        invariant forall m: nat | m != id :: m in collided <==> m in before
        invariant id in collided <==>
          exists k | 0 <= k < j :: k != i && devices[senders[k]].dstPort == devices[id].dstPort
        invariant collision <==> collided != []
      {
        if i != j && devices[id].dstPort == devices[senders[j]].dstPort {
          collided := collided + [id];
          collision := true;
        }
      }
      assert senders[..i + 1] == senders[..i] + [id];
    }
    assert senders[..|senders|] == senders;
  }

  method DeviceCol(collided: seq<nat>, id: nat) returns (found: bool)
    ensures found <==> id in collided
  {
    for i := 0 to |collided|
      invariant id !in collided[..i]
    {
      if collided[i] == id {
        return true;
      }
    }
    return false;
  }

  function Listed(collided: seq<nat>): set<nat> {
    set i: nat | i in collided
  }

  // hub.c, lines 77-90: in a slot with a collision only the listed devices are counted.
  method HubCount(devices: array<Device>, collision: bool, collided: seq<nat>, total: Tally) returns (sum: Tally)
    requires collision <==> collided != []
    requires collision ==> forall i: nat | i < devices.Length && devices[i].transmitting :: i in collided
    ensures sum == total.Plus(Count(devices[..], Listed(collided), devices.Length))
  {
    sum := total;
    for i := 0 to devices.Length
      invariant sum == total.Plus(Count(devices[..], Listed(collided), i))
    {
      if devices[i].transmitting {
        sum := sum.(attempted := sum.attempted + 1);
        if collision {
          var hit := DeviceCol(collided, i);
          if hit {
            sum := sum.(failed := sum.failed + 1);
          }
        } else {
          sum := sum.(successful := sum.successful + 1);
        }
      }
    }
  }

  // switch.c, lines 93-108.
  method SwitchCount(devices: array<Device>, collision: bool, collided: seq<nat>, total: Tally) returns (sum: Tally)
    requires collision <==> collided != []
    ensures sum == total.Plus(Count(devices[..], Listed(collided), devices.Length))
  {
    sum := total;
    for i := 0 to devices.Length
      invariant sum == total.Plus(Count(devices[..], Listed(collided), i))
    {
      if devices[i].transmitting {
        sum := sum.(attempted := sum.attempted + 1);
        if collision {
          var hit := DeviceCol(collided, i);
          if hit {
            sum := sum.(failed := sum.failed + 1);
          } else {
            sum := sum.(successful := sum.successful + 1);
          }
        } else {
          sum := sum.(successful := sum.successful + 1);
        }
      }
    }
  }

  // ---------- whole runs ----------

  // The devices in slot t: transmit(t, i) and choose(t, i) are the random choices.
  // choose is read for transmitting devices only; the destination of the others is stale.
  function Slot(n: nat, t: nat, transmit: (nat, nat) -> bool, choose: (nat, nat) -> nat): (ds: seq<Device>)
    ensures |ds| == n
  {
    seq(n, i requires 0 <= i < n => Device(i, choose(t, i), transmit(t, i)))
  }

  function HubRun(n: nat, t: nat, transmit: (nat, nat) -> bool): Tally
    decreases t
  {
    if t == 0 then Tally(0, 0, 0)
    else HubRun(n, t - 1, transmit).Plus(HubSlot(Slot(n, t - 1, transmit, (_, _) => 0)))
  }

  function SwitchRun(n: nat, t: nat, transmit: (nat, nat) -> bool, choose: (nat, nat) -> nat): Tally
    decreases t
  {
    if t == 0 then Tally(0, 0, 0)
    else SwitchRun(n, t - 1, transmit, choose).Plus(SwitchSlot(Slot(n, t - 1, transmit, choose)))
  }

  // Destination ports play no part in the hub's count.
  lemma {:induction false} CountSame(ds: seq<Device>, es: seq<Device>, collides: set<nat>, k: nat)
    requires |ds| == |es| && k <= |ds|
    requires forall i | 0 <= i < |ds| :: ds[i].transmitting == es[i].transmitting
    ensures Count(ds, collides, k) == Count(es, collides, k)
  {
    if k > 0 {
      CountSame(ds, es, collides, k - 1);
    }
  }

  lemma HubSlotSame(ds: seq<Device>, es: seq<Device>)
    requires |ds| == |es| && forall i | 0 <= i < |ds| :: ds[i].transmitting == es[i].transmitting
    ensures HubSlot(ds) == HubSlot(es)
  {
    assert forall i: nat :: HubCollides(ds, i) <==> HubCollides(es, i);
    assert HubCollided(ds) == HubCollided(es);
    CountSame(ds, es, HubCollided(ds), |ds|);
  }

  // One turn of the loop of hub_simulation.
  method HubTurn(devices: array<Device>, t: nat, transmit: (nat, nat) -> bool, total: Tally) returns (sum: Tally)
    modifies devices
    ensures sum == total.Plus(HubSlot(Slot(devices.Length, t, transmit, (_, _) => 0)))
    ensures forall i | 0 <= i < devices.Length :: devices[i].srcPort == old(devices[i].srcPort)
  {
    for i := 0 to devices.Length
      invariant forall j | 0 <= j < devices.Length :: devices[j].srcPort == old(devices[j].srcPort)
      invariant forall j | 0 <= j < i :: devices[j].transmitting == transmit(t, j)
    {
      devices[i] := devices[i].(transmitting := transmit(t, i));
    }
    var collision, collided := HubColDet(devices);
    assert Listed(collided) == HubCollided(devices[..]);
    HubAllListed(devices[..]);
    assert collision ==> collided[0] in Listed(collided);
    sum := HubCount(devices, collision, collided, total);
    HubSlotSame(devices[..], Slot(devices.Length, t, transmit, (_, _) => 0));
  }

  // For one device the program answers 100 without running this.
  method HubSimulation(n: nat, maxSlot: nat, transmit: (nat, nat) -> bool) returns (sum: Tally)
    ensures sum == HubRun(n, maxSlot, transmit)
  {
    hide HubSlot, Slot;
    var devices := new Device[n](i => Device(i, 0, false));
    sum := Tally(0, 0, 0);
    for t := 0 to maxSlot
      invariant sum == HubRun(n, t, transmit)
    {
      sum := HubTurn(devices, t, transmit, sum);
    }
  }

  // If anyone collides on the hub, everyone transmitting does.
  lemma HubAllListed(ds: seq<Device>)
    ensures HubCollided(ds) == {} || forall i: nat | i < |ds| && ds[i].transmitting :: i in HubCollided(ds)
  {
    if HubCollided(ds) != {} {
      var k :| k in HubCollided(ds);
      var l: nat :| l < |ds| && l != k && ds[l].transmitting;
      forall i: nat | i < |ds| && ds[i].transmitting
        ensures HubCollides(ds, i)
      {
        assert ds[if i == k then l else k].transmitting;
      }
    }
  }

  // One turn of the loop of switch_simulation.
  method SwitchTurn(devices: array<Device>, t: nat, transmit: (nat, nat) -> bool, choose: (nat, nat) -> nat, total: Tally)
    returns (sum: Tally)
    modifies devices
    ensures sum == total.Plus(SwitchSlot(Slot(devices.Length, t, transmit, choose)))
    ensures forall i | 0 <= i < devices.Length :: devices[i].srcPort == old(devices[i].srcPort)
  {
    for i := 0 to devices.Length
      invariant forall j | 0 <= j < devices.Length :: devices[j].srcPort == old(devices[j].srcPort)
      invariant forall j | 0 <= j < i :: devices[j].transmitting == transmit(t, j)
    {
      devices[i] := devices[i].(transmitting := transmit(t, i));
    }
    for i := 0 to devices.Length
      invariant forall j | 0 <= j < devices.Length ::
        devices[j].srcPort == old(devices[j].srcPort) && devices[j].transmitting == transmit(t, j)
      invariant forall j | 0 <= j < i && transmit(t, j) :: devices[j].dstPort == choose(t, j)
    {
      if devices[i].transmitting {
        devices[i] := devices[i].(dstPort := choose(t, i));
      }
    }
    var collision, collided := SwitchColDet(devices);
    assert Listed(collided) == SwitchCollided(devices[..]);
    sum := SwitchCount(devices, collision, collided, total);
    SwitchSlotSame(devices[..], Slot(devices.Length, t, transmit, choose));
  }

  method SwitchSimulation(n: nat, maxSlot: nat, transmit: (nat, nat) -> bool, choose: (nat, nat) -> nat)
    returns (sum: Tally)
    ensures sum == SwitchRun(n, maxSlot, transmit, choose)
  {
    hide SwitchSlot, Slot;
    var devices := new Device[n](i => Device(i, 0, false));
    sum := Tally(0, 0, 0);
    for t := 0 to maxSlot
      invariant sum == SwitchRun(n, t, transmit, choose)
    {
      sum := SwitchTurn(devices, t, transmit, choose, sum);
    }
  }

  // Only the destinations of transmitting devices matter to the switch.
  lemma SwitchSlotSame(ds: seq<Device>, es: seq<Device>)
    requires |ds| == |es| && forall i | 0 <= i < |ds| :: ds[i].transmitting == es[i].transmitting
    requires forall i | 0 <= i < |ds| && ds[i].transmitting :: ds[i].dstPort == es[i].dstPort
    ensures SwitchSlot(ds) == SwitchSlot(es)
  {
    assert forall i: nat :: SwitchCollides(ds, i) <==> SwitchCollides(es, i);
    assert SwitchCollided(ds) == SwitchCollided(es);
    CountSame(ds, es, SwitchCollided(ds), |ds|);
  }

  // ---------- what the study compares ----------

  // The senders of a port in one slot.
  function Senders(ds: seq<Device>, port: nat): set<nat> {
    set i: nat | i < |ds| && ds[i].transmitting && ds[i].dstPort == port
  }

  // The ports with exactly one sender.
  function ClearPorts(ds: seq<Device>): set<nat> {
    set i: nat | i < |ds| && ds[i].transmitting && Senders(ds, ds[i].dstPort) == {i} :: ds[i].dstPort
  }

  // Those among the first k devices that succeed, as ports.
  ghost function Served(ds: seq<Device>, k: nat): set<nat>
    requires k <= |ds|
  {
    set i: nat | i < k && ds[i].transmitting && !SwitchCollides(ds, i) :: ds[i].dstPort
  }

  lemma {:induction false} SuccessesServe(ds: seq<Device>, k: nat)
    requires k <= |ds|
    ensures Count(ds, SwitchCollided(ds), k).successful == |Served(ds, k)|
  {
    if k > 0 {
      SuccessesServe(ds, k - 1);
      var d := ds[k - 1];
      if d.transmitting && !SwitchCollides(ds, k - 1) {
        assert Served(ds, k) == Served(ds, k - 1) + {d.dstPort};
        assert d.dstPort !in Served(ds, k - 1);
      } else {
        assert Served(ds, k) == Served(ds, k - 1);
      }
    }
  }

  // On a switch the successes of a slot are the ports with exactly one sender.
  lemma SwitchServesClearPorts(ds: seq<Device>)
    ensures SwitchSlot(ds).successful == |ClearPorts(ds)|
  {
    SuccessesServe(ds, |ds|);
    forall i: nat | i < |ds| && ds[i].transmitting
      ensures SwitchCollides(ds, i) <==> Senders(ds, ds[i].dstPort) != {i}
    {
      var senders := Senders(ds, ds[i].dstPort);
      assert i in senders;
      if SwitchCollides(ds, i) {
        var j: nat :| j < |ds| && j != i && ds[j].transmitting && ds[j].dstPort == ds[i].dstPort;
        assert j in senders;
      } else {
        assert forall j :: j in senders ==> j == i;
        assert senders == {i};
      }
    }
    assert Served(ds, |ds|) == ClearPorts(ds);
  }

  // On a hub a slot succeeds exactly when a single device transmits.
  lemma {:induction false} HubCountIs(ds: seq<Device>, collides: set<nat>, k: nat)
    requires k <= |ds|
    requires collides == {} || forall i: nat | i < |ds| && ds[i].transmitting :: i in collides
    ensures Count(ds, collides, k).successful == if collides == {} then Transmitting(ds, k) else 0
  {
    if k > 0 {
      HubCountIs(ds, collides, k - 1);
    }
  }

  lemma HubServesLoneSender(ds: seq<Device>)
    ensures HubSlot(ds).successful == if Transmitting(ds, |ds|) == 1 then 1 else 0
  {
    HubAllListed(ds);
    HubCountIs(ds, HubCollided(ds), |ds|);
    var c := Transmitting(ds, |ds|);
    if c > 0 {
      var i := LastSender(ds, |ds|);
      OnlyOne(ds, i, |ds|);
      if c == 1 {
        assert HubCollided(ds) == {};
      } else {
        var j := AnotherSender(ds, i, |ds|);
        assert i in HubCollided(ds);
      }
    }
  }

  lemma {:induction false} LastSender(ds: seq<Device>, k: nat) returns (i: nat)
    requires k <= |ds| && Transmitting(ds, k) > 0
    ensures i < k && ds[i].transmitting && Transmitting(ds, i) == Transmitting(ds, k) - 1
  {
    if ds[k - 1].transmitting {
      i := k - 1;
    } else {
      i := LastSender(ds, k - 1);
    }
  }

  lemma AnotherSender(ds: seq<Device>, i: nat, k: nat) returns (j: nat)
    requires k <= |ds| && i < k && Transmitting(ds, k) >= 2
    ensures j < k && j != i && ds[j].transmitting
  {
    j := LastSender(ds, k);
    if j == i {
      j := LastSender(ds, j);
    }
  }

  // Slot by slot the switch serves at least what the hub serves.
  lemma HubSlotAtMostSwitch(ds: seq<Device>)
    ensures HubSlot(ds).successful <= SwitchSlot(ds).successful
    ensures HubSlot(ds).attempted == SwitchSlot(ds).attempted
  {
    HubServesLoneSender(ds);
    SwitchServesClearPorts(ds);
    if Transmitting(ds, |ds|) == 1 {
      var i := LastSender(ds, |ds|);
      OnlyOne(ds, i, |ds|);
      assert Senders(ds, ds[i].dstPort) == {i};
      assert ds[i].dstPort in ClearPorts(ds);
      assert |ClearPorts(ds)| >= 1;
    }
  }

  // The main result: over any run with the same transmissions, whatever the
  // destinations, every attempt is a success or a failure on both, both see the same
  // attempts, and the hub succeeds no more often.
  lemma {:induction false} HubAtMostSwitch(n: nat, t: nat, transmit: (nat, nat) -> bool, choose: (nat, nat) -> nat)
    ensures var h, s := HubRun(n, t, transmit), SwitchRun(n, t, transmit, choose);
            && h.attempted == h.successful + h.failed && s.attempted == s.successful + s.failed
            && h.attempted == s.attempted && h.successful <= s.successful
    decreases t
  {
    if t > 0 {
      HubAtMostSwitch(n, t - 1, transmit, choose);
      var ds := Slot(n, t - 1, transmit, choose);
      HubSlotAtMostSwitch(ds);
      HubSlotSame(ds, Slot(n, t - 1, transmit, (_, _) => 0));
    }
  }

  // The devices that transmit in slot t, and the slots before t with exactly one.
  ghost function Transmitters(n: nat, t: nat, transmit: (nat, nat) -> bool): set<nat> {
    set i: nat | i < n && transmit(t, i)
  }

  ghost function LoneSlots(n: nat, t: nat, transmit: (nat, nat) -> bool): set<nat> {
    set s: nat | s < t && |Transmitters(n, s, transmit)| == 1
  }

  // The attempts of a run, and its ports served, one (slot, device) or (slot, port) each.
  ghost function Tries(n: nat, t: nat, transmit: (nat, nat) -> bool): nat
    decreases t
  {
    if t == 0 then 0 else Tries(n, t - 1, transmit) + |Transmitters(n, t - 1, transmit)|
  }

  // The ports to which exactly one device transmits in slot t.
  ghost function ServedPorts(n: nat, t: nat, transmit: (nat, nat) -> bool, choose: (nat, nat) -> nat): set<nat> {
    set i: nat | i < n && transmit(t, i) && (forall j: nat | j < n && j != i && transmit(t, j) :: choose(t, j) != choose(t, i))
      :: choose(t, i)
  }

  ghost function PortsServed(n: nat, t: nat, transmit: (nat, nat) -> bool, choose: (nat, nat) -> nat): nat
    decreases t
  {
    if t == 0 then 0 else PortsServed(n, t - 1, transmit, choose) + |ServedPorts(n, t - 1, transmit, choose)|
  }

  ghost function SendersBefore(ds: seq<Device>, k: nat): set<nat> {
    set i: nat | i < k && i < |ds| && ds[i].transmitting
  }

  lemma {:induction false} TransmittingIs(ds: seq<Device>, k: nat)
    requires k <= |ds|
    ensures Transmitting(ds, k) == |SendersBefore(ds, k)|
  {
    if k > 0 {
      TransmittingIs(ds, k - 1);
      var before := SendersBefore(ds, k - 1);
      if ds[k - 1].transmitting {
        assert SendersBefore(ds, k) == before + {k - 1};
      } else {
        assert SendersBefore(ds, k) == before;
      }
    } else {
      assert SendersBefore(ds, 0) == {};
    }
  }

  lemma SlotTransmits(n: nat, t: nat, transmit: (nat, nat) -> bool, choose: (nat, nat) -> nat)
    ensures Transmitting(Slot(n, t, transmit, choose), n) == |Transmitters(n, t, transmit)|
  {
    var ds := Slot(n, t, transmit, choose);
    TransmittingIs(ds, n);
    assert SendersBefore(ds, n) == Transmitters(n, t, transmit);
  }

  lemma SlotServes(n: nat, t: nat, transmit: (nat, nat) -> bool, choose: (nat, nat) -> nat)
    ensures ClearPorts(Slot(n, t, transmit, choose)) == ServedPorts(n, t, transmit, choose)
  {
    var ds := Slot(n, t, transmit, choose);
    forall i: nat | i < n && transmit(t, i)
      ensures Senders(ds, choose(t, i)) == {i} <==> forall j: nat | j < n && j != i && transmit(t, j) :: choose(t, j) != choose(t, i)
    {
      var senders := Senders(ds, choose(t, i));
      assert i in senders;
      if senders == {i} {
        forall j: nat | j < n && j != i && transmit(t, j)
          ensures choose(t, j) != choose(t, i)
        {
          assert j !in senders;
        }
      }
    }
  }

  // What the counters of a whole run are: on the hub a success is a slot with one sender,
  // on the switch a port with one sender in some slot, and an attempt is one either way.
  lemma {:induction false} RunCounts(n: nat, t: nat, transmit: (nat, nat) -> bool, choose: (nat, nat) -> nat)
    ensures var h, s := HubRun(n, t, transmit), SwitchRun(n, t, transmit, choose);
            && h.attempted == Tries(n, t, transmit) == s.attempted
            && h.successful == |LoneSlots(n, t, transmit)|
            && s.successful == PortsServed(n, t, transmit, choose)
    decreases t
  {
    hide HubSlot, SwitchSlot, Slot, ServedPorts, Transmitters;
    if t == 0 {
      assert LoneSlots(n, 0, transmit) == {};
    } else {
      RunCounts(n, t - 1, transmit, choose);
      SlotCounts(n, t - 1, transmit, choose);
      LoneStep(n, t - 1, transmit);
    }
  }

  lemma SlotCounts(n: nat, t: nat, transmit: (nat, nat) -> bool, choose: (nat, nat) -> nat)
    ensures var h, s := HubSlot(Slot(n, t, transmit, (_, _) => 0)), SwitchSlot(Slot(n, t, transmit, choose));
            var senders := |Transmitters(n, t, transmit)|;
            && h.attempted == s.attempted == senders && h.successful == (if senders == 1 then 1 else 0)
            && s.successful == |ServedPorts(n, t, transmit, choose)|
  {
    hide Slot, Transmitters, ServedPorts, ClearPorts;
    SlotTransmits(n, t, transmit, (_, _) => 0);
    SlotTransmits(n, t, transmit, choose);
    HubServesLoneSender(Slot(n, t, transmit, (_, _) => 0));
    SwitchServesClearPorts(Slot(n, t, transmit, choose));
    SlotServes(n, t, transmit, choose);
  }

  lemma LoneStep(n: nat, t: nat, transmit: (nat, nat) -> bool)
    ensures |LoneSlots(n, t + 1, transmit)|
            == |LoneSlots(n, t, transmit)| + if |Transmitters(n, t, transmit)| == 1 then 1 else 0
  {
    hide Transmitters;
    var before := LoneSlots(n, t, transmit);
    if |Transmitters(n, t, transmit)| == 1 {
      assert LoneSlots(n, t + 1, transmit) == before + {t};
    } else {
      assert LoneSlots(n, t + 1, transmit) == before;
    }
  }

  // The percentage reported, exactly.
  function Percentage(sum: Tally): real {
    if sum.attempted == 0 then 0.0 else 100.0 * sum.successful as real / sum.attempted as real
  }

  lemma HubPercentageAtMostSwitch(n: nat, t: nat, transmit: (nat, nat) -> bool, choose: (nat, nat) -> nat)
    ensures Percentage(HubRun(n, t, transmit)) <= Percentage(SwitchRun(n, t, transmit, choose))
  {
    HubAtMostSwitch(n, t, transmit, choose);
    var h, s := HubRun(n, t, transmit), SwitchRun(n, t, transmit, choose);
    if h.attempted > 0 {
      DivideMonotone(100.0 * h.successful as real, 100.0 * s.successful as real, h.attempted as real);
    }
  }

  // Out of a hundred attempts so many slots with one sender, or ports with one; nothing when
  // nobody tried.
  lemma PercentageIs(n: nat, t: nat, transmit: (nat, nat) -> bool, choose: (nat, nat) -> nat)
    ensures var tries := Tries(n, t, transmit);
            var h, s := Percentage(HubRun(n, t, transmit)), Percentage(SwitchRun(n, t, transmit, choose));
            && h * tries as real == 100.0 * |LoneSlots(n, t, transmit)| as real
            && s * tries as real == 100.0 * PortsServed(n, t, transmit, choose) as real
            && (tries == 0 ==> h == s == 0.0)
  {
    hide Percentage, HubRun, SwitchRun, Tries, LoneSlots, PortsServed;
    RunCounts(n, t, transmit, choose);
    HubAtMostSwitch(n, t, transmit, choose);
    PercentageOf(HubRun(n, t, transmit));
    PercentageOf(SwitchRun(n, t, transmit, choose));
  }

  lemma PercentageOf(sum: Tally)
    requires sum.attempted == sum.successful + sum.failed
    ensures Percentage(sum) * sum.attempted as real == 100.0 * sum.successful as real
    ensures sum.attempted == 0 ==> Percentage(sum) == 0.0
  {
    if sum.attempted > 0 {
      Undivide(100.0 * sum.successful as real, sum.attempted as real);
    }
  }

  lemma Undivide(a: real, c: real)
    requires c > 0.0
    ensures a / c * c == a
  {}

  lemma DivideMonotone(a: real, b: real, c: real)
    requires a <= b && c > 0.0
    ensures a / c <= b / c
  {}
}
