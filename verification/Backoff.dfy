// ethernet-study/binary_exp.c: n devices contend for slots with binary exponential
// backoff. draw(t, i) is the raw random word device i gets in slot t; it is arbitrary.
module Backoff {

  datatype Device = Device(maxRange: nat, nextAttempt: nat, completed: bool, currMax: nat)

  const START: Device := Device(1, 0, false, 1)

  // The largest shift `1 << curr_max` is defined for.
  const MAX_SHIFT: nat := 30

  function Pow2(k: nat): (r: nat)
    ensures r >= 1
  {
    if k == 0 then 1 else 2 * Pow2(k - 1)
  }

  // rand_generator(0, max) from a raw word.
  function Draw(word: nat, max: nat): (r: nat)
    ensures r <= max
  {
    word % (max + 1)
  }

  // ---------- one slot ----------

  predicate Attempts(d: Device, t: nat) {
    d.nextAttempt == t && !d.completed
  }

  function CountAttempts(ds: seq<Device>, t: nat, k: nat): (c: nat)
    requires k <= |ds|
    ensures c <= k
  {
    if k == 0 then 0 else CountAttempts(ds, t, k - 1) + if Attempts(ds[k - 1], t) then 1 else 0
  }

  function CountCompleted(ds: seq<Device>, k: nat): (c: nat)
    requires k <= |ds|
    ensures c <= k
  {
    if k == 0 then 0 else CountCompleted(ds, k - 1) + if ds[k - 1].completed then 1 else 0
  }

  predicate Collision(ds: seq<Device>, t: nat) {
    CountAttempts(ds, t, |ds|) >= 2
  }

  function DeviceStep(d: Device, t: nat, collision: bool, word: nat): Device {
    if !Attempts(d, t) then d
    else if collision then
      Device(Pow2(d.currMax + 1) - 1, t + Draw(word, d.maxRange) + 1, false, d.currMax + 1)
    else d.(completed := true)
  }

  function SlotStep(ds: seq<Device>, t: nat, draw: (nat, nat) -> nat): (r: seq<Device>)
    ensures |r| == |ds|
  {
    seq(|ds|, i requires 0 <= i < |ds| => DeviceStep(ds[i], t, Collision(ds, t), draw(t, i)))
  }

  // ---------- the code ----------

  // Lists the devices that attempt slot t when there are at least two of them.
  method ColDet(devices: array<Device>, collided: array<nat>, t: nat) returns (collision: bool, count: nat)
    requires collided.Length == devices.Length
    modifies collided
    ensures collision == Collision(devices[..], t)
    ensures count <= collided.Length
    ensures collision ==>
      forall i: nat | i < devices.Length :: i in collided[..count] <==> Attempts(devices[i], t)
  {
    var transmitting := 0;
    for i := 0 to devices.Length
      invariant transmitting == CountAttempts(devices[..], t, i)
    {
      if Attempts(devices[i], t) {
        transmitting := transmitting + 1;
      }
    }
    count := 0;
    if transmitting >= 2 {
      for i := 0 to devices.Length
        invariant count <= i
        invariant forall j: nat :: j in collided[..count] <==> j < i && Attempts(devices[j], t)
      {
        if Attempts(devices[i], t) {
          collided[count] := i;
          count := count + 1;
          assert collided[..count] == collided[..count - 1] + [i];
        }
      }
      return true, count;
    }
    return false, count;
  }

  method DeviceCol(collided: array<nat>, count: nat, id: nat) returns (found: bool)
    requires count <= collided.Length
    ensures found <==> id in collided[..count]
  {
    for i := 0 to count
      invariant id !in collided[..i]
    {
      assert collided[..i + 1] == collided[..i] + [collided[i]];
      if collided[i] == id {
        return true;
      }
    }
    return false;
  }

  // The body of the while loop: one slot.
  method Slot(devices: array<Device>, t: nat, draw: (nat, nat) -> nat, completed0: nat) returns (completed: nat)
    requires completed0 == CountCompleted(devices[..], devices.Length)
    modifies devices
    ensures devices[..] == SlotStep(old(devices[..]), t, draw)
    ensures completed == CountCompleted(devices[..], devices.Length)
  {
    hide Pow2, Draw, CountCompleted;
    ghost var ds := devices[..];
    var collided := new nat[devices.Length](_ => 0);
    var collision, count := ColDet(devices, collided, t);
    ghost var hits := collided[..count];
    completed := completed0;
    for i := 0 to devices.Length
      invariant collided[..count] == hits
      invariant forall j | 0 <= j < i :: devices[j] == DeviceStep(ds[j], t, collision, draw(t, j))
      invariant forall j | i <= j < devices.Length :: devices[j] == ds[j]
      invariant completed == completed0 + if collision then 0 else CountAttempts(ds, t, i)
    {
      if !devices[i].completed && devices[i].nextAttempt == t {
        if collision {
          var hit := DeviceCol(collided, count, i);
          assert Attempts(ds[i], t);
          if hit {
            BackOff(devices, i, t, draw(t, i));
          }
        } else {
          devices[i] := devices[i].(completed := true);
          completed := completed + 1;
        }
      }
    }
    assert devices[..] == SlotStep(ds, t, draw);
    StepCompletes(ds, t, draw, |ds|);
  }

  // Lines 80-84.
  method BackOff(devices: array<Device>, i: nat, t: nat, word: nat)
    requires i < devices.Length && Attempts(devices[i], t)
    modifies devices
    ensures devices[..] == old(devices[..])[i := DeviceStep(old(devices[i]), t, true, word)]
  {
    var r := Draw(word, devices[i].maxRange);
    devices[i] := devices[i].(nextAttempt := t + r + 1);
    devices[i] := devices[i].(currMax := devices[i].currMax + 1);
    devices[i] := devices[i].(maxRange := Pow2(devices[i].currMax) - 1);
  }

  lemma {:induction false} StepCompletes(ds: seq<Device>, t: nat, draw: (nat, nat) -> nat, k: nat)
    requires k <= |ds|
    ensures CountCompleted(SlotStep(ds, t, draw), k)
            == CountCompleted(ds, k) + if Collision(ds, t) then 0 else CountAttempts(ds, t, k)
  {
    if k > 0 {
      StepCompletes(ds, t, draw, k - 1);
      assert SlotStep(ds, t, draw)[k - 1] == DeviceStep(ds[k - 1], t, Collision(ds, t), draw(t, k - 1));
    }
  }

  // ---------- whole runs ----------

  function Start(n: nat): seq<Device> { seq(n, _ => START) }

  // The devices when slot t begins.
  function State(n: nat, t: nat, draw: (nat, nat) -> nat): (ds: seq<Device>)
    ensures |ds| == n
    decreases t
  {
    if t == 0 then Start(n) else SlotStep(State(n, t - 1, draw), t - 1, draw)
  }

  function Completed(n: nat, t: nat, draw: (nat, nat) -> nat): nat {
    CountCompleted(State(n, t, draw), n)
  }

  // No device has backed off so often that 1 << curr_max is undefined.
  predicate Bounded(ds: seq<Device>) {
    forall i | 0 <= i < |ds| :: ds[i].currMax <= MAX_SHIFT
  }

  datatype Outcome = Finished(slots: nat) | ShiftOverflow | OutOfSlots

  // The simulation, given up when a shift would be undefined or after `limit` slots.
  method Simulate(n: nat, draw: (nat, nat) -> nat, limit: nat) returns (outcome: Outcome)
    ensures outcome.Finished? ==> FinishesAt(n, outcome.slots, draw)
    ensures outcome.ShiftOverflow? ==> exists t, i | 0 <= t <= limit && 0 <= i < n :: State(n, t, draw)[i].currMax > 30
    ensures outcome.OutOfSlots? ==> Completed(n, limit, draw) < n && forall t | 0 <= t <= limit :: Bounded(State(n, t, draw))
  {
    hide Pow2, SlotStep;
    var devices := new Device[n](_ => START);
    assert devices[..] == Start(n);
    NoneCompleted(n, n);
    var t, completed := 0, 0;
    while completed < n && t < limit
      invariant 0 <= t <= limit && devices[..] == State(n, t, draw)
      invariant completed == Completed(n, t, draw)
      invariant forall s | 0 <= s < t :: Completed(n, s, draw) < n
      invariant forall s | 0 <= s <= t :: Bounded(State(n, s, draw))
      decreases limit - t
    {
      completed := Slot(devices, t, draw, completed);
      t := t + 1;
      var overflow := exists i | 0 <= i < n :: devices[i].currMax > MAX_SHIFT;
      if overflow {
        var i :| 0 <= i < n && devices[i].currMax > MAX_SHIFT;
        assert State(n, t, draw)[i].currMax > 30;
        return ShiftOverflow;
      }
    }
    return if completed < n then OutOfSlots else Finished(t);
  }

  // The first slot number by which every device has completed.
  ghost predicate FinishesAt(n: nat, t: nat, draw: (nat, nat) -> nat) {
    && Completed(n, t, draw) == n
    && (forall s | 0 <= s < t :: Completed(n, s, draw) < n)
    && (forall s | 0 <= s <= t :: Bounded(State(n, s, draw)))
  }

  lemma NoneCompleted(n: nat, k: nat)
    requires k <= n
    ensures CountCompleted(Start(n), k) == 0
  {
    if k > 0 {
      NoneCompleted(n, k - 1);
    }
  }

  // ---------- what every run keeps ----------

  ghost predicate DeviceOk(d: Device, t: nat) {
    && d.currMax >= 1 && d.maxRange == Pow2(d.currMax) - 1
    && d.nextAttempt <= Pow2(d.currMax) - 2
    && (d.completed <==> d.nextAttempt < t)
  }

  // Completed devices all went in different slots.
  ghost predicate SlotsOk(ds: seq<Device>, t: nat) {
    && (forall i | 0 <= i < |ds| :: DeviceOk(ds[i], t))
    && (forall i, j | 0 <= i < j < |ds| && ds[i].completed && ds[j].completed :: ds[i].nextAttempt != ds[j].nextAttempt)
  }

  lemma DeviceStepOk(d: Device, t: nat, collision: bool, word: nat)
    requires DeviceOk(d, t)
    ensures DeviceOk(DeviceStep(d, t, collision, word), t + 1)
  {
    assert Pow2(d.currMax + 1) == 2 * Pow2(d.currMax);
  }

  // Two devices attempting one slot are a collision.
  lemma {:induction false} TwoAttempt(ds: seq<Device>, t: nat, i: nat, j: nat, k: nat)
    requires k <= |ds| && i < k && i < |ds| && Attempts(ds[i], t)
    ensures CountAttempts(ds, t, k) >= if i < j < k && Attempts(ds[j], t) then 2 else 1
    decreases k
  {
    if i < k - 1 {
      TwoAttempt(ds, t, i, j, k - 1);
    }
  }

  lemma SlotStepOk(ds: seq<Device>, t: nat, draw: (nat, nat) -> nat)
    requires SlotsOk(ds, t)
    ensures SlotsOk(SlotStep(ds, t, draw), t + 1)
  {
    hide DeviceOk, Pow2;
    var r, collision := SlotStep(ds, t, draw), Collision(ds, t);
    forall i | 0 <= i < |ds|
      ensures DeviceOk(r[i], t + 1)
    {
      DeviceStepOk(ds[i], t, collision, draw(t, i));
    }
    forall i, j | 0 <= i < j < |ds| && r[i].completed && r[j].completed
      ensures r[i].nextAttempt != r[j].nextAttempt
    {
      CompletesAt(ds[i], t, collision, draw(t, i));
      CompletesAt(ds[j], t, collision, draw(t, j));
      if Attempts(ds[i], t) {
        TwoAttempt(ds, t, i, j, |ds|);
      }
    }
  }

  lemma CompletesAt(d: Device, t: nat, collision: bool, word: nat)
    requires DeviceOk(d, t)
    ensures var e := DeviceStep(d, t, collision, word);
            e.completed ==>
              (e.nextAttempt == d.nextAttempt
               && ((d.completed && d.nextAttempt < t) || (!collision && Attempts(d, t))))
  {}

  // For any draws: each device's range is 2^curr_max - 1 and its next attempt within
  // it, unfinished devices attempt no earlier than now, and finished ones went in
  // pairwise different slots.
  lemma {:induction false} RunKeeps(n: nat, t: nat, draw: (nat, nat) -> nat)
    ensures SlotsOk(State(n, t, draw), t)
    decreases t
  {
    if t > 0 {
      RunKeeps(n, t - 1, draw);
      SlotStepOk(State(n, t - 1, draw), t - 1, draw);
    }
  }

  lemma {:induction false} Pow2Bounded(k: nat, m: nat)
    requires k <= m
    ensures Pow2(k) <= Pow2(m)
    decreases m
  {
    if k < m {
      Pow2Bounded(k, m - 1);
    }
  }

  // While curr_max stays at most 30 no 32-bit counter of a device wraps.
  lemma NoWrap(n: nat, t: nat, draw: (nat, nat) -> nat, i: nat)
    requires i < n && State(n, t, draw)[i].currMax <= 30
    ensures var d := State(n, t, draw)[i];
            d.maxRange < 0x4000_0000 && d.nextAttempt < 0x4000_0000 && (!d.completed ==> t < 0x4000_0000)
  {
    RunKeeps(n, t, draw);
    Pow2Bounded(State(n, t, draw)[i].currMax, 30);
    Pow2Of30();
  }

  lemma Pow2Of30()
    ensures Pow2(30) == 0x4000_0000
  {
    assert Pow2(10) == 1024;
    assert Pow2(20) == 1024 * Pow2(10);
    assert Pow2(30) == 1024 * Pow2(20);
  }

  // ---------- where a device goes ----------

  // A device that attempts a slot alone is done; one that collides draws from the whole
  // of its range, and only that, and its range doubles; the others wait.
  lemma SlotDecides(n: nat, t: nat, draw: (nat, nat) -> nat, i: nat)
    requires i < n
    ensures var ds := State(n, t, draw);
            var d, e := ds[i], State(n, t + 1, draw)[i];
            if d.completed || d.nextAttempt != t then e == d
            else if forall j | 0 <= j < n && j != i :: ds[j].completed || ds[j].nextAttempt != t then
              e == d.(completed := true)
            else
              && !e.completed && e.currMax == d.currMax + 1
              && e.nextAttempt == t + 1 + draw(t, i) % Pow2(d.currMax)
              && e.maxRange + 1 == 2 * (d.maxRange + 1)
  {
    hide CountAttempts, Collision, State, Pow2;
    var ds := State(n, t, draw);
    RunKeeps(n, t, draw);
    StateStep(n, t, draw, i);
    if Attempts(ds[i], t) {
      CollisionIff(ds, t, i);
      PowDoubles(ds[i].currMax);
      assert Collision(ds, t) <==> !(forall j | 0 <= j < n && j != i :: !Attempts(ds[j], t));
    }
  }

  lemma StateStep(n: nat, t: nat, draw: (nat, nat) -> nat, i: nat)
    requires i < n
    ensures var ds := State(n, t, draw);
            State(n, t + 1, draw)[i] == DeviceStep(ds[i], t, Collision(ds, t), draw(t, i))
  {}

  lemma PowDoubles(k: nat)
    ensures Pow2(k + 1) == 2 * Pow2(k)
  {}

  // Two devices at once are a collision, and nothing less.
  lemma CollisionIff(ds: seq<Device>, t: nat, i: nat)
    requires i < |ds| && Attempts(ds[i], t)
    ensures Collision(ds, t) <==> exists j | 0 <= j < |ds| && j != i :: Attempts(ds[j], t)
  {
    if j: nat :| j < |ds| && j != i && Attempts(ds[j], t) {
      TwoAttempt(ds, t, if i < j then i else j, if i < j then j else i, |ds|);
    } else {
      OneAttempts(ds, t, i, |ds|);
    }
  }

  lemma {:induction false} OneAttempts(ds: seq<Device>, t: nat, i: nat, k: nat)
    requires k <= |ds| && forall j | 0 <= j < |ds| && j != i :: !Attempts(ds[j], t)
    ensures CountAttempts(ds, t, k) <= if i < k then 1 else 0
    decreases k
  {
    if k > 0 {
      OneAttempts(ds, t, i, k - 1);
    }
  }

  // Every slot of the window is reached by some draw: 2^curr_max of them, twice as many
  // after each collision.
  lemma WindowReached(n: nat, t: nat, draw: (nat, nat) -> nat, i: nat, r: nat)
    requires i < n && Attempts(State(n, t, draw)[i], t) && Collision(State(n, t, draw), t)
    requires r < Pow2(State(n, t, draw)[i].currMax)
    ensures State(n, t, draw)[i].maxRange == Pow2(State(n, t, draw)[i].currMax) - 1
    ensures exists word :: DeviceStep(State(n, t, draw)[i], t, true, word).nextAttempt == t + 1 + r
  {
    hide State, Pow2, Draw;
    RunKeeps(n, t, draw);
    var d := State(n, t, draw)[i];
    DrawReaches(r, d.maxRange);
    assert DeviceStep(d, t, true, r).nextAttempt == t + 1 + r;
  }

  lemma DrawReaches(r: nat, max: nat)
    requires r <= max
    ensures Draw(r, max) == r
  {}

  // All devices try the first slot, and from two on each then picks one of the next two.
  lemma FirstSlot(n: nat, draw: (nat, nat) -> nat, i: nat)
    requires i < n
    ensures var d := State(n, 1, draw)[i];
            if n == 1 then d.completed else !d.completed && d.nextAttempt == 1 + draw(0, i) % 2
  {
    hide CountAttempts;
    AllAttemptFirst(n, n);
    assert State(n, 0, draw) == Start(n);
    assert Pow2(1) == 2;
    CollisionIff(Start(n), 0, i);
    SlotDecides(n, 0, draw, i);
    if n >= 2 {
      assert Attempts(Start(n)[if i == 0 then 1 else 0], 0);
    }
  }

  // ---------- counting slots ----------

  // Slots before t that saw a collision, and slots nobody tried.
  function Collisions(n: nat, t: nat, draw: (nat, nat) -> nat): nat
    decreases t
  {
    if t == 0 then 0
    else Collisions(n, t - 1, draw) + if Collision(State(n, t - 1, draw), t - 1) then 1 else 0
  }

  function Idles(n: nat, t: nat, draw: (nat, nat) -> nat): nat
    decreases t
  {
    if t == 0 then 0
    else Idles(n, t - 1, draw) + if CountAttempts(State(n, t - 1, draw), t - 1, n) == 0 then 1 else 0
  }

  // Every slot is a completion, a collision or idle; no slot has two completions.
  lemma {:induction false} SlotsAddUp(n: nat, t: nat, draw: (nat, nat) -> nat)
    ensures t == Completed(n, t, draw) + Collisions(n, t, draw) + Idles(n, t, draw)
    ensures t > 0 ==> Completed(n, t - 1, draw) <= Completed(n, t, draw) <= Completed(n, t - 1, draw) + 1
    decreases t
  {
    if t == 0 {
      NoneCompleted(n, n);
    } else {
      SlotsAddUp(n, t - 1, draw);
      StepCompletes(State(n, t - 1, draw), t - 1, draw, n);
    }
  }

  lemma {:induction false} AllAttemptFirst(n: nat, k: nat)
    requires k <= n
    ensures CountAttempts(Start(n), 0, k) == k
  {
    if k > 0 {
      AllAttemptFirst(n, k - 1);
    }
  }

  lemma {:induction false} FirstSlotCollides(n: nat, t: nat, draw: (nat, nat) -> nat)
    requires n >= 2 && t >= 1
    ensures Collisions(n, t, draw) >= 1
    decreases t
  {
    if t == 1 {
      AllAttemptFirst(n, n);
    } else {
      FirstSlotCollides(n, t - 1, draw);
    }
  }

  // A run takes at least one slot a device, and one more when there is contention.
  lemma FinishLowerBound(n: nat, t: nat, draw: (nat, nat) -> nat)
    requires FinishesAt(n, t, draw)
    ensures t >= n && (n >= 2 ==> t >= n + 1)
  {
    SlotsAddUp(n, t, draw);
    if n >= 2 {
      FirstSlotCollides(n, t, draw);
    }
  }

  lemma {:induction false} SomeoneAttempts(ds: seq<Device>, t: nat, k: nat) returns (i: nat)
    requires k <= |ds| && CountAttempts(ds, t, k) > 0
    ensures i < k && Attempts(ds[i], t)
  {
    if Attempts(ds[k - 1], t) {
      i := k - 1;
    } else {
      i := SomeoneAttempts(ds, t, k - 1);
    }
  }

  // The run ends with the slot of the device that went last, so it takes no more slots
  // than that device's range.
  lemma FinishUpperBound(n: nat, t: nat, draw: (nat, nat) -> nat) returns (last: nat)
    requires n > 0 && FinishesAt(n, t, draw)
    ensures last < n
    ensures var ds := State(n, t, draw);
            && ds[last].completed && t == ds[last].nextAttempt + 1 <= ds[last].maxRange
            && forall i | 0 <= i < n :: ds[i].completed && ds[i].nextAttempt <= ds[last].nextAttempt
  {
    hide Pow2, Draw, CountAttempts;
    NoneCompleted(n, n);
    assert t > 0;
    var ds, prev := State(n, t, draw), State(n, t - 1, draw);
    RunKeeps(n, t, draw);
    AllCompleted(ds, n);
    assert Completed(n, t - 1, draw) < n;
    StepCompletes(prev, t - 1, draw, n);
    last := SomeoneAttempts(prev, t - 1, n);
    assert ds[last] == DeviceStep(prev[last], t - 1, false, draw(t - 1, last));
  }

  lemma {:induction false} AllCompleted(ds: seq<Device>, k: nat)
    requires k <= |ds| && CountCompleted(ds, k) == k
    ensures forall i | 0 <= i < k :: ds[i].completed
  {
    if k > 0 {
      AllCompleted(ds, k - 1);
    }
  }
}
