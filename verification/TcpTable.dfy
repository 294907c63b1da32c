// tcp.c: the connection table and the searches over it.
module TcpTable {
  import opened Bytes

  const CONNECTION_LIMIT: nat := 10

  const NOT_CONNECTED: nat := 0
  const ESTABLISHED: nat := 1
  const SYN_RECEIVED: nat := 2

  datatype Key = Key(ip: seq<byte>, port: nat)

  // struct tcp_connection, without the printable address.
  datatype Slot = Slot(io: bool, key: Key, mac: seq<byte>, nextSeq: nat, currSeq: nat, status: nat) {
    predicate Valid() {
      && |key.ip| == 4 && key.port < 0x10000 && |mac| == 6
      && nextSeq < TWO32 && currSeq < TWO32 && status <= SYN_RECEIVED
    }

    predicate Active() { status != NOT_CONNECTED }
  }

  // A slot as memset leaves it.
  const EMPTY_SLOT: Slot :=
    Slot(false, Key([0, 0, 0, 0], 0), [0, 0, 0, 0, 0, 0], 0, 0, NOT_CONNECTED)

  predicate ValidTable(slots: seq<Slot>) {
    forall i | 0 <= i < |slots| :: slots[i].Valid()
  }

  // The first slot at or after i with this key, active or not; -1 if there is none.
  function Lookup(slots: seq<Slot>, key: Key, i: nat): (r: int)
    requires i <= |slots|
    ensures -1 <= r < |slots|
    ensures r == -1 <==> forall j | i <= j < |slots| :: slots[j].key != key
    ensures r >= 0 ==> i <= r && slots[r].key == key && forall j | i <= j < r :: slots[j].key != key
    decreases |slots| - i
  {
    if i == |slots| then -1
    else if slots[i].key == key then i
    else Lookup(slots, key, i + 1)
  }

  // The first closed slot at or after i.
  function Space(slots: seq<Slot>, i: nat): (r: int)
    requires i <= |slots|
    ensures -1 <= r < |slots|
    ensures r == -1 <==> forall j | i <= j < |slots| :: slots[j].Active()
    ensures r >= 0 ==> i <= r && !slots[r].Active() && forall j | i <= j < r :: slots[j].Active()
    decreases |slots| - i
  {
    if i == |slots| then -1
    else if !slots[i].Active() then i
    else Space(slots, i + 1)
  }

  // The slot a segment with this key is handled in.
  function Target(slots: seq<Slot>, key: Key): (r: int)
    ensures -1 <= r < |slots|
  {
    var found := Lookup(slots, key, 0);
    if found != -1 then found else Space(slots, 0)
  }

  // A segment is handled in the first slot with its key, even a closed one; else in the
  // first closed slot; and is turned away exactly when all slots are other peers' and open.
  lemma TargetIs(slots: seq<Slot>, key: Key, i: nat)
    requires i < |slots|
    ensures Target(slots, key) == i <==>
              (if exists j | 0 <= j < |slots| :: slots[j].key == key then
                 slots[i].key == key && forall j | 0 <= j < i :: slots[j].key != key
               else
                 slots[i].status == 0 && forall j | 0 <= j < i :: slots[j].status != 0)
    ensures Target(slots, key) == -1 <==> forall j | 0 <= j < |slots| :: slots[j].key != key && slots[j].status != 0
  {}

  // The first slot at or after i in write mode.
  function Writing(slots: seq<Slot>, i: nat): (r: int)
    requires i <= |slots|
    ensures -1 <= r < |slots|
    ensures r == -1 <==> forall j | i <= j < |slots| :: !slots[j].io
    ensures r >= 0 ==> i <= r && slots[r].io && forall j | i <= j < r :: !slots[j].io
    decreases |slots| - i
  {
    if i == |slots| then -1
    else if slots[i].io then i
    else Writing(slots, i + 1)
  }

  // A slot that keeps its key or its status leaves the searches as they were.
  lemma {:induction false} LookupUnchanged(slots: seq<Slot>, i: nat, slot: Slot, key: Key, from: nat)
    requires i < |slots| && slot.key == slots[i].key && from <= |slots|
    ensures Lookup(slots[i := slot], key, from) == Lookup(slots, key, from)
    decreases |slots| - from
  {
    if from < |slots| && slots[from].key != key {
      LookupUnchanged(slots, i, slot, key, from + 1);
    }
  }

  lemma {:induction false} SpaceUnchanged(slots: seq<Slot>, i: nat, slot: Slot, from: nat)
    requires i < |slots| && slot.status == slots[i].status && from <= |slots|
    ensures Space(slots[i := slot], from) == Space(slots, from)
    decreases |slots| - from
  {
    if from < |slots| && slots[from].Active() {
      SpaceUnchanged(slots, i, slot, from + 1);
    }
  }

  method ConnectionLookup(table: array<Slot>, key: Key) returns (index: int)
    ensures index == Lookup(table[..], key, 0)
  {
    for i := 0 to table.Length
      invariant Lookup(table[..], key, i) == Lookup(table[..], key, 0)
    {
      if table[i].key == key {
        return i;
      }
    }
    return -1;
  }

  method IsSpace(table: array<Slot>) returns (index: int)
    ensures index == Space(table[..], 0)
  {
    for i := 0 to table.Length
      invariant Space(table[..], i) == Space(table[..], 0)
    {
      if table[i].status == NOT_CONNECTED {
        return i;
      }
    }
    return -1;
  }

  method Promise(table: array<Slot>) returns (index: int)
    ensures index == Writing(table[..], 0)
  {
    for i := 0 to table.Length
      invariant Writing(table[..], i) == Writing(table[..], 0)
    {
      if table[i].io {
        return i;
      }
    }
    return -1;
  }

  // The id itself when it names an active slot, else -1.
  method VerifyUserId(table: array<Slot>, id: int) returns (index: int)
    ensures index == if 0 <= id < table.Length && table[id].Active() then id else -1
  {
    for i := 0 to table.Length
      invariant forall j | 0 <= j < i :: !(id == j && table[j].Active())
    {
      if id == i && table[i].status != NOT_CONNECTED {
        return i;
      }
    }
    return -1;
  }
}
