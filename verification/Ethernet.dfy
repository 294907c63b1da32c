// ethernet.c: classifying a received frame.
module Ethernet {
  import opened Bytes
  import opened Crc32
  import opened CrcDetection

  // stack.h, lines 26-33, without the pipe descriptors.
  datatype Interface = Interface(mac: seq<byte>, ip: seq<byte>) {
    ghost predicate Valid() { |mac| == 6 && |ip| == 4 }
  }

  // 46 octets of data, a header and an FCS.
  const MIN_FRAME: nat := 64

  const BROADCAST: seq<byte> := [0xFF, 0xFF, 0xFF, 0xFF, 0xFF, 0xFF]

  datatype FrameFlags = FrameFlags(isBroadcast: bool, isForMe: bool, checkSumMatch: bool, validLength: bool)

  // The first interface with this MAC address, if any, ends up in receiver.
  method EthCmp(destination: seq<byte>, interfaces: seq<Interface>, receiver0: nat)
    returns (found: bool, receiver: nat)
    ensures found <==> exists i | 0 <= i < |interfaces| :: interfaces[i].mac == destination
    ensures found ==> receiver < |interfaces| && interfaces[receiver].mac == destination
    ensures found ==> forall i | 0 <= i < receiver :: interfaces[i].mac != destination
    ensures !found ==> receiver == receiver0
  {
    for i := 0 to |interfaces|
      invariant forall j | 0 <= j < i :: interfaces[j].mac != destination
    {
      if destination == interfaces[i].mac {
        return true, i;
      }
    }
    return false, receiver0;
  }

  // The checksum flag is the residue test, the length flag the minimum.
  method HandleFrame(frame: array<byte>, len: nat, interfaces: seq<Interface>, receiver0: nat)
    returns (flags: FrameFlags, dataSize: int, receiver: nat)
    requires 4 <= len <= frame.Length && 6 <= frame.Length
    ensures dataSize == len - 18
    ensures flags.checkSumMatch <==> FcsMatches(frame[..len])
    ensures flags.checkSumMatch <==> Crc(0, frame[..len]) == RESIDUE
    ensures flags.validLength <==> MIN_FRAME <= len
    ensures flags.isBroadcast <==> forall k | 0 <= k < 6 :: frame[k] == 0xFF
    ensures flags.isForMe <==> exists i | 0 <= i < |interfaces| :: interfaces[i].mac == frame[..6]
    ensures flags.isForMe ==> receiver < |interfaces| && interfaces[receiver].mac == frame[..6]
    ensures !flags.isForMe ==> receiver == receiver0
  {
    hide Crc, LoadLe;
    dataSize := len - 14 - 4;
    var received := LoadLe(frame[..], len - 4);
    var isForMe;
    isForMe, receiver := EthCmp(frame[..6], interfaces, receiver0);
    var crc := ComputeCrc(0, frame, len - 4);
    FcsMatchesIffResidue(frame[..len]);
    assert frame[..len][..len - 4] == frame[..len - 4];
    LoadLePrefix(frame[..], len);
    flags := FrameFlags(frame[..6] == BROADCAST, isForMe, received == crc, !(dataSize < 46));
  }

  lemma LoadLePrefix(s: seq<byte>, len: nat)
    requires 4 <= len <= |s|
    ensures LoadLe(s, len - 4) == LoadLe(s[..len], len - 4)
  {}
}
