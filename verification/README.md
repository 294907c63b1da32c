# A verified model of a small user-space network stack

The repository is an Ethernet/ARP/IPv4 router with ICMP errors and a passive-open TCP, a
study of Ethernet contention, and a hex dump/read pair. This project models its arithmetic,
its frame handling, its TCP connection table and the two smaller programs, and proves what
they are for. `dafny verify dfyconfig.toml` checks everything.

## How the model is built

Each C function that works in place is a method over arrays, proved equal to a pure function
of the bytes it found; the properties are lemmas about those functions.

| file | models |
|---|---|
| `Bytes.dfy` | octets, big-endian fields, block copies |
| `Crc32Table.dfy`, `Crc32.dfy`, `CrcDivision.dfy`, `CrcDetection.dfy` | `crc32`: the table loop, its meaning as polynomial division, the errors it catches |
| `InternetChecksum.dfy` | `ip_checksum` |
| `Ethernet.dfy` | `handle_frame`, `eth_cmp` |
| `Encapsulation.dfy` | `encapsulation`, `handle_icmp`, `is_interface` |
| `Routing.dfy` | longest-prefix match and the ARP cache scan |
| `TcpTable.dfy`, `TcpSegment.dfy`, `Tcp.dfy` | the connection table, `create_tcp_segment`, `handle_tcp` and `handle_tcp_payload` |
| `TcpRuns.dfy`, `TcpExchange.dfy` | runs of the connection table; one packet's replies, with the second FIN/ACK pass |
| `Ip.dfy` | `handle_packet`, `interaction_handler` and paths through several routers |
| `Octets.dfy` | what the stack does with a TCP segment, in the octets of frames alone |
| `StackRuns.dfy` | runs of the whole stack, packets and input lines in any order |
| `Backoff.dfy`, `Contention.dfy` | the contention study |
| `Hex.dfy`, `HexStream.dfy` | `binary_to_hex`, `hex_to_binary`, `hexdump`, `hexread` |

Conventions:

- `frame_fields`, `ip_header` and the raw frame pointer alias one buffer in the C code, so one
  array stands for all three and header fields are offsets into it. IP headers have 20 octets,
  as the fixed offsets of the code assume, and the host is little-endian, as its copies of a
  `uint32_t` FCS assume.
- 16- and 32-bit wrap-around and the narrowing of `data_octets` to `int8_t` are written out.
- Random draws are parameters with no constraint (`isn`, `draw`, `transmit`, `choose`), so
  every statement holds for all of them. What is sent is appended to a log.
- A frame's length is what was received. `handle_frame` and forwarding take its last four
  octets for an FCS; the TCP code takes none, and counts all behind the header as data.
- The tables whose C sizes are constants (interfaces, routes, ARP entries) have any length.
- Bit-vector operators sit behind `Xor` and `Shift`; `hide` keeps definitions a proof does not
  need out of it.

## Results worth knowing

- The table-driven CRC is schoolbook polynomial long division over GF(2) with the complements
  of clause 3.2.9 of IEEE 802.3, and no error confined to 32 consecutive bits of a frame, FCS
  included, goes unnoticed.
- In every connection table the stack can reach, by whatever packets and input, an active slot
  is the one its own key finds, at most one slot is in write mode, and a slot is established
  only after a SYN and a later ACK from its peer, with no closing in between.
- What the stack forwards, and an ICMP error for a packet other than TCP, is accepted by every
  check a receiver makes. The checksums of a segment it originates, and of its answer to a
  segment (of at most 127 octets, if it carries data), verify over all the frame holds; the
  conditions for acceptance are below.
- From a peer's SYN on, in any run of packets and input, a conversation in order keeps the
  slot's numbers at the initial numbers plus the octets the datagrams carry
  (`StackConversationTracks`).
- What the stack answers to a TCP segment, and what becomes of its slot, is stated octet by
  octet (`Octets.dfy`), as is which packets draw no answer (`SilentIff`): no TCP packet is
  forwarded, wherever it is for.
- Text converts exactly when its digits stand in pairs, whatever their case, and then to
  those bytes (`DecodeIff`).
- A device that collides may draw each of the next 2^curr_max slots and no other, twice as
  many after each collision (`SlotDecides`, `WindowReached`).
- Whatever the routing tables, a packet is forwarded at most TTL - 1 times.

Where a promise of the code fails, the exact condition is proved:

- A segment is acknowledged for what its datagram carries exactly when that is at most 127
  octets and what else the frame holds is 0 octets modulo 256 (`AcknowledgesIff`): data are
  counted from the frame's length, and passed as `int8_t`. Padding and an FCS count as data
  (`ExcessCounts`), so an ACK that ends a handshake in a frame with an FCS moves `next_seq` by
  4, and one that moves nothing has TCP options, or its frame would be ignored as short
  (`BareAckHasOptions`).
- A data segment closes its own connection exactly when what it carries, with padding and FCS,
  comes to 253 octets modulo 256 (`DataClosesIff`; `ClosesIff` says what a TTL of 1 does to
  that): the narrowed length is returned as the status code, and -3 is the code of the FIN
  exchange. In a frame with an FCS and no padding that is 249 octets of data.
- The reply to a segment (of at most 127 octets, if it carries data) is accepted exactly when
  the datagram fills the frame, without padding or FCS, and, for PSH/ACK, the TCP header has
  at least 26 octets (`ReplyIsAccepted`, `FinIsAccepted`). A frame that meets all of the
  stack's own checks, FCS included, therefore draws a reply that does not (`FcsBreaksReply`).
  Dropping zero padding first does not save the reply (`PaddedReplyFails`).
- A segment the stack originates is accepted exactly when it carries at least 6 octets
  (`SegmentIsAccepted`): a shorter one makes a frame under the 64 octets `handle_frame` asks
  for. No FIN the user sends is accepted (`FinIsShort`).
- When a segment that closes its connection leaves as an ICMP error, the second pass reads a
  key out of the error: the listener's own address, and the ICMP checksum where a port was.
  With the listener's address on an interface that takes a TTL of 1. Then it leaves its own
  connection open, unless that has the very key (`ClosesIff`), and another peer's slot is closed
  exactly when it has that key (`PacketTouchesIff`, `TtlIsolates`). A run of three packets gets
  there (`IsolationFails`).
- Write mode outlives the connection it was opened on: text reaches the peer chosen exactly as
  long as no other peer's SYN takes the slot (`StackTypedReachesChosen`), and it may
  (`StackTypedGoesAstray`).
- `hexdump` followed by `hexread` restores a file exactly when its length is not a positive
  multiple of 16 (`DumpThenRead`): the newline after a last full group is converted alone, and
  `hex_to_binary` then leaves the byte count unset.
- The comment at hexread.c:127 says a group never needs more than 48 characters. Exactly which
  text without NUL characters overruns the buffer or ends in a blank group is
  `ReadIsWholeUnlessMisread`; 49 spaces do (`BlankOverruns`), and so does text that
  `hex_to_binary` converts (`ConvertibleOverruns`). The model calls the outcome `Undefined`.
- An empty file dumps to nothing while `binary_to_hex` of nothing is a newline
  (`DumpIsWholeText`).

## Model

| member | source | states |
|---|---|---|
| Crc32Table.EntryIsShift8 | crc32.c:49-93 | each of the 256 table entries is eight shift/xor steps of its index |
| Crc32.ComputeCrc | crc32.c:95-107 | the loop's result is the complemented register run over the buffer, seeded with the complemented argument |
| Crc32.ShiftsInjective | crc32.c:14-19 | any number of register shifts is injective on the register |
| Crc32.TableStepIsShift8 | crc32.c:104 | one table step is eight shift/xor steps of the register xor the byte |
| Crc32.RegisterIsBitSerial | crc32.c:26-37 | for every byte string the table loop equals the register fed one message bit at a time, lowest bit first |
| CrcDivision.BitSerialDivides | crc32.c:5-19 | the bit-serial register always holds the remainder of long division of what it has been fed |
| CrcDivision.GeneratorIs | crc32.c:5-14 | the generator has the coefficients of clause 3.2.9 of IEEE 802.3 |
| CrcDivision.CrcIsLongDivision | crc32.c:5-44 | the CRC of every byte string is the complemented remainder of long division of the message, its first 32 bits complemented and 32 zeros appended, by the generator |
| CrcDetection.CrcChains | crc32.c:40-44 | running the function over consecutive pieces, seeded with the last result, gives the CRC of the whole |
| CrcDetection.RegisterXor | crc32.c:95-107 | the register is linear in state and message together |
| CrcDetection.CrcIsAffine | crc32.c:95-107 | the xor of the CRCs of three equal-length strings is the CRC of their xor |
| CrcDetection.UndetectedErrors | ethernet.c:31-34 | an error on a valid frame goes undetected exactly when the zero-seeded register maps it to zero |
| CrcDetection.FcsMatchesIffResidue | ethernet.c:17-34 | the stored FCS matches exactly when the CRC of the frame with its FCS is 0x2144DF1C |
| CrcDetection.SealedMatches | ip-encapsulation.c:61-63 | a frame with its CRC appended as copied from a little-endian word passes the FCS check |
| CrcDetection.BlockInjective | crc32.c:95-107 | from one register state two different 32-bit blocks lead to different states |
| CrcDetection.BurstDetected | ethernet.c:31-34 | a change confined to 32 consecutive bits of a valid frame, FCS included, always makes the FCS check fail |
| CrcDetection.FourOctetsDetected | ethernet.c:31-34 | likewise for any change inside four consecutive octets |
| InternetChecksum.ComputeChecksum | crc32.c:130-156 | both loops end, no 64-bit addition overflows, and the result is 0xFFFF minus the folded word sum, odd lengths included |
| InternetChecksum.FoldValue | crc32.c:150-153 | the fold gives the residue modulo 65535 in 1..65535, and 0 only for 0 |
| InternetChecksum.FoldCongruent | crc32.c:150-153 | folding keeps the sum's residue modulo 65535 and reaches 0 only from 0 |
| InternetChecksum.VerifiesIff | ip.c:46 | a block verifies exactly when its word sum is a positive multiple of 65535 |
| InternetChecksum.ChecksumOnesIff | crc32.c:130-156 | the checksum is 0xFFFF exactly for a block of zeros |
| InternetChecksum.ChecksumPadded | tcp.c:331-334 | a zero pad after an odd block leaves the checksum as it was |
| InternetChecksum.StoredChecksumVerifies | ip-encapsulation.c:45-54 | storing the checksum in its zeroed, aligned field makes the block verify |
| InternetChecksum.OneWordChange | ip.c:46 | a changed word leaves a verifying block verifying only when 0x0000 and 0xFFFF were exchanged, and not even then if nothing else is set |
| Ethernet.EthCmp | ethernet.c:38-51 | the first interface with the destination's MAC address, or nothing and the receiver unchanged |
| Ethernet.HandleFrame | ethernet.c:13-36 | the checksum flag is the residue test, the length flag the 64-octet minimum, the address flags broadcast and own interface |
| Encapsulation.SealedVerifies | ip-encapsulation.c:45-63 | a sealed frame passes the FCS and the header check, and sealing changes only the two checksum fields |
| Encapsulation.HandleIcmp | icmp.c:17-54 | the in-place edits leave exactly the specified message, 74 octets long |
| Encapsulation.IcmpMessageFields | icmp.c:17-54 | the message's fields, the quote taken before the header is rewritten, and a verifying ICMP checksum |
| Encapsulation.Rewrite | ip-encapsulation.c:19-40 | the address rewrite and the new length of each of the four branches |
| Encapsulation.Seal | ip-encapsulation.c:42-63 | header checksum, then FCS, in place |
| Encapsulation.Encapsulate | ip-encapsulation.c:17-65 | the whole in-place rewrite, as a function of the frame it found |
| Encapsulation.EncapsulationIsAccepted | ip-encapsulation.c:17-65 | on every branch the frame left passes the receiver's FCS and header checks |
| Encapsulation.ForwardedFields | ip-encapsulation.c:34-37 | forwarding sets both MAC addresses and leaves everything but the checksums |
| Encapsulation.IcmpReply | icmp.c:17-55 | the error goes from the receiving interface to the sender, quotes the first 28 octets as they arrived, and verifies under ICMP checksum, header checksum and FCS |
| Encapsulation.IsInterface | ip-encapsulation.c:68-75 | the first interface with this address, or -1 when there is none |
| Routing.LongestPrefix | ip.c:80-105 | the loop picks the specified row, for a table of any length |
| Routing.BestRouteIsLongest | ip.c:97-104 | no row exactly when none matches; otherwise a match with the most mask bits, the first of those |
| Routing.LongerMaskContains | ip.c:99-100 | of two contiguous masks the one with at least as many bits covers the other |
| Routing.BestRouteIsMostSpecific | ip.c:95-104 | with contiguous masks the chosen network lies inside every other network that matches |
| Routing.MatchesBits | ip.c:94-99 | a row matches when, bit by bit, its network is the address under the mask |
| Routing.AddressOctets | ip.c:94-99 | the bits of an address are those of its octets, the first the highest |
| Routing.ArpLookupLast | ip.c:118-127 | the last cache entry for the address, none exactly when no entry has it |
| Routing.FindMac | ip.c:118-127 | the last cache entry for the address |
| TcpTable.Lookup | tcp.c:279-289 | the first slot with the key, active or not, or -1 |
| TcpTable.Space | tcp.c:292-299 | the first closed slot, or -1 |
| TcpTable.Writing | tcp.c:532-539 | the first slot in write mode, or -1 |
| TcpTable.TargetIs | tcp.c:73-82 | a segment is handled in the first slot with its key, else in the first closed one, and turned away exactly when every slot is open for another peer |
| TcpTable.ConnectionLookup | tcp.c:279-289 | the loop finds that slot |
| TcpTable.IsSpace | tcp.c:292-299 | the loop finds that slot |
| TcpTable.Promise | tcp.c:532-539 | the loop finds that slot |
| TcpTable.VerifyUserId | tcp.c:523-530 | the id itself when it names an active slot, else -1 |
| TcpSegment.CalculateTcpChecksum | tcp.c:314-364 | the checksum of pseudo-header and segment, padding included |
| TcpSegment.TcpChecksumVerifies | tcp.c:615-620 | storing the TCP checksum in its zeroed field makes the segment verify |
| TcpSegment.WriteHeaders | tcp.c:568-605 | the field writes give exactly the three headers and the data |
| TcpSegment.CreateTcpSegment | tcp.c:552-635 | the finished frame, and the slot's sequence number advanced modulo 2^32 by the data length, or by 1 without data; a FIN closes the slot |
| TcpSegment.SoundIsAcceptedIff | ethernet.c:13-36 | a frame whose checksums verify over all it holds is accepted exactly when its lengths agree and it is not short |
| TcpSegment.SegmentIsAccepted | tcp.c:552-635 | the frame verifies at all three layers, its lengths agree, every header octet outside the checksums is stated, and it carries the data; the receiver accepts it exactly when it has at least 6 octets of data |
| TcpSegment.FinIsShort | tcp.c:436-464 | no FIN the user sends reaches the length a receiver asks for |
| Tcp.HandleTcpPayload | tcp.c:129-274 | frame, slot and return value for every control field |
| Tcp.LengthsAgree | tcp.c:37-41 | the 16-bit length arithmetic yields the segment and header lengths exactly |
| Tcp.HandleTcp | tcp.c:21-126 | one first pass in place, early returns included |
| Tcp.HandleTcpAgain | tcp.c:21-126 | one second pass (flag 1) in place |
| TcpRuns.RunConsistent | tcp.c:73-82 | in every table reached by segments, refused ones included, and input, looking up an active slot's key finds that slot, the zeroed initial slots notwithstanding |
| TcpRuns.ActiveKeysDistinct | tcp.c:279-289 | no two active slots of such a table share a key |
| TcpRuns.StepValid | tcp.h:36-46 | every step keeps each slot's fields within their widths |
| TcpRuns.InputEffects | tcp.c:398-522 | what a line of input does to each slot, field by field |
| TcpRuns.TextEndsWriting | tcp.c:495-518 | after text is sent no slot is in write mode |
| TcpRuns.OtherPeersUntouched | tcp.c:73-85 | a segment whose reply does not become an ICMP error changes at most its own peer's slot or a closed one, and no field of another peer's active slot |
| TcpRuns.RefusedTouchesIff | ip.c:197-210 | one whose reply does become an error changes another peer's active slot exactly when it would close its own connection and the error shows that peer's key |
| TcpRuns.ClosingIff | tcp.c:198-257 | a second pass follows exactly a FIN on an open connection and data that the code counts as 253 octets modulo 256 |
| TcpRuns.AtMostOneWriter | tcp.c:410-476 | in every such table at most one slot is in write mode |
| TcpRuns.KeyChangesIff | tcp.c:135-157 | a slot's key changes exactly when a SYN from another peer takes the slot |
| TcpRuns.TypedReachesChosen | tcp.c:410-518 | text typed goes to the peer chosen exactly as long as no other peer has taken the slot since |
| TcpRuns.TypedGoesAstray | tcp.c:135-157 | after SYN, choice and FIN of one peer the next peer's SYN inherits write mode |
| TcpRuns.OpenedByHandshake | tcp.c:133-195 | an open slot has been open since a SYN from its peer; an established one saw a later ACK from the same peer |
| TcpRuns.StepTracks | tcp.c:159-228 | one in-order event, its octets as the code counts them, keeps the slot's numbers equal to the initial numbers plus the octets exchanged |
| TcpRuns.ConversationTracks | tcp.c:170-208 | so does any conversation over the connection table, with other peers and the user interleaved |
| TcpRuns.ConversationFromSyn | tcp.c:135-157 | and it does so from the SYN on, over any table a run reaches |
| TcpExchange.HandleTcpPacket | ip.c:150-219 | the frames sent, the buffer and the table, as the status switch has them |
| TcpExchange.ReplyNamesPeer | tcp.c:88-98 | when a second pass follows, the turned-round header names the peer as destination |
| TcpExchange.SecondPassTarget | tcp.c:44-82 | the second lookup reaches the slot of the first |
| TcpExchange.ReplyQuoted | icmp.c:17-31 | the 28 octets an error would quote of the turned-round reply, as a function of the frame received |
| TcpExchange.RefusedSecondKey | tcp.c:44-82 | the key the second pass reads out of an ICMP error: the listener's address and the error's checksum |
| TcpExchange.RespondRefinesStep | ip.c:150-219 | both passes together move the table by one step, whether or not an error is sent instead |
| TcpExchange.ClosesOwn | ip.c:197-210 | a segment closes its own slot exactly when a second pass follows and no error is sent, or the error shows the slot's own key |
| Tcp.OctetsCount | tcp.c:37-41 | the octets the code counts are those the datagram carries and whatever else the frame holds |
| TcpExchange.AcknowledgesIff | tcp.c:159-208 | a segment is acknowledged for what its datagram carries exactly when that is at most 127 octets and the frame holds nothing else, modulo 256 |
| TcpExchange.ExcessCounts | tcp.c:37-41 | padding and FCS move the number expected next as data would |
| TcpExchange.FcsIsExcess | ethernet.c:16-17 | a frame that passes the receiver's checks holds four octets beyond its datagram |
| TcpExchange.ClosingFrameIff | tcp.c:198-257 | of the frames received a second pass follows exactly a FIN on an open connection and data that with padding and FCS come to 253 octets modulo 256 |
| TcpExchange.DataClosesIff | tcp.c:198-228 | a data segment answered in the usual way closes its connection exactly when they do |
| TcpExchange.NotForListener | tcp.c:50-60 | a segment for another address or port changes no slot and draws no reply |
| TcpExchange.ReplyIsAccepted | tcp.c:129-257 | the reply to a SYN, a FIN or at most 127 octets of data, sent with PSH or as a plain ACK: every octet outside the checksums; checksums that verify over all it holds; and the peer accepts it exactly when the datagram filled the frame, without padding or FCS, and, for PSH/ACK, the TCP header has at least 26 octets |
| TcpExchange.FcsBreaksReply | tcp.c:37-41 | a frame that passes all of the receiver's checks, FCS included, draws a reply that does not |
| TcpExchange.PaddedReplyFails | tcp.c:37-41 | where the padding was zeros the reply's TCP checksum fails over the datagram its header announces |
| TcpSegment.PaddingCounts | tcp.c:314-364 | a TCP checksum that verifies with zero padding counted as segment does not verify without it |
| TcpExchange.FinIsAccepted | tcp.c:236-245 | on an open connection exactly one FIN/ACK follows; it repeats the reply but for identification, flags and checksums, and is accepted exactly when the datagram filled the frame |
| TcpExchange.RefusedReply | ip-encapsulation.c:19-26 | a refused segment that draws frames draws a valid ICMP error, sent back to where it came from under the listener's own address |
| Ip.Stack.constructor | stack.c:77-80 | the stack starts with zeroed slots and nothing sent |
| Ip.Stack.Route | ip.c:52-143 | the decision, with the TTL decremented exactly when the packet is forwarded |
| Ip.Stack.HandlePacket | ip.c:20-230 | flags, buffer, table and log after one packet |
| Ip.Stack.SendSegment | tcp.c:495-518 | one segment logged and its slot advanced |
| Ip.Stack.HandleInput | tcp.c:398-522 | table and log after one line of input |
| Ip.TypedIsAccepted | tcp.c:398-522 | a line of input sends at most one segment, valid at all three layers: the text to the peer being written to, accepted exactly when it has at least 6 octets, or a FIN to the one being closed, which never is |
| Ip.ForwardedPacket | ip.c:142-143 | a forwarded packet has one hop less, the new MAC addresses and otherwise its old content, and passes the next router's checks |
| Ip.ForwardingChoice | ip.c:80-127 | it leaves on the first of the longest matching routes, for the MAC address the last cache entry has for the gateway, or for the destination when the gateway is 0.0.0.0 |
| Ip.DecisionIff | ip.c:52-141 | exactly which packets are dropped, delivered, refused with which error, and forwarded, by length, TTL, protocol, interface addresses, matching routes and cache entries |
| Ip.DroppedPacket | ip.c:52-75 | a dropped packet sends nothing and changes neither buffer nor table |
| Ip.PathTtl | ip.c:55-66 | along any path of these routers the TTL at hop k is the first TTL minus k, and at least 2 |
| Ip.ForwardingIsBounded | ip.c:55-66 | at most TTL - 1 routers, hence at most 254, forward a packet, however they are configured |
| Ip.RefusedPacket | ip.c:129-147 | a refused packet draws one ICMP error to its sender, quoting it and valid under all three checksums |
| Ip.RefusalReasons | ip.c:55-141 | which of the three errors it is, exactly |
| Ip.ProcessRefinesStep | ip.c:20-220 | of all packets, whatever their TTL, only TCP segments for the listener touch the connection table, each by one step |
| Ip.ListenerPlan | ip.c:55-58 | with the listener's address on an interface an error is sent exactly for TTL 1 |
| Octets.ReadsOctets | tcp.c:37-92 | every field of a segment the code reads, by its octets |
| Octets.TableOctets | tcp.c:133-257 | a segment changes its peer's slot as its octets say, field by field, and no other slot |
| Octets.SynIsServed | tcp.c:292-299 | a SYN opens a slot whenever one is closed or was the peer's before |
| Octets.SilentIff | tcp.c:129-274 | exactly which TCP packets draw a frame: none that is not for the listener, and not the ACK that ends a handshake |
| Octets.ReplyIs | tcp.c:88-126 | the reply as it leaves handle_packet, octet by octet from the frame received |
| Octets.FinIsLogged | ip.c:197-210 | a FIN on an open connection is answered on the receiving interface by an ACK and then a FIN/ACK |
| Octets.ExpiredIs | ip.c:55-58 | a segment that would draw frames draws, with TTL 1, a valid time-exceeded error addressed to the listener itself |
| StackRuns.StackRefinesTable | ip.c:20-230 | event for event a run of the stack moves the table as a run of the connection table does |
| StackRuns.ReachableTable | tcp.c:73-82 | after any packets and input every field is within its width, an active slot is the one its key finds, and at most one slot is in write mode |
| StackRuns.ReachableKeysDistinct | tcp.c:279-289 | no two active slots of a table the stack can reach share a key |
| StackRuns.StackHandshake | tcp.c:133-195 | after any packets and input an open slot has been open since a SYN packet of its peer, whose MAC address it holds; an established one saw a later ACK packet of the same peer |
| StackRuns.PacketTouchesIff | ip.c:197-210 | a packet changes another peer's active slot exactly when it closes its own connection, leaves as an ICMP error, and the error shows that peer's key |
| StackRuns.TtlIsolates | ip.c:55-58 | with the listener's address on an interface that takes a TTL of 1 |
| StackRuns.ClosesIff | ip.c:197-210 | a packet closes its own connection exactly when it is a FIN, or data that with padding and FCS come to 253 octets modulo 256, and did not arrive with TTL 1 or draws an error that shows its own sender |
| StackRuns.StackConversationTracks | tcp.c:135-208 | from a SYN packet on, a conversation of packets in order whose datagrams fill their frames, read by their own length fields, keeps the slot's numbers at the initial numbers plus the octets carried, in any run |
| StackRuns.BareAckHasOptions | stack.c:186 | an ACK without data that fills a frame that is not short has a TCP header of at least 30 octets |
| StackRuns.StackTypedReachesChosen | tcp.c:410-518 | in any run, text typed goes to the peer chosen exactly as long as no other peer's SYN packet has taken the slot since |
| StackRuns.StackTypedGoesAstray | tcp.c:135-157 | three packets and a choice after which the next peer gets the text |
| StackRuns.SegmentFrameFields | stack.c:177-223 | the witness frames are IPv4 for the interface, of minimum length, with datagrams that fill them |
| StackRuns.IsolationFails | ip.c:197-210 | three packets, all of them handed to handle_packet, after which one peer's FIN has closed another peer's connection and not its own |
| Backoff.ColDet | ethernet-study/binary_exp.c:119-142 | collision exactly when two devices attempt the slot, and then the list holds just those |
| Backoff.DeviceCol | ethernet-study/binary_exp.c:145-152 | membership in the list |
| Backoff.Slot | ethernet-study/binary_exp.c:62-99 | one slot steps every device and keeps the completion count equal to the completed flags |
| Backoff.BackOff | ethernet-study/binary_exp.c:79-85 | a collided device's new attempt, counter and range |
| Backoff.Simulate | ethernet-study/binary_exp.c:35-106 | when it finishes, the count is the first slot by which all devices have completed |
| Backoff.RunKeeps | ethernet-study/binary_exp.c:47-104 | for any draws: range 2^curr_max - 1, next attempt at most 2^curr_max - 2, unfinished devices attempt no earlier than now, finished ones in distinct slots |
| Backoff.NoWrap | ethernet-study/binary_exp.c:79-85 | while curr_max is at most 30 no 32-bit field or slot number wraps |
| Backoff.SlotDecides | ethernet-study/binary_exp.c:62-99 | what a slot does to each device: alone it is done, colliding it draws from the whole of its range and the range doubles, else it waits |
| Backoff.WindowReached | ethernet-study/binary_exp.c:79-85 | each of the 2^curr_max slots of the window is reached by some draw |
| Backoff.FirstSlot | ethernet-study/binary_exp.c:46-52 | all devices try slot 0, and from two on each then picks slot 1 or 2 |
| Backoff.SlotsAddUp | ethernet-study/binary_exp.c:55-104 | slots are completions plus collisions plus idle ones, and no slot has two completions |
| Backoff.FinishLowerBound | ethernet-study/binary_exp.c:55-104 | a finished run took at least n slots, and n + 1 when n is at least 2 |
| Backoff.FinishUpperBound | ethernet-study/binary_exp.c:55-104 | it ended with the slot of the last device, within that device's range |
| Contention.HubColDet | ethernet-study/hub.c:118-146 | the list holds the devices that transmit while another does |
| Contention.DeviceCol | ethernet-study/hub.c:149-156 | membership in the list |
| Contention.HubCount | ethernet-study/hub.c:77-90 | the counting loop |
| Contention.HubTurn | ethernet-study/hub.c:62-93 | one turn adds the slot's tally |
| Contention.HubSimulation | ethernet-study/hub.c:62-93 | the counters of the whole run |
| Contention.HubServesLoneSender | ethernet-study/hub.c:118-146 | a hub slot succeeds exactly when one device transmits |
| Contention.SwitchColDet | ethernet-study/switch.c:136-173 | the list holds the devices sharing a destination with another sender |
| Contention.SwitchCount | ethernet-study/switch.c:93-108 | the counting loop |
| Contention.SwitchTurn | ethernet-study/switch.c:61-111 | one turn adds the slot's tally |
| Contention.SwitchSimulation | ethernet-study/switch.c:61-111 | the counters of the whole run |
| Contention.SwitchServesClearPorts | ethernet-study/switch.c:136-173 | a switch slot's successes are the ports with exactly one sender |
| Contention.HubSlotAtMostSwitch | ethernet-study/readme.md:70-104 | slot by slot the hub succeeds no more often than the switch, on the same attempts |
| Contention.HubAtMostSwitch | ethernet-study/readme.md:70-104 | over any run with the same transmissions, attempts are successes plus failures on both and hub successes never exceed switch successes |
| Contention.HubPercentageAtMostSwitch | ethernet-study/hub.c:97-102 | so the hub's success rate, taken exactly, is at most the switch's |
| Contention.RunCounts | ethernet-study/hub.c:62-93 | over a run attempts are the transmissions, hub successes the slots with one sender, and switch successes the ports with one sender, slot by slot |
| Contention.PercentageIs | ethernet-study/hub.c:97-102 | the success rates are those counts out of a hundred attempts, 0 without attempts |
| Hex.BinaryToHex | util.c:6-49 | the buffer holds the specified text and its terminator, 3n + 1 characters, within the computed allocation |
| Hex.PrintByte | util.c:16-44 | one turn of the loop writes the separator, the pair and the next space |
| Hex.TextLayout | util.c:16-49 | byte i stands at 3i as two upper-case digits; a newline follows every sixteenth byte and the last, a space the others |
| Hex.GetSize | util.c:98-107 | the number of characters that are not white space |
| Hex.HexToBinary | util.c:51-96 | the specified conversion, without a write past the buffer |
| Hex.SpaceIff | util.c:62-66 | white space is the six characters of the C locale |
| Hex.DigitIff | util.c:109-118 | the digits are those of either case and nothing else |
| Hex.DigitValues | util.c:76-90 | a digit of either case is read for its value |
| Hex.DecodeIff | util.c:51-96 | text converts to d exactly when, position by position, its digits stand in pairs that are the bytes of d, with white space anywhere between pairs |
| Hex.AnyCaseReads | util.c:76-90 | printed text with any letters in lower case reads back the same |
| Hex.HexRoundTrip | util.c:6-96 | parsing what was printed gives the bytes back, for all but the empty string |
| HexStream.Emit | hexdump.c:113-119 | one group printed and written up to its terminator |
| HexStream.HexDump | hexdump.c:96-154 | the output depends on the file, not on how it is cut into chunks |
| HexStream.DumpIsWholeText | hexdump.c:96-154 | the 16-byte groups join to the text of the whole file, except that an empty file prints nothing |
| HexStream.ConvertGroup | hexread.c:143-146 | the null-terminated copy of the group, converted |
| HexStream.HexRead | hexread.c:123-196 | the outcome depends on the file, not on how it is cut into chunks, and no write passes the 48-character buffer unless it is reported |
| HexStream.ReadAgreesWithWhole | hexread.c:123-196 | from any point inside a group, grouped reading gives what converting the whole file at once would, or is undefined, exactly when some group outgrows its buffer or the rest is blank |
| HexStream.ReadIsWholeUnlessMisread | hexread.c:123-196 | the same for a whole file |
| HexStream.BlankOverruns | hexread.c:127 | 49 spaces overrun the group buffer |
| HexStream.ConvertibleOverruns | hexread.c:127 | so does a text that hex_to_binary converts |
| HexStream.ReadText | hexread.c:123-196 | reading printed text back, group by group |
| HexStream.DumpThenRead | hexread.c:123-196 | dumping then reading restores the file exactly when its length is not a positive multiple of 16 |

## Left out

- VDE pipes, `poll`, process creation, printing and reading stdin: input and output only; what is sent is a log.
- `getrandom` and the modulo bias of `rand_generator`: draws are arbitrary values; that `tcp_seq_generator` avoids its argument is not used.
- `inet_ntop`, `inet_aton` and the printable copies of addresses: conversions of the same four octets.
- `parse_connection_command` and `atoi`: the parsed command is a parameter.
- ARP replies (`arp.c`): straight-line copies.
- Allocation failures: `malloc` succeeds.
- Dropping frames on a failed checksum: those returns are commented out in the source; the computed flags are modelled.
- Frames under 4 octets in `handle_frame`: the code reads in front of its buffer.
- ip_checksum counts that are negative or 2^31 and more: its parameter is an `int` and its callers pass lengths.
- The frames sent over a whole run: they are described packet by packet and line by line.
- TcpExchange.ReplyIsAccepted: of the reply to a plain ACK that carries data it claims validity only, not usefulness; the code leaves the ports unswapped and the payload in place, and the contract says so. A PSH/ACK whose data offset is under 5 is not a TCP header and is left out.
- HexStream.ReadAgreesWithWhole: is about text without NUL characters, because converting the whole of a text as a C string would end at the first of them; `HexRead` covers every input.
- StackRuns.StackConversationTracks: peers that acknowledge less than everything sent so far, or out of order, or whose frames hold more than their datagrams, are outside it; the code adopts whatever numbers arrive, and `AcknowledgesIff` and `ExcessCounts` say what padding does.
- Backoff.Simulate: stops after a given number of slots, because a run of the original need not end, and reports a shift count over 30, which the C code leaves undefined, instead of continuing.
- The size of the collision list in the hub and switch programs: a sequence holds the repeated entries, for which the C allocation of n words is too small.
- The answer of 100 percent for a single device: returned before the modelled loops.
- Rounding of the reported percentages: exact reals.
- Standard-input mode of `hexdump` and `hexread`: the same loops with other buffer sizes.
- Output written before `hexread` rejects its input: only the outcome is modelled.
