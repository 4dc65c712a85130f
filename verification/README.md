# A verified model of sail's timers, UDP flows, packets and lifecycles

sail is a proxy whose user-space network stack is sharded: each shard owns a timer
wheel and a table of UDP flows, and parses and emits IP packets itself. Around that
stand the registry that starts and stops instances, the subscriptions through which a
host hears of events, the handles it holds, and the SOCKS address codec. This project
models those parts in Dafny and proves what they are for.

| files | what they hold |
|---|---|
| `Machine.dfy` | 64-bit arithmetic, and 64-bit words as sets of bits |
| `Firing.dfy` | what a wheel promises, told of a flat map from timer to deadline |
| `WheelLayout.dfy`, `WheelSteps.dfy`, `BitScan.dfy`, `WheelWake.dfy` | where timers wait, what a step does to one, the occupancy scan, the search for the next deadline |
| `TimerWheel.dfy`, `WheelRun.dfy` | the wheel itself, and callers that sleep from deadline to deadline |
| `Checksum.dfy`, `Wire.dfy`, `WireCodec.dfy` | the wide checksum; parsing; emission, round trips and leniency |
| `WireOptions.dfy`, `WireChain.dfy`, `WireFrames.dfy` | what packets are made of, part by part and byte by byte: exactly which are accepted, and as what |
| `WireFaults.dfy` | packets with a byte wrong |
| `UdpModel.dfy`, `UdpRuns.dfy` | the flow table as a value, and properties over every run of it |
| `UdpCalls.dfy`, `UdpAnswers.dfy` | what callers can count on, and what each call answers and leaves, exactly |
| `UdpTable.dfy` | the mutable table, which refines the value |
| `Registry.dfy`, `Subscriptions.dfy` | two concurrent protocols as state machines over atomic steps |
| `RegistryCalls.dfy`, `SubscriptionCalls.dfy` | what their calls answer over every run, and how far each gets when left alone |
| `LogFollow.dfy`, `Handles.dfy`, `Socks.dfy` | log batching, generational handles, SOCKS addresses |

Five claims of the program do not hold as stated. Each has its exact condition here.

- The wheel's documentation bounds early wakes by the levels a timer passes through
  (`sail-netstack/src/timer.rs:145-147`). A timer a whole turn of its level ahead shares
  the current slot, and the search takes it for one that is due: the wheel is blind.
  `WheelWake.SearchEnds` says exactly when it is, `WheelRun.WakeCounts` that a wake
  counts against the bound if and only if it is not, and `WheelRun.Drain` bounds every
  run's wakes by the levels and the blind ones. `WheelRun.SleepInVain` builds a wheel
  that costs over sixteen million blind wakes for one timer.
- A UDP flow can expire before its timeout, at the clock's very last millisecond and
  there only: its deadline saturates. `UdpRuns.ExpiredIdle` gives the condition both
  ways, `UdpRuns.EndOfClock` the failing family, `UdpRuns.EndReached` a run that ends in it.
- A flow the host opens is to hear its remote end under the token given
  (`sail-netstack/src/udp.rs:256-261`). One opened from or to an IPv6 address with a
  scope or flow information never does: it is kept under an address that no packet
  names. `UdpCalls.HeardExactly` is the equivalence, `UdpCalls.ScopedNeverHears` the
  whole failing family, `UdpCalls.ScopedReached` a link-local remote whose answer opens
  a flow of its own.
- For the same reason a packet emitted for such addresses does not parse back to them:
  `WireCodec.RoundTrip` says exactly when it does.
- A SOCKS address does not survive being written and parsed when its domain is longer
  than 255 bytes, as the length byte truncates, or when it has a scope or flow
  information, which are not written. `Socks.RoundTripExact` is the equivalence,
  `Socks.ScopeNotWritten` a link-local address that comes back another.

The wheel, the table, the handle table, the buffers and readers are classes whose
methods update fields, as in the program. Each method is proved against a function of
the old state; the properties are proved of those functions. The two protocols are
state machines: a step is what a thread does between two points where another can
come in.

## Model

| member | source | states |
|---|---|---|
| `BitScan.FirstOccupied` | sail-netstack/src/timer.rs:294-308 | The word-wise scan with its mask answers what a slot-by-slot circular search would: the nearest set bit at or after the start, or none exactly when no bit is set. |
| `BitScan.SetSlotBits` | sail-netstack/src/timer.rs:273-289 | Setting or clearing a bucket's bit changes that bit and no other of the four levels. |
| `WheelLayout.BucketPlaced` | sail-netstack/src/timer.rs:310-323 | A deadline within the horizon goes where the placement invariant wants it: level 0 due in 1 to 255 ticks, a higher level 1 to 256 windows ahead; and a whole turn ahead only inside a window. |
| `WheelLayout.TickUnderway` | sail-netstack/src/timer.rs:195-197 | One tick on, every placed entry is where a cascade about to begin expects it, and one whose bucket comes round is in the current slot. |
| `WheelLayout.SlotBegun` | sail-netstack/src/timer.rs:216-231 | At a window's start, a cascading level's current slot holds exactly the entries whose window has begun; at level 0, exactly those due this tick. |
| `WheelLayout.CascadeDrops` | sail-netstack/src/timer.rs:216-231 | An entry cascaded at its window's start lands at a strictly lower level, and is then never a whole turn ahead. |
| `Firing.InOrder` | sail-netstack/src/timer.rs:234-243 | The reference order: every timer asked for, once, sorted by deadline and then by id. |
| `Firing.OrderUnique` | sail-netstack/src/timer.rs:243 | That order is unique, so whatever sorts the same timers agrees with it. |
| `Firing.FiredThrough` | sail-netstack/src/timer.rs:178-214 | Firing up to a tick and then the rest up to a later one is firing up to the later one: values, order and what is left. |
| `Firing.FiredAt` | sail-netstack/src/timer.rs:198-212 | The ids of one tick's slot in ascending order are what the reference fires at that tick. |
| `WheelSteps.Rebucketed` | sail-netstack/src/timer.rs:225-229 | Re-placing a set of timers changes exactly their buckets; no timer, deadline or value. |
| `WheelSteps.LargeSettled` | sail-netstack/src/timer.rs:233-262 | After the large jump's rebuild every timer left is placed by the invariant, none rose a level, and the flat view is the reference's. |
| `WheelSteps.SettleTicks` | sail-netstack/src/timer.rs:195-213 | Tick by tick, no surviving timer rises, and a sleep to the next event leaves none a whole turn ahead that was not. |
| `TimerWheel.TimerWheel.constructor` | sail-netstack/src/timer.rs:73-86 | A new wheel is valid, empty, and stands at the clock's tick. |
| `TimerWheel.TimerWheel.Schedule` | sail-netstack/src/timer.rs:112-133 | Refused exactly when the deadline lies past the end of the tick 2^32 - 1 ahead, leaving the wheel untouched; else one new timer, for the least tick that begins no earlier than the deadline and is not this one. The wheel stays valid exactly when it is not at the clock's very last tick. |
| `TimerWheel.TimerWheel.ScheduledAhead` | sail-netstack/src/timer.rs:112-115 | The tick a timer is set for is after the current one exactly when the wheel is not at the clock's very last tick; there it is that tick, and no clock value takes the wheel on to fire it. |
| `TimerWheel.TimerWheel.Cancel` | sail-netstack/src/timer.rs:135-139 | Takes out that timer and no other, gives its value exactly when it was live; placement, bucket and bitmap invariants kept. |
| `TimerWheel.TimerWheel.InsertInto` | sail-netstack/src/timer.rs:273-276 | One bucket gains the id; a bit stays set exactly where a bucket is not empty. |
| `TimerWheel.TimerWheel.RemoveFrom` | sail-netstack/src/timer.rs:278-284 | One bucket loses the id; a bit stays set exactly where a bucket is not empty. |
| `TimerWheel.TimerWheel.TakeSlot` | sail-netstack/src/timer.rs:286-289 | One bucket is emptied and returned; a bit stays set exactly where a bucket is not empty. |
| `TimerWheel.TimerWheel.Place` | sail-netstack/src/timer.rs:264-271 | A timer goes into the bucket its deadline calls for now, and its entry says so. |
| `TimerWheel.TimerWheel.CascadeBoundaries` | sail-netstack/src/timer.rs:216-231 | Every level cascades from the top: the same timers, each where it was or lower, none newly a whole turn ahead, and all ready for level 0 to fire. |
| `TimerWheel.TimerWheel.FireAll` | sail-netstack/src/timer.rs:199-212 | Everything in the fired slot is due, so the branch that would put a timer back is never taken; values leave in id order. |
| `TimerWheel.TimerWheel.Tick` | sail-netstack/src/timer.rs:195-213 | One tick fires exactly the timers due at it, in id order, keeps the rest, and keeps the placement invariant. |
| `TimerWheel.TimerWheel.AdvanceTo` | sail-netstack/src/timer.rs:178-214 | For every clock value: refused exactly when it is before the current tick's start in saturated milliseconds, which the error gives, changing nothing; else the wheel stands in the tick the clock is in, and has returned exactly the values due by it, by deadline and id, and kept the others; by ticks and by rebuild alike. |
| `TimerWheel.TimerWheel.LargeAdvance` | sail-netstack/src/timer.rs:233-262 | The rebuild returns the same values in the same order and leaves the same timers as the tick-by-tick path, validly placed. |
| `TimerWheel.TimerWheel.SortDue` | sail-netstack/src/timer.rs:235-243 | The due timers in the unique order by deadline and id. |
| `WheelWake.ScanMeaning` | sail-netstack/src/timer.rs:160-164 | A level's scan tells how many windows ahead its nearest timer is, or 0 when one is a whole turn ahead, or that the level is empty. |
| `WheelWake.ShiftedWindow` | sail-netstack/src/timer.rs:156-160 | The shift that finds the next window's start loses it only past the clock's end, and there no timer is left for the levels still to search. |
| `WheelWake.ShiftedBucket` | sail-netstack/src/timer.rs:166 | The start of the bucket found never overflows. |
| `WheelWake.SearchLevel` | sail-netstack/src/timer.rs:154-168 | One level's turn of the search keeps it right: no later than any event seen, and exact unless a timer of a looked-into level is a whole turn ahead. |
| `WheelWake.SearchEnds` | sail-netstack/src/timer.rs:149-170 | Where the search may stop early, its answer is after now and no later than any timer's next event, and is that event exactly when the wheel is not blind. |
| `TimerWheel.TimerWheel.NextDeadlineMs` | sail-netstack/src/timer.rs:149-170 | None exactly when the wheel is empty; else strictly after the current tick, never later than any live deadline, and exact unless blind. |
| `WheelRun.SleepOnce` | sail-netstack/src/timer.rs:141-170 | A sleep to the answer and an advance there moves the clock on, fires only timers due at exactly that tick, and is a wake that counts or a blind one. |
| `WheelRun.WakeCounts` | sail-netstack/src/timer.rs:141-170 | On any wheel: a blind wake is one tick on and changes no entry; every other wake fires a timer or moves one down. |
| `WheelRun.WakesBound` | sail-netstack/src/timer.rs:141-148 | So over any sequence of wakes, their number is at most the levels passed through and the blind ones. |
| `WheelRun.Drain` | sail-netstack/src/timer.rs:365-406 | Sleeping from answer to answer fires every timer, in order, each at exactly its own deadline. For every wheel, the wakes are at most the levels its timers pass through and the blind wakes among them, of which there are none when no timer is a whole turn ahead at first. |
| `WheelRun.RungsBound` | sail-netstack/src/timer.rs:403-405 | Those are at most four for each timer. |
| `WheelRun.LastShown` | sail-netstack/src/timer.rs:185-189 | The clock's last value takes a wheel to every tick that any value does, and to exactly those that begin before the clock's end; so `Drain` leaves out only timers that cannot fire. |
| `WheelRun.BlindWakes` | sail-netstack/src/timer.rs:149-170 | With that one timer, every answer until tick 2^24 is the very next tick, though nothing happens then. |
| `WheelRun.SleepInVain` | sail-netstack/src/timer.rs:145-147 | A new wheel, one timer scheduled on it, and 16777214 sleeps that leave its entries as they were: the documented bound fails on a wheel anyone can build. |
| `Checksum.OnesSumIsFold` | sail-netstack/src/wire.rs:574-585 | The word-by-word one's-complement sum of section 2 of RFC 1071 is the plain sum of the words, folded once at the end. |
| `Checksum.FoldChecksum` | sail-netstack/src/wire.rs:551-563 | Folding until it fits is the remainder modulo 2^16 - 1, with zero for zero alone. |
| `Checksum.SumWords` | sail-netstack/src/wire.rs:527-538 | Whole 32-bit words in machine order, of either endianness, sum without overflow to the big-endian word sum up to byte order. |
| `Checksum.ChecksumAccumulate` | sail-netstack/src/wire.rs:527-549 | The wide sum folds to the same as the start plus the 16-bit words, for every byte string of fewer than 2^32 words and both byte orders, and stays under 2^19. |
| `Checksum.ChecksumSum` | sail-netstack/src/wire.rs:515-517 | It equals the word-by-word one's-complement sum, from any start. |
| `Checksum.ComplementFolds` | sail-netstack/src/wire.rs:565-567 | Adding the complement of a sum gives all ones. |
| `Wire.ValidateIpv4Options` | sail-netstack/src/wire.rs:186-214 | The loop over offsets stays in bounds, ends, and gives the recursive reference's verdict, error by error. |
| `Wire.ValidateIpv6Options` | sail-netstack/src/wire.rs:326-367 | The same for IPv6 options, with the pointer each problem is reported at. |
| `Wire.ReadExtension` | sail-netstack/src/wire.rs:239-306 | An accepted extension header has a length above zero and lies within the packet, and is a fragment exactly for protocol 44. |
| `Wire.Advance` | sail-netstack/src/wire.rs:233-306 | Each step of the extension walk moves strictly forward and stays within the packet. |
| `WireCodec.ParseIpv6Packet` | sail-netstack/src/wire.rs:216-320 | The loop ends and is the bounded walk over extension headers, on every input. |
| `WireCodec.LenientAccepts` | sail-netstack/src/wire.rs:115-137 | What the strict parse accepts, the lenient one accepts with the same result. |
| `WireCodec.WalkLenient` | sail-netstack/src/wire.rs:216-320 | The same of the extension walk from any point of it. |
| `WireCodec.PaddingIgnored` | sail-netstack/src/wire.rs:115-125 | Bytes appended to an accepted packet of either version change nothing in its parse. |
| `WireCodec.WalkPadded` | sail-netstack/src/wire.rs:216-320 | Bytes past the packet's length change neither the result nor the error of the extension walk. |
| `WireCodec.Ipv4HeaderVerifies` | sail-netstack/src/wire.rs:446-461 | The header's checksum field makes its sum all ones. |
| `WireCodec.UdpSegmentVerifies` | sail-netstack/src/wire.rs:472-486 | The UDP checksum is never zero and verifies, the substitution of RFC 768 included. |
| `WireCodec.Ipv4RoundTrip` | sail-netstack/src/wire.rs:139-184 | An emitted IPv4 header and segment parse, checksum verified, to the same addresses, hop limit and segment. |
| `WireCodec.Ipv6RoundTrip` | sail-netstack/src/wire.rs:216-320 | An emitted IPv6 header and segment parse to the same. |
| `WireCodec.UdpRoundTrip` | sail-netstack/src/wire.rs:383-419 | An emitted segment parses, checksum required and verified, to the same ports, addresses and payload; what an address has beyond the wire's is lost. |
| `WireCodec.RoundTrip` | sail-netstack/src/wire.rs:427-488 | Every packet emitted, of either version, parses strictly and with checksums back to its payload and to the addresses and ports of both ends: to those ends themselves if and only if neither has a scope or flow information. |
| `WireCodec.TransportChecksumSum` | sail-netstack/src/wire.rs:490-513 | The sum by parts, in either byte order, is the one's-complement sum over pseudo-header and segment; zero for mixed address families. |
| `WireCodec.TransportSumIs` | sail-netstack/src/wire.rs:490-513 | Adding addresses, protocol and length as numbers is summing the pseudo-header of RFC 768, or of section 8.1 of RFC 8200, byte for byte before the segment. |
| `WireCodec.EmitUdpPacket` | sail-netstack/src/wire.rs:427-488 | Filling a zeroed buffer in place gives exactly the packet of `Emitted`, and fails exactly where that does, with its error. |
| `WireCodec.FillIpv4Header` | sail-netstack/src/wire.rs:446-461 | The header is complete with its checksum, and the rest of the buffer untouched. |
| `WireCodec.FillIpv6Header` | sail-netstack/src/wire.rs:462-469 | The same for the IPv6 header. |
| `WireCodec.FillUdp` | sail-netstack/src/wire.rs:472-487 | The segment is complete with its checksum, and the header untouched. |
| `WireFaults.Ipv4HeaderFault` | sail-netstack/src/wire.rs:139-184 | One byte changed anywhere in an accepted IPv4 header, its length nibble's byte aside, and the packet is refused. |
| `WireFaults.UdpFault` | sail-netstack/src/wire.rs:383-419 | One byte changed anywhere in an accepted datagram that carries a checksum, its length aside, and it is refused, unless the change leaves an IPv4 one without a checksum. |
| `WireFaults.AddressFault` | sail-netstack/src/wire.rs:490-513 | A datagram that arrives with an address one byte off is refused for its checksum: the pseudo-header at work. |
| `WireFaults.OneByteWrong` | sail-netstack/src/wire.rs:427-488 | An emitted packet of either version with any one byte changed is refused or delivers the very datagram sent, but for the bytes that say what follows and how long the datagram is. |
| `WireFaults.Ipv6StartWrong` | sail-netstack/src/wire.rs:216-232 | A changed class or flow label changes nothing; a changed payload length is always refused. |
| `WireFaults.LengthWrong` | sail-netstack/src/wire.rs:396-409 | A payload for which one changed length byte delivers another datagram, between any two addresses: the checksum does not vouch for its own length. |
| `WireOptions.Ipv4OptionsAre` | sail-netstack/src/wire.rs:186-214 | IPv4 options are accepted if and only if they are whole options followed by zeros. |
| `WireOptions.Ipv6OptionsAre` | sail-netstack/src/wire.rs:326-367 | IPv6 options are accepted if and only if they are whole options, none of which asks for the packet to be dropped where that is enforced; wherever they stand. |
| `WireOptions.FirstDiscard` | sail-netstack/src/wire.rs:346-365 | The first option that asks for a drop is the one reported, at its own offset, with an ICMP error as its top bits and the destination say. |
| `WireFrames.VersionIs` | sail-netstack/src/wire.rs:115-137 | The high half of a packet's first byte is its version, 4 or 6; any other is refused for that. |
| `WireChain.Ipv6Exactly` | sail-netstack/src/wire.rs:216-320 | An IPv6 packet parses, and to what, if and only if it is a fixed header, a chain of whole extension headers and a payload that say so: 8(n + 1) bytes for a length byte n, 4(n + 2) for authentication, 8 for a fragment; hop-by-hop first; one fragment header; segments left zero where that is enforced. |
| `WireChain.SaidIs` | sail-netstack/src/wire.rs:271-312 | What a chain says: the protocol its last header names, the fragment header's own fields, and all that follows that as the fragment's payload. |
| `WireChain.LooksIs` | sail-netstack/src/wire.rs:235-235 | The limit is seven extension headers, or eight that end in a later fragment. |
| `WireChain.Ipv6Refused` | sail-netstack/src/wire.rs:216-320 | It is refused, and for what, if and only if it is cut short, or its headers are whole up to a point and the next is the ninth or cannot be read: with the offsets that an ICMP error points to. |
| `WireFrames.Ipv4Exactly` | sail-netstack/src/wire.rs:139-184 | An IPv4 packet parses, and to what, if and only if it is a whole header with whole options and a good checksum, and the payload it gives the length of; fragment fields by their bits. |
| `WireFrames.Ipv4Refused` | sail-netstack/src/wire.rs:139-184 | What else is refused, for what, in the order of the checks. |
| `WireFrames.UdpExactly` | sail-netstack/src/wire.rs:383-419 | A payload is a datagram, and which, if and only if it is UDP, whole, as long as it says, and its checksum over the pseudo-header verifies or is none where none is allowed. |
| `WireFrames.UdpRefused` | sail-netstack/src/wire.rs:383-419 | What else is refused, for what, in the order of the checks. |
| `WireFrames.DeliveredWhole` | sail-netstack/src/wire.rs:383-396 | What is delivered is UDP and never a fragment; in IPv4 by the very bits. |
| `WireFrames.EmittedBytes` | sail-netstack/src/wire.rs:427-488 | Every byte of an emitted packet of either version: version, lengths, identification, don't-fragment, protocol 17, addresses, ports, checksums that verify, payload. |
| `UdpModel.DueBounds` | sail-netstack/src/udp.rs:546-569 | A flow's deadline in ticks is covered, rounded up by less than a tick, after now and under 2^32 ticks ahead: the wheel never refuses it. |
| `UdpModel.TickCovers` | sail-netstack/src/udp.rs:162-174 | The tick chosen for an idle timeout is the least, of ten milliseconds or more, of which 2^32 - 2 span it. |
| `UdpModel.TimeoutIs` | sail-netstack/src/udp.rs:539-544 | Idle for x milliseconds is idle for the timeout exactly when x is one at least and x + 1 of them, times the divisor, make more than the idle timeout. |
| `UdpModel.ClockForward` | sail-netstack/src/udp.rs:531-553 | Once the table's own clock check passes, the wheel is never asked to go back. |
| `UdpModel.ExpiredKeeps` | sail-netstack/src/udp.rs:550-553 | Expiry keeps the invariant: no surviving flow has been idle for its timeout and a tick. |
| `UdpModel.QuietBefore` | sail-netstack/src/udp.rs:485-489 | While no flow's timer comes up before a tick, the clock may move anywhere short of that tick's start and no flow goes. |
| `UdpRuns.NewTableInv` | sail-netstack/src/udp.rs:153-181 | A new table has the invariant. |
| `UdpRuns.StepKeeps` | sail-netstack/src/udp.rs:201-504 | Ingest, originate, reply, expiry under any pressure, reset and clear keep it: distinct ids, current generation, timers set for the idle deadline rounded up, and no flow idle for its timeout and a tick. |
| `UdpRuns.RebuiltKeeps` | sail-netstack/src/udp.rs:587-605 | So does judging and timing every flow anew by another timeout. |
| `UdpRuns.ExpiredIdle` | sail-netstack/src/udp.rs:539-553 | A flow whose timer comes up has been idle for its timeout if and only if its deadline fits the clock; always so before the clock's last millisecond. |
| `UdpRuns.EndOfClock` | sail-netstack/src/udp.rs:546-548 | Every flow whose deadline saturates is expired too early at the clock's last millisecond. |
| `UdpRuns.EndReached` | sail-netstack/src/udp.rs:285-330 | A run from a new table reaches such a flow: with a timeout of a minute it is gone a millisecond after it was seen. |
| `UdpRuns.StepExpires` | sail-netstack/src/udp.rs:201-483 | In any step, a flow goes only when idle for the idle timeout over the divisor in force, told in milliseconds and products alone, that case aside. |
| `UdpRuns.StepIds` | sail-netstack/src/udp.rs:389-401 | A step gives no flow another's id: a flow keeps its own, a new one's is fresh. |
| `UdpRuns.DeadStaysDead` | sail-netstack/src/udp.rs:389-401 | Over every run, an id whose flow is gone never names a flow again. |
| `UdpRuns.DeadTokenRefused` | sail-netstack/src/udp.rs:417-433 | Over every run, a token whose flow is gone is refused as stale, whatever came after. |
| `UdpRuns.IdKeepsKey` | sail-netstack/src/udp.rs:363-408 | Over every run, an id that is live names the addresses it was given for. |
| `UdpRuns.OriginatedId` | sail-netstack/src/udp.rs:285-330 | A flow opened by the host has the id its packet was built with, at the address asked for or a free port of it. |
| `UdpRuns.ReplyComesBack` | sail-netstack/src/udp.rs:201-254 | Over every run that leaves the flow live, any datagram the parser accepts from the address the flow is kept under to its other one, whoever wrote it and however, comes in under the flow's token with its payload, new flows allowed or not. |
| `UdpRuns.EmittedComesBack` | sail-netstack/src/udp.rs:201-254 | In particular a packet as this codec emits it, between addresses without scope or flow information. |
| `UdpRuns.ScanHitsEach` | sail-netstack/src/udp.rs:334-360 | The scan tries each port of the dynamic range (section 6 of RFC 6335) exactly once, though its 64-bit start wraps. |
| `UdpRuns.ScanFrom` | sail-netstack/src/udp.rs:334-360 | From any offset: a port found is free and usable, and none found means none left. |
| `UdpRuns.ScanComplete` | sail-netstack/src/udp.rs:334-360 | It fails exactly when every such port is taken towards the remote or refused. |
| `UdpCalls.RefusedPasses` | sail-netstack/src/udp.rs:201-450 | An ingest, originate or reply that is refused, for whatever reason, only lets the time pass. |
| `UdpCalls.ClosedAdmitsNone` | sail-netstack/src/udp.rs:201-254 | With new flows off none comes in, and a packet is refused for that exactly when it is good and not of a live flow. |
| `UdpCalls.IngressIs` | sail-netstack/src/udp.rs:201-254 | What comes in is what the packet delivers, under the token of a live flow of those addresses, just seen. |
| `UdpCalls.FitsExactly` | sail-netstack/src/wire.rs:427-442 | A packet is emitted exactly for one address family and at most 65507 bytes, 65527 for IPv6; and then delivers its payload. |
| `UdpCalls.LiveReply` | sail-netstack/src/udp.rs:417-450 | A live flow's token is good for a reply exactly when the payload fits; the reply delivers it to the flow's source, as the wire names it, and renews that flow alone. |
| `UdpCalls.AnswerReaches` | sail-netstack/src/udp.rs:417-450 | Over every run, an answer to what came in, while its flow lives, reaches the sender from the address it sent to. |
| `UdpCalls.HeardExactly` | sail-netstack/src/udp.rs:256-330 | Over every run that leaves an opened flow live, what its remote end sends comes in under the token given if and only if neither end has a scope or flow information. |
| `UdpCalls.ScopedNeverHears` | sail-netstack/src/udp.rs:201-254 | Over every run, nothing that comes in ever has the id of a flow kept under such an address. |
| `UdpCalls.ScopedReached` | sail-netstack/src/udp.rs:285-330 | A flow to a link-local remote, whose answer is refused with new flows off and else opens a second flow. |
| `UdpCalls.ResetRefuses` | sail-netstack/src/udp.rs:491-504 | Over every run after a reset, a token given before it is refused as stale, even if the generation is the same. |
| `UdpCalls.PressureJudges` | sail-netstack/src/udp.rs:470-483 | When the divisor changes, exactly the flows idle for the idle timeout over it, told in products alone, go at once; the rest keep ids and times, and the answer counts those gone. |
| `UdpAnswers.AddressesAre` | sail-netstack/src/wire.rs:88-111 | Which addresses a flow may have at either end, by their bytes. |
| `UdpAnswers.GoodExactly` | sail-netstack/src/udp.rs:209-231 | A packet is good exactly when it delivers a datagram between such addresses; it is refused for its address exactly when it delivers one between others. |
| `UdpAnswers.IngestExactly` | sail-netstack/src/udp.rs:201-254 | A packet is let in exactly when it is good, its flow is live or new ones are allowed, and there is room; each refusal has its exact condition. |
| `UdpAnswers.IngestLeaves` | sail-netstack/src/udp.rs:201-254 | Let in, its one flow is seen now, with its own id or the next; every other flow is as the time left it; the token names that flow. |
| `UdpAnswers.LocalIs` | sail-netstack/src/udp.rs:334-360 | The local address is the one asked for; with port 0, it is on the same address with a port of 49152 or more that is usable and free towards the remote, and none only when none is left. |
| `UdpAnswers.OriginateExactly` | sail-netstack/src/udp.rs:285-330 | A payload is sent exactly when the addresses can carry a flow, a port is left, it fits, and there is a flow or room for one; each refusal has its exact condition. |
| `UdpAnswers.OriginateLeaves` | sail-netstack/src/udp.rs:285-330 | Sent, its one flow is seen now, from the right local address, and the packet is the one emitted with that flow's id. |
| `UdpAnswers.ReplyExactly` | sail-netstack/src/udp.rs:417-450 | A token is refused as stale exactly when it is of another generation or shard or its flow is gone; a good one sends exactly what fits. |
| `UdpAnswers.ReplyLeaves` | sail-netstack/src/udp.rs:417-450 | A reply sent is the packet emitted with its flow's id, and that flow alone is seen now. |
| `UdpAnswers.LiveFresh` | sail-netstack/src/udp.rs:550-569 | No live flow has been idle for its timeout and a tick. |
| `UdpAnswers.PressureStays` | sail-netstack/src/udp.rs:470-483 | Expiry fails only for a clock that goes back; with the divisor as it was it is what the time makes of the flows, and counts those gone. |
| `UdpAnswers.GenerationKept` | sail-netstack/src/udp.rs:491-504 | Over every run without a reset, the generation stays. |
| `UdpAnswers.ResetRenames` | sail-netstack/src/udp.rs:491-497 | After a reset there is no flow, ids go on, and every token given until the next is of the new generation. |
| `UdpTable.ExpiredMatched` | sail-netstack/src/udp.rs:550-585 | Removing the flows whose timers fired leaves flows and timers matched one to one, and the flows the model has. |
| `UdpTable.KeyOfId` | sail-netstack/src/udp.rs:426-433 | The id map finds a flow exactly when one has that id. |
| `UdpTable.UdpTable.constructor` | sail-netstack/src/udp.rs:153-181 | A new table is valid and is the model's empty one. |
| `UdpTable.UdpTable.RemoveExpired` | sail-netstack/src/udp.rs:571-585 | Exactly the told flows go, from both maps and with their leases; the count is of those that went. |
| `UdpTable.UdpTable.UpdateTime` | sail-netstack/src/udp.rs:531-537 | The clock moves exactly when it does not go back. |
| `UdpTable.UdpTable.ExpireDue` | sail-netstack/src/udp.rs:550-553 | The wheel comes to the table's clock without an error, and the table becomes the model's expired one. |
| `UdpTable.UdpTable.ScheduleExpiry` | sail-netstack/src/udp.rs:555-569 | One new timer at the deadline's tick, and no wheel error escapes. |
| `UdpTable.UdpTable.Refresh` | sail-netstack/src/udp.rs:366-370 | The new timer takes over, the old one is gone, the flow keeps its id; maps inverse, timers matched, leases as before. |
| `UdpTable.UdpTable.Admit` | sail-netstack/src/udp.rs:371-404 | Granted, a flow in both maps with its timer and leases; refused at either lease, no timer, flow or lease is left behind. |
| `UdpTable.UdpTable.TouchOrAdmit` | sail-netstack/src/udp.rs:363-408 | Answer and new table are the model's, with the maps inverse, timers and flows matched and leases equal to live flows. |
| `UdpTable.UdpTable.IngestWithPolicy` | sail-netstack/src/udp.rs:201-254 | The same of ingest: every error in its order, and the table as the model leaves it even on errors. |
| `UdpTable.UdpTable.EphemeralLocal` | sail-netstack/src/udp.rs:334-360 | The loop finds the port the model's scan does. |
| `UdpTable.UdpTable.OriginateUsing` | sail-netstack/src/udp.rs:285-330 | The same of originate. |
| `UdpTable.UdpTable.EmitReply` | sail-netstack/src/udp.rs:417-450 | The same of replies. |
| `UdpTable.UdpTable.RebuildExpiry` | sail-netstack/src/udp.rs:587-605 | Every flow is judged once by the new timeout: idle ones told, each other given a timer of a new wheel, and that wheel holds no other. |
| `UdpTable.UdpTable.ExpireIdleUnderPressure` | sail-netstack/src/udp.rs:470-483 | The same of expiry under pressure, its count included. |
| `UdpTable.UdpTable.NextDeadlineMs` | sail-netstack/src/udp.rs:485-489 | None exactly when no flow lives; else a time still to come, unless the clock is at its end, no later than any flow is due, and before which no expiry removes a flow. |
| `UdpTable.UdpTable.ResetNetwork` | sail-netstack/src/udp.rs:491-497 | The table is the model's reset one: no flow, timer or lease, another generation, ids going on. |
| `UdpTable.UdpTable.Clear` | sail-netstack/src/udp.rs:499-504 | The same, keeping the generation. |
| `Registry.StepKeeps` | sail/src/lib.rs:1599-1665 | Every atomic step of every start, stop and waiter keeps the invariant: locks held by who stands where it holds them, maps holding exactly the registered starts, no told start committed, no waiter forgotten. |
| `Registry.RunInv` | sail/src/lib.rs:2286-2304 | So it holds in every state of every interleaving. |
| `Registry.StopNotLost` | sail/src/lib.rs:2694-2712 | In every interleaving, an id is never both starting and running, and the start a stop was told of is one of the id asked for and never becomes a run, before or after. |
| `Registry.StopDelivered` | sail/src/lib.rs:1518-1523 | A stop that returned true by a run's one-place channel went to a committed run of the id asked for; and ever after, that run is on its way out, or has a stop in its channel that it can take. |
| `Registry.ToldNoneOnly` | sail/src/lib.rs:1650-1665 | A stop that found no run settles on no exactly when the id is in neither map at that moment. |
| `Registry.ToldNoneExactly` | sail/src/lib.rs:1650-1665 | In every interleaving, a stop answers no if and only if it went on from a moment when there was nobody to tell: the id in neither map, or the run it found no longer taking stops. |
| `Registry.EndsOwn` | sail/src/lib.rs:2788-2795 | An ending run finds its own entry and removes that alone. |
| `Registry.NoWaiterLost` | sail/src/lib.rs:1607-1626 | Once the stop has notified, no waiter on that start is left asleep, wherever the two interleaved. |
| `Registry.NoDeadlock` | sail/src/lib.rs:1628-1635 | The lock order leaves no deadlock: a call that has not returned can go on, or the holder of a lock can. |
| `RegistryCalls.InUseExactly` | sail/src/lib.rs:2286-2296 | In every interleaving, a start answers that its id is in use if and only if it went to claim it at a moment when the id was starting or running. |
| `RegistryCalls.ClaimedExactly` | sail/src/lib.rs:2286-2296 | And it makes the id its own if and only if it was free then. |
| `RegistryCalls.RunsExactly` | sail/src/lib.rs:2694-2712 | In every interleaving, a start becomes a run if and only if no stop had been told to it as it committed. |
| `RegistryCalls.FlaggedExactly` | sail/src/lib.rs:1607-1612 | A start is told to stop by a stop of its own id and by nothing else. |
| `RegistryCalls.ClosedExactly` | sail/src/lib.rs:1518-1523 | A run's channel takes no more stops if and only if the run has closed it. |
| `RegistryCalls.WokenAreTold` | sail/src/lib.rs:1618-1626 | Whoever waited for a start to be told and woke waited for one that was. |
| `RegistryCalls.OthersGo` | sail/src/lib.rs:2286-2304 | A call's own steps alone move it, but that a start may fail and a run take a stop; a new one stands at its beginning. |
| `RegistryCalls.GoNearer` | sail/src/lib.rs:1650-1665 | Every step of its own brings a call nearer to its return: nine of them at most. |
| `RegistryCalls.StartsAlone` | sail/src/lib.rs:2286-2304 | From any state, a start of a free id left alone runs after five steps, and changes nothing else. |
| `RegistryCalls.StopTells` | sail/src/lib.rs:1650-1665 | A stop of a starting id left alone has told the start and every waiter after five. |
| `RegistryCalls.StartDeclines` | sail/src/lib.rs:2694-2712 | A start so told is over after five, out of the map, and never ran. |
| `RegistryCalls.StopSends` | sail/src/lib.rs:1518-1523 | A stop of a running id left alone has sent to the run after two. |
| `RegistryCalls.RunEnds` | sail/src/lib.rs:2788-2795 | A run takes it and is over after three more, its id free again. |
| `Subscriptions.StepKeeps` | sail-ffi/src/events.rs:195-396 | Every atomic step of subscribe, unsubscribe, delivery and close keeps the invariant over threads, log and calls. |
| `Subscriptions.RunInv` | sail-ffi/src/events.rs:195-396 | So it holds in every state of every interleaving. |
| `Subscriptions.UnsubscribedIsSilent` | sail-ffi/src/events.rs:378-396 | Once an unsubscribe made off the events thread returns, the release has run, exactly once and after the last callback, and nothing of the subscription follows. |
| `Subscriptions.NeverCalledAgain` | sail-ffi/src/events.rs:378-396 | Once any unsubscribe returns, also one made on the events thread, whose release may be still to come, no callback of that subscription ever follows. |
| `Subscriptions.EndedReleasesAll` | sail-ffi/src/events.rs:195-209 | When the events thread has ended, every subscription was released exactly once, after its last callback. |
| `Subscriptions.ClosedIsSilent` | sail-ffi/src/events.rs:195-209 | Every close made off the events thread, the first or one that had to wait for it, returns once the thread has ended, with every subscription released exactly once; no callback of any ever follows. |
| `Subscriptions.InsideNeverWaits` | sail-ffi/src/events.rs:378-396 | A call made on the events thread, inside a callback or a release, never waits, so never on itself. |
| `Subscriptions.WaitEnds` | sail-ffi/src/events.rs:378-396 | While an unsubscribe waits, the events thread has a step to take. |
| `Subscriptions.AskedGoesOn` | sail-ffi/src/events.rs:169-173 | Once asked to end, the events thread has a step to take until it has ended. |
| `Subscriptions.JoinEnds` | sail-ffi/src/events.rs:195-209 | While a close waits for the events thread to end, that thread has a step to take. |
| `SubscriptionCalls.NoSuchExactly` | sail-ffi/src/events.rs:378-396 | In every interleaving, an unsubscribe answers that there is no such subscription if and only if the handle named none as it went to remove it. |
| `SubscriptionCalls.OnlyEntered` | sail-ffi/src/events.rs:361-365 | A handle names a subscription only once its subscribe has entered it. |
| `SubscriptionCalls.NamedUntilTaken` | sail-ffi/src/events.rs:361-365 | From then on it does, until an unsubscribe or a close comes to take it out. |
| `SubscriptionCalls.FirstFinds` | sail-ffi/src/events.rs:378-396 | So the first unsubscribe of a subscription no close came to finds it, and goes on to silence it. |
| `SubscriptionCalls.ListedExactly` | sail-ffi/src/events.rs:363-364 | A subscription is on the instance's list if and only if its subscribe put it there and no close has taken the list since. |
| `SubscriptionCalls.OutIsHushed` | sail-ffi/src/events.rs:195-200 | What was entered and is out of the table is silenced, or about to be. |
| `SubscriptionCalls.OneTaker` | sail-ffi/src/events.rs:378-383 | In every interleaving, one call at most has taken a subscription out of the table and is about to silence it. |
| `SubscriptionCalls.ClosedNamesNone` | sail-ffi/src/events.rs:195-209 | Once a close has returned, no handle names what was on the list it took, and each of those is silenced or taken by a call that is about to. |
| `SubscriptionCalls.InsideCloseSilences` | sail-ffi/src/events.rs:193-209 | After a close made on the events thread returns, no callback of those it silenced follows. |
| `SubscriptionCalls.ClosedAsks` | sail-ffi/src/events.rs:195-209 | In every interleaving, once any close has returned the events thread has been asked to end, and has ended or has a step to take. |
| `SubscriptionCalls.AskedExactly` | sail-ffi/src/events.rs:163-209 | In every interleaving, the events thread is asked to end by a close alone, and ends for no other reason. |
| `SubscriptionCalls.OthersGo` | sail-ffi/src/events.rs:195-396 | A call's own steps alone move it, and a new one stands at its beginning. |
| `SubscriptionCalls.GoNearer` | sail-ffi/src/events.rs:195-209 | Every step of its own brings a subscribe, an unsubscribe or a close nearer to its return. |
| `SubscriptionCalls.SubscribeAlone` | sail-ffi/src/events.rs:361-365 | Left alone, a subscribe returns after three steps with its handle good and listed. |
| `SubscriptionCalls.DeliverAlone` | sail-ffi/src/events.rs:242-253 | An event for an active subscription is one callback and changes nothing else. |
| `SubscriptionCalls.UnsubscribeAlone` | sail-ffi/src/events.rs:378-388 | Left alone, an unsubscribe has silenced and aborted after three steps, and returned if on the events thread. |
| `SubscriptionCalls.ReleaseAlone` | sail-ffi/src/events.rs:260-268 | Elsewhere it returns once the task's end has run the release. |
| `LogFollow.Follow` | sail-ffi/src/events.rs:728-791 | However many batches the sink takes, a host that drops its lines on a reset and appends each batch holds, after every batch, exactly what it should of the items read; batches after the first have at most 256 lines, hold what was there at once, and end only when full or when nothing more is there; every missed count is reported once; all that came is read. |
| `LogFollow.AwaitItem` | sail-ffi/src/events.rs:754-755 | Waiting skips only items that change nothing. |
| `LogFollow.HeldUncleared` | sail-ffi/src/events.rs:728-791 | Without a clear, a host holds what it began with and every line of the level since. |
| `LogFollow.HeldSinceClear` | sail-ffi/src/events.rs:728-791 | After a clear, it holds exactly the lines of the level since the last one. |
| `LogFollow.HeldThrough` | sail-ffi/src/events.rs:728-791 | Batching makes no difference: items taken in two parts leave the host with the same lines. |
| `Handles.HandleSplits` | sail-ffi/src/handles.rs:82-95 | A handle is nonzero, and decodes to its slot and generation in tables of its tag and to nothing in others. |
| `Handles.HandleIs` | sail-ffi/src/handles.rs:82-85 | The bits of a handle: the tag on top, the generation in the next 31, the slot from one in the low 32. |
| `Handles.OrBits` | sail-ffi/src/handles.rs:82-85 | The bits of either: what a slot number past 32 bits does to the generation. |
| `Handles.SplitIsHandle` | sail-ffi/src/handles.rs:82-95 | And is the only handle that does. |
| `Handles.GenerationSteps` | sail-ffi/src/handles.rs:70 | The generation after n removals is 1 + n modulo 2^31 - 1, and each removal changes it. |
| `Handles.Table.Insert` | sail-ffi/src/handles.rs:37-51 | While the slot's number fits 32 bits, the handle named nothing before and the value now, and every other handle names what it did; past that, no handle names the value. The free list holds exactly the empty slots, without repeats, and a new slot is made only when there is none. |
| `Handles.Table.Get` | sail-ffi/src/handles.rs:53-59 | What the handle names, if anything. |
| `Handles.Table.Remove` | sail-ffi/src/handles.rs:61-73 | Gives what the handle named and leaves it naming nothing; every other handle names what it did. |
| `Handles.Table.NamesUntilWrap` | sail-ffi/src/handles.rs:53-73 | A handle given after some removals of its slot resolves exactly when the slot is full and a multiple of 2^31 - 1 removals has passed: so not again until that many. |
| `Socks.WriteParses` | sail/src/session.rs:982-1025 | For both wire orders, an encoding has exactly the size told, and parses back, whatever follows it, to the address without scope and flow information. |
| `Socks.EncodedAs` | sail/src/session.rs:982-1025 | The bytes of each kind of address in both orders: types 1, 4 and 3 with the port last, 1, 3 and 2 with it first. |
| `Socks.RefusedExactly` | sail/src/session.rs:1171-1258 | Each refusal has its exact condition: an unknown type, too few bytes for the address begun, a name that is not UTF-8. |
| `Socks.RoundTripExact` | sail/src/session.rs:982-1025 | Write then parse is the identity if and only if a domain has at most 255 bytes and an address neither scope nor flow information. |
| `Socks.ScopeNotWritten` | sail/src/session.rs:982-1025 | A link-local address with its scope comes back without it. |
| `Socks.ParsedIsEncoded` | sail/src/session.rs:1171-1258 | What parses is the encoding of the result: no two encodings of one address. |
| `Socks.NoPrefixParses` | sail/src/session.rs:1171-1258 | No proper prefix of an encoding parses. |
| `Socks.ParseHost` | sail/src/session.rs:1171-1258 | An accepted host leaves room for what must follow it in the buffer. |
| `Socks.HostThenPort` | sail/src/session.rs:1171-1258 | Asking for the port's room early or late accepts the same inputs. |
| `Socks.WriteBuf` | sail/src/session.rs:982-1025 | Appends exactly the encoding, port first or last (section 5 of RFC 1928). |
| `Socks.ReadFrom` | sail/src/session.rs:1027-1076 | The stream reader gives what `ReadResult` says, errors included, and takes exactly an accepted address's bytes. |
| `Socks.ReadsAsParsed` | sail/src/session.rs:1027-1076 | Stream reader and buffer parser accept the same inputs with the same result, and differ in the error exactly when a name that is not UTF-8 lacks its port. |

## Left out

- TimerWheel.TimerWheel.Schedule: timer ids do not wrap, so fewer than 2^64 timers are ever scheduled on a wheel.
- TimerWheel.TimerWheel.SortDue: picks the first of what is left each time, where the program sorts a vector; the order is the same because it is unique.
- UdpTable.UdpTable.Admit: flow ids do not wrap, so fewer than 2^64 flows are ever admitted to a table.
- UdpTable.UdpTable.TouchOrAdmit: the ledger and the slab chain for payloads are flags that say whether each charge is granted, with counters of what the table holds; their own books are not modelled.
- Handles.Table.Insert: a table holds at most 2^62 slots, more than a vector can.
- Socks.ReadFrom: an error is its cause, too few bytes, a bad type or a bad name; its text and `io::ErrorKind` are not modelled.
- WireCodec.TransportChecksumSum: segments of nearly 2^32 bytes, where the 32-bit start of the sum could overflow.
- Checksum.ChecksumAccumulate: byte strings of 2^32 words or more, where the 64-bit sum could overflow.
- UDP statistics and `has_quoted_reply`.
- The ephemeral scan's hashed start is an arbitrary 64-bit number, and its caller's `usable` an arbitrary predicate on ports.
- IPv6 pointers are numbers: the check that an offset fits 32 bits never fails for packets of at most 65575 bytes.
- UTF-8 validity of a SOCKS domain is an arbitrary predicate on its bytes.
- In the registry, `forget`, which is for runs that have unwound; what a start builds and a run tears down; and that a thread that can go on does.
- In the subscriptions, what each kind of event holds and how it is produced; that the events thread, with a step to take, takes it; and the short waits for mutexes, so that the model has more interleavings than the program.
- Log lines are a level and a text; colour, targets and time stamps are not kept apart.
- Reloading, network following, signals, sessions and associations, the C interface beyond subscriptions and handles, metrics and traces: orchestration, wrappers or easy members.
