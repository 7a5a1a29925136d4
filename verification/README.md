# Radio data path: a verified model

A Dafny model of the radio component's data path, from ground datagrams to packets on the flight
software bus and back, with proofs about it.

- **Wire protocol** (`Bytes`, `Protocol`, `Device`, `Commands`): commands, receive replies and
  housekeeping as the flight side builds and parses them (shared/radio_device.c) and as the simulated
  radio parses and builds them (sim/radio_sim.c), proved to be two halves of one protocol.
- **Simulated radio** (`Ring`, `Radio`, `Simulator`, `Schedules`, `Invariants`, `Interrupt`, `Modes`):
  the circular receive buffer and the handlers as classes updated in place, each tied to a function on
  a state whose buffer is a queue; then a state machine of the two threads at the granularity of locked
  sections, and what holds over every schedule.
- **Uplink** (`TcFrames`, `SpacePackets`, `Uplink`, `Streams`, `Chunking`, `Polls`, `Formats`): the
  1024-byte accumulator, the in-place frame splitter with resynchronisation, the search for command
  packets, whole polls, and frames and packets built field by field as the CCSDS formats say.
- **Whole uplink** (`EndToEnd`, `Pipeline`, `Losses`, `Telecommands`): the real halves against each
  other, and whole-run theorems over every interleaving of datagrams, radio ticks and receive attempts,
  from telecommands on the ground to messages on the bus.
- **Downlink** (`Packing`, `Downlink`, `DownlinkResults`, `DownlinkRuns`, `GroundTotals`): the nested
  packing loops with the held packet and with packets arriving meanwhile; optimality of the packing,
  exact losses and exact termination of a poll; then runs of enqueues and polls, each frame carried to
  the ground over the link or lost, and what of it the radio counts and reports.

`dafny verify dfyconfig.toml` checks everything.

## How to read it

Code that updates fields or buffers is a class or a method with loops; its `ensures` equates the new
state with a function of the old one, and the theorems are lemmas about these functions. Bytes are
integers 0..255; shifts and masks of unsigned values are written as division and remainder, and every
wrap-around (8, 16 and 32 bits) is explicit. Buffer size and interrupt threshold are parameters, as
they are configuration in the source.

Nothing outside the repository is assumed beyond these points:

- The SPI driver delivers a written command whole, and a read of n bytes brings back at most n. What
  it returns is otherwise arbitrary (`SpiAnswer`); the radio answers a receive request within one tick.
- `Crypto_TC_ProcessSecurity` overwrites only bytes of its own frame, and returns an arbitrary status
  and a PDU of at most 65535 octets (its length is 16 bits wide). Its answer may depend on the frame
  and on all the frames it has seen before.
- The TM library: starting a frame gives a fixed free capacity, adding a packet smaller than the free
  space takes its size off, completing a frame makes it not ready; these calls succeed. Synchronising
  a frame may fail.
- A receive request leaves room for its reply in the radio's 4096-byte buffer, and in the flight
  side's 2048-byte buffer; the flight side asks for at most 1024 bytes.
- The flight side is the only SPI master and issues RECEIVE only from the uplink service.

In `Schedules` a step whose thread is elsewhere does nothing, so every list of steps is a schedule.
A poll of the uplink is a run of `Attempt` moves; `Uplink.UplinkService.ServiceUplink` shows that the
loop makes its attempts until one fails.

## Where the code departs from its documents, or from what one might expect

The model follows the code.

- README.md lists "bytes in transmit buffer" in the housekeeping reply; the code sends no such field
  and the reply has 22 bytes.
- shared/radio_device.h gives two-byte header and trailer (0xABAC, 0xADAB), a one-byte payload length
  and a one-byte receive payload; the code uses 0xAA, 0x11, two bytes and two bytes.
- README.md says the interrupt line tells that a buffer is half full. The code drives the pin to 1 on
  both edges of the flag, and to 0 at the end of a power-off even if a late datagram has set the flag.
  So the pin may stay high over an empty ring (`Interrupt.PinStaysHigh`), or low over a filled one
  (`Interrupt.PinStaysLow`). `Interrupt.PinAgreesExactly` says, over every run, when pin and flag
  agree, and `Interrupt.PinFollowsExactly` when the pin tells whether the ring is filled. The flag
  `interrupt_asserted` does track the ring, on the safe side between updates.
- The housekeeping repeats the configured mode always, but the four other settings only until a
  power-off, which clears the settings and not their copies: `Commands.MirrorsOverRunsExactly`.
- Whether the outcome of a byte stream depends on how receives cut it: it may, because
  resynchronisation looks only at what is buffered. `Chunking.ChunkingIndependentExactly` says when it
  does not; for streams of well-formed frames it never does.
- A datagram may land in the ring of a radio that has just been switched off and flushed, because
  power is tested outside the lock: `Invariants.LateCommitExactly`.
- A downlink poll does not end while a packet as large as an empty frame's free space is among the
  first to be placed: the packet is held for ever and idle frames go out, unless a synchronisation
  fails (`DownlinkResults.TerminatesExactly`, `EndsExactly`, `OversizedHeldForEver`).
- A downlink poll whose frame cannot be synchronised loses that frame's packets and the held packet
  (`DownlinkResults.LossExactly`).
- A frame written to a radio that is off, or in a mode that does not transmit, is lost, yet the flight
  side counts it as sent: its status is the SPI driver's alone (`DownlinkRuns.SendOverLink`,
  `DownlinkRuns.ReachesExactly`).

## Model

| member | source | states |
|---|---|---|
| Protocol.CommandRoundTrip | shared/radio_device.c:130-146 | every built command, with any bytes after it, is decoded by the radio to the same code and payload |
| Protocol.AcceptedExactlyEncodings | sim/radio_sim.c:242-282 | a byte string parses as a command if and only if some prefix of it is a command as the flight side builds it |
| Protocol.SelfDelimiting | shared/radio_device.c:130-146 | no command's bytes are a proper prefix of another's, and equal bytes mean equal commands |
| Protocol.CommandOctets | shared/radio_device.c:130-146 | the octets of a command one by one: 0xAA, code, 16-bit length most significant octet first, payload, 0x11 |
| Protocol.ReplyRoundTrip | sim/radio_sim.c:342-376 | the radio's zero-padded reply to a request decodes to exactly the payload it frames |
| Protocol.ReplyAcceptedExactly | shared/radio_device.c:318-376 | a reply yields a payload if and only if the payload is no longer than requested and its frame is a prefix of the reply |
| Protocol.ReplyOctets | sim/radio_sim.c:342-363 | the octets of a receive reply one by one, zeros after the trailer included |
| Protocol.HkRoundTrip | sim/radio_sim.c:179-213 | for all field values the 22-byte reply parses back to the same counter, six byte fields and three 32-bit totals |
| Protocol.HkOctets | sim/radio_sim.c:179-213 | each housekeeping field at its octets, most significant first |
| Protocol.HkDecodedIsEncoded | shared/radio_device.c:212-229 | an accepted housekeeping reply is, octet by octet, the encoding of what was read from it, so no byte is ignored |
| Device.CommandDevice | shared/radio_device.c:112-166 | oversized payloads write nothing; otherwise the wire bytes are the encoding, also for a missing payload, and success means the driver wrote them all |
| Device.ReadInto | shared/radio_device.c:321-332 | a read fills the buffer with what the driver brought back, at most the bytes asked for |
| Device.CheckReply | shared/radio_device.c:325-367 | the sequence of checks on a reply accepts exactly the decodable ones and finds the payload |
| Device.ReceiveData | shared/radio_device.c:292-377 | on success exactly the decoded payload is written at the given place, nothing else changes and its length is returned; on failure nothing changes |
| Device.ParseHk | shared/radio_device.c:212-229 | the field-by-field parsing of a 22-byte reply decodes it, or fails on its header or trailer |
| Device.RequestHk | shared/radio_device.c:171-241 | the request's bytes, and the decoded reply or a failure for every behaviour of the driver |
| Device.SendData | shared/radio_device.c:269-287 | a frame of at most 2043 bytes goes out as the encoding of a send command |
| Ring.Push | sim/radio_sim.c:129-133 | one write step appends to the queue, across wrap-around |
| Ring.Pop | sim/radio_sim.c:146-150 | one read step removes the oldest element, across wrap-around |
| Ring.RxRing.GetCount | sim/radio_sim.c:104-114 | the count computed from the indices is the queue's length, always below the size |
| Ring.RxRing.Write | sim/radio_sim.c:119-136 | appends exactly the longest prefix that fits in size minus one, and returns its length |
| Ring.RxRing.Read | sim/radio_sim.c:141-153 | returns and removes exactly the first min(max, count) bytes and writes nothing else |
| Ring.RxRing.Flush | sim/radio_sim.c:501-502 | resetting both indices empties the queue |
| Radio.ReceiveRoundTrip | sim/radio_sim.c:331-378 | for every request and queue, the flight side reads the reply as exactly the first min(requested, available) bytes, and the queue loses exactly those |
| Simulator.RadioSim.UpdateInterrupt | sim/radio_sim.c:80-99 | the update's effect on flag and pin |
| Simulator.RadioSim.CommitDatagram | sim/radio_sim.c:58-62 | the locked section stores what fits, counts all bytes mod 2^32 and updates the interrupt |
| Simulator.RadioSim.TakeSnapshot | sim/radio_sim.c:292-296 | the locked snapshot copies the count and both totals into the housekeeping |
| Simulator.RadioSim.SendHousekeeping | sim/radio_sim.c:170-220 | the reply carries the housekeeping with the buffer count read afresh |
| Simulator.RadioSim.FinishHkRequest | sim/radio_sim.c:297-298 | the reply carries the counter from before the command is counted |
| Simulator.RadioSim.BuildReply | sim/radio_sim.c:342-363 | the reply buffer holds the framed head of the queue followed by zeros only |
| Simulator.RadioSim.AnswerReceive | sim/radio_sim.c:331-378 | for requests of at most 4092 bytes: the reply has requested + 4 bytes and carries, and removes, the first min(requested, available) queued bytes |
| Simulator.RadioSim.ParseSpi | sim/radio_sim.c:258-282 | the checks, in the code's order, accept and decode exactly the parsable commands |
| Commands.CodesDecide | sim/radio_sim.c:285-422 | what the commands numbered 0 to 4, and any other, make of a powered radio: response, bytes returned, bytes removed |
| Simulator.RadioSim.Dispatch | sim/radio_sim.c:285-422 | what each command does before it is counted, wrong payload lengths and unknown codes included, receive requests above 4092 bytes excluded |
| Simulator.RadioSim.HandleSpiCommand | sim/radio_sim.c:230-426 | the handler's whole effect and answer for every power level and every byte string but receive requests above 4092 bytes |
| Simulator.RadioSim.FlushBuffers | sim/radio_sim.c:500-506 | the locked part of a power-off |
| Commands.AcceptsExactly | sim/radio_sim.c:242-282 | a powered radio accepts exactly strings with an encoded command as prefix; a rejected string changes nothing; each accepted command is counted once |
| Commands.ConfigReadBack | sim/radio_sim.c:300-316 | settings written are read back by housekeeping, each in its own field, with the counter advanced and the current totals |
| Commands.ModeOverRuns | sim/radio_sim.c:303-316 | in every state of every run, power-offs included, the reported mode is the configured one |
| Commands.MirrorsOverRunsExactly | sim/radio_sim.c:303-316 | in every state of every run the four other settings are mirrored if and only if no power-off has cleared them, or since the last clear a configuration command of the right length was executed, or the four mirrors were zero at that clear |
| Commands.NextSettings | sim/radio_sim.c:509-510 | a step mirrors the settings (a configuration command), clears them, which leaves them mirrored if and only if the mirrors were zero, or changes neither settings nor mirrors |
| Invariants.ByteConservation | sim/radio_sim.c:54-63 | in every run, power-off races included: ingested = served + queued + dropped + flushed, and stored bytes leave in order |
| Invariants.NoMissedSignal | sim/radio_sim.c:80-99 | with a positive threshold, in every state between critical sections a filled buffer has the flag asserted |
| Invariants.ReportedTotals | sim/radio_sim.c:291-298 | every housekeeping reply of every run parses and carries the snapshot's exact totals mod 2^32, and a fresh buffer count never below the snapshot's |
| Invariants.ServedExactly | sim/radio_sim.c:335-378 | every receive reply of every run gives the flight side exactly the head of the queue, which is what was stored and not yet removed |
| Losses.IngestExactly | sim/radio_sim.c:119-136 | a datagram that fits is appended whole; of any other just the beginning that makes the ring full; all its bytes are counted |
| Losses.LosslessExactly | sim/radio_sim.c:58-62 | a run loses no byte if and only if every datagram fits when it is committed and every flush finds the ring empty |
| Modes.ArrivedIsIngested | sim/radio_sim.c:41-63 | in every run the bytes ingested, and then the datagram on its way, are exactly those of the datagrams that came while the radio was on, in mode 2 or 3 and its thread waiting, in order |
| Modes.PowerOverRuns | sim/radio_sim.c:490-499 | in every state of every run the power level is that of the last write that took effect |
| Modes.ConfigOverRuns | sim/radio_sim.c:303-316 | in every state of every run the configuration is the one last set: mode 3 and zeros at first, the payload of a configuration command, all zero after a power-off; the reported mode with it |
| Modes.SleepsUntilConfigured | sim/radio_sim.c:509-510 | after a power-off, until a configuration command of the right length is executed: both modes are 0, a datagram changes nothing and nothing is sent to ground |
| Modes.ModeDecides | sim/radio_sim.c:55-56 | after a configuration command a datagram is taken up if and only if the mode is 2 or 3, and a frame sent to ground if and only if it is 1 or 3 |
| Modes.CountsOverRuns | sim/radio_sim.c:291-298 | in every state of every run the counter is the number of commands executed mod 2^16, a housekeeping request being counted with its reply |
| Modes.PowerOffResets | sim/radio_sim.c:490-510 | switched off and left alone, the radio is flushed, its flag and pin down, its settings zero, its totals and all other housekeeping untouched |
| Modes.TotalsOverRuns | sim/radio_sim.c:291-406 | in every state of every run the housekeeping's two totals, mod 2^32: the true ones at the last request, and since then bytes served and sent, and bytes from the host |
| Invariants.LateCommitExactly | sim/radio_sim.c:499-510 | after the flush, while power stays off, the ring holds the datagram admitted before exactly when its commit has happened, and nothing otherwise |
| Interrupt.NextPin | sim/radio_sim.c:80-99 | what each kind of step does to pin and flag: an edge drives the pin to 1, a clear to 0, an external write to its level, and nothing else touches it |
| Interrupt.NoneAfterLastWrite | sim/radio_sim.c:80-99 | no step after the last write of the pin writes it |
| Interrupt.SinceLastWrite | sim/radio_sim.c:80-99 | at the end of every run the pin is what its last write left, and the flag is what it was then unless a power-off has flushed since |
| Interrupt.PinAgreesExactly | sim/radio_sim.c:80-99 | over every run, pin and flag agree if and only if: never written, the pin started other than high; last written by an edge, it was rising and unflushed since; by a clear, the flag was down or flushed since; by an external write, it wrote what the flag is |
| Interrupt.PinFollowsExactly | sim/radio_sim.c:80-99 | right after an update the pin tells whether the ring is filled if and only if that condition on the run holds |
| Interrupt.PinStaysHigh | sim/radio_sim.c:85-88 | a concrete run after which ring and flag are clear and the interrupt pin is high |
| Interrupt.PinStaysLow | sim/radio_sim.c:499-510 | a concrete run after which the ring is filled and the flag set while the pin is low, and stays low through updates and the return of power |
| TcFrames.SplitConserves | src/radio_app.c:797-953 | frames, skipped and discarded stretches and the tail concatenate to the buffer, in order |
| TcFrames.OnlySplitDescribes | src/radio_app.c:797-953 | the independent description of a cut leaves no choice |
| TcFrames.SplitCharacterised | src/radio_app.c:797-953 | a cut is the splitter's if and only if it fits an independent description: frames of their announced length, skips to the least plausible complete frame, a discard exactly when none exists, and a tail that must wait |
| TcFrames.TailWaits | src/radio_app.c:840-844 | the tail is shorter than a header or than its own announced length, so below 1024 bytes, and splitting it again changes nothing |
| Formats.LengthField | src/radio_app.c:800-801 | the length is the ten bits after the channel, plus one |
| Formats.PlausibleExactly | src/radio_app.c:811-824 | an offset is plausible if and only if a transfer frame, built field by field, starts there |
| Formats.EncodedStreamSplits | src/radio_app.c:797-953 | any prefix of a stream of frames so built is cut into exactly its whole frames |
| SpacePackets.ScanCharacterised | src/radio_app.c:893-930 | slices are the scan's if and only if they are greedy leftmost: whole telecommand packets with none starting in a gap |
| SpacePackets.GreedyUnique | src/radio_app.c:893-930 | the greedy leftmost description leaves no choice of slices |
| SpacePackets.GreedyDisjoint | src/radio_app.c:893-930 | transmitted slices are in increasing order, disjoint, inside the PDU and of exact size length field plus seven |
| SpacePackets.WrappedSize | src/radio_app.c:902-906 | the 16-bit sums that wrap are exactly those the test for at least seven rejects |
| SpacePackets.ScanPdu | src/radio_app.c:893-930 | the loop terminates, although its body moves the index, with the greedy leftmost slices |
| SpacePackets.PacketRoundTrip | src/radio_app.c:893-930 | a PDU that is a concatenation of command packets yields exactly those, in order, each once |
| Formats.CommandPacketExactly | src/radio_app.c:893-906 | a packet is found at an offset if and only if a command packet, built field by field, starts there |
| Formats.OtherBitsNeverStart | src/radio_app.c:896-904 | no packet is found where the version bits are not 0 or the type bit is not 1 |
| Formats.EncodedPacketsFound | src/radio_app.c:893-930 | a PDU made of packets so built yields exactly those, in order, each once |
| Uplink.UplinkService.FindPlausible | src/radio_app.c:811-824 | the forward search finds the least later offset with a plausible complete frame, if there is one |
| Uplink.UplinkService.Resynchronise | src/radio_app.c:804-838 | a header that announces too little leads to the least plausible later frame, or to discarding the rest, and in both cases leaves what the loop amounts to unchanged |
| Uplink.UplinkService.HandleFrame | src/radio_app.c:868-937 | one frame through the security library and its packets to the bus; no byte outside the frame changes |
| Uplink.UplinkService.CutOne | src/radio_app.c:797-941 | a turn of the loop leaves unchanged what the whole loop amounts to, and ends it only when the rest must wait |
| Uplink.UplinkService.KeepTail | src/radio_app.c:944-953 | the waiting bytes end up at the front of the buffer, and nothing else is kept |
| Uplink.UplinkService.SplitBuffer | src/radio_app.c:793-954 | the in-place loop and the move of the tail refine the split of the buffered bytes |
| Uplink.UplinkService.ReceiveMore | src/radio_app.c:753-777 | a receive appends exactly the bytes exchanged or counts an error; the overflow branch is never reached |
| Uplink.UplinkService.Attempt | src/radio_app.c:752-955 | one attempt is one exchange followed by the split of everything buffered |
| Uplink.UplinkService.ServiceUplink | src/radio_app.c:744-960 | a poll makes its attempts until one fails, for every behaviour of driver and security library, and keeps the no-stall invariant |
| Polls.ExchangeExactly | shared/radio_device.c:292-377 | a receive brings given bytes if and only if the seven octets of the request were written and the framed bytes, no more than asked for, start the answer |
| Polls.PollTakesAll | src/radio_app.c:744-960 | a poll takes in, in order, all that its attempts brought up to the first that failed, and counts one error exactly when one failed |
| Streams.ProcessAllExtends | src/radio_app.c:880-937 | processing appends each frame's packets in turn to the bus and counts exactly the failures, mod 256 |
| Streams.AbsorbConserves | src/radio_app.c:768-953 | the bytes accounted for (stretches dealt with, then the buffer) grow by exactly the bytes received, for any bytes |
| Streams.RoomForPending | src/radio_app.c:753-756 | the next request asks for at least one byte and for at least what the pending frame lacks |
| Streams.SplitStream | src/radio_app.c:797-953 | a prefix of a stream of frames splits into exactly its whole frames, and the tail is the start of the next |
| Chunking.SinglesWaste | src/radio_app.c:804-838 | a stream received one byte at a time has bytes skipped or thrown away only in fives |
| Chunking.WasteShows | src/radio_app.c:753-953 | cuttings that waste different numbers of bytes differ in the frames handed over or in the buffer |
| Chunking.ChunkingIndependentExactly | src/radio_app.c:753-953 | every feasible way of cutting a byte string into receives leaves the same buffer, frames handed over, messages sent and error count if and only if the string, split whole, needs no resynchronisation save a five-byte discard at its end |
| Chunking.Diverge | src/radio_app.c:804-838 | two feasible cuttings that differ in buffer or frames handed over, for every stream that needs a resynchronisation |
| Chunking.FrameStreamOutcome | src/radio_app.c:753-953 | a prefix of a stream of frames gives the same frames, messages and tail however it is cut |
| EndToEnd.AttemptOverLink | shared/radio_device.c:292-377 | one receive of the real service on the real simulator moves the head of the ring into the buffer and processes it, and fails without loss when the radio is off |
| EndToEnd.AttemptEffect | sim/radio_sim.c:328-379 | an attempt in the whole system, its request parsed and its reply decoded, moves the head of the queue into the flight buffer |
| EndToEnd.SendRoundTrip | sim/radio_sim.c:386-417 | a frame sent by the flight side is given to the ground socket unchanged exactly when it is not empty and the radio is on and transmitting |
| Pipeline.UplinkConserves | src/radio_app.c:750-958 | for any bytes and any interleaving, overflows and power-offs included: dealt with ++ flight buffer is exactly what was served, in order; ingested = served + queued + dropped + flushed; without loss served ++ ring is everything ingested; the flight buffer is never full; and the bus carries exactly the packets of the frames handed over |
| Pipeline.UplinkRefinesStream | src/radio_app.c:750-958 | for a stream of well-formed frames the frames handed to the security library are always a prefix of the stream's, nothing is skipped, and frames ++ flight buffer ++ ring is everything ingested |
| Pipeline.EmptyRingMeansDelivered | src/radio_app.c:750-958 | when a whole stream is ingested and the ring is empty, every frame has been handed over and nothing is buffered |
| Pipeline.FullBufferAdvances | src/radio_app.c:793-954 | when a receive fills the buffer, the split leaves fewer bytes waiting than were received, for any bytes |
| Pipeline.AttemptsDrain | src/radio_app.c:750-768 | as long as the radio is not switched off, whatever happens in between, every two attempts that find it idle serve at least 1025 bytes, until all bytes that were in the ring are served |
| Pipeline.Delivery | src/radio_app.c:750-958 | for a stream ingested without loss and any interleaving without a power-off, new datagrams included: two idle attempts for every 1025 bytes in the ring hand over every frame that had been ingested wholly |
| Pipeline.WholeDelivery | src/radio_app.c:750-958 | if that was the whole stream, all its frames are handed over, in order, and ring and flight buffer are empty |
| Pipeline.CommandsReachTheBus | src/radio_app.c:880-930 | frames whose PDUs are command packets put exactly those on the bus |
| Pipeline.CommandDelivery | src/radio_app.c:893-930 | then, if the frames carry command packets, the bus carries exactly those of the frames handed over, in order, each once, and these are at least the frames ingested wholly |
| Pipeline.WholeCommandDelivery | src/radio_app.c:893-930 | for the whole stream, the bus carries all its command packets, in order, each once |
| Telecommands.GroundToBus | src/radio_app.c:750-958 | for telecommand frames and packets built field by field, a radio that stays on, datagrams that fit and flushes that find nothing: the bus carries exactly the packets of the frames handed over, and after enough attempts these are at least the frames ingested wholly |
| Telecommands.AllGroundToBus | src/radio_app.c:750-958 | once all are ingested and polled for, the bus has carried all their packets, in order, each once |
| Packing.GreedyOptimal | src/radio_app.c:1005-1060 | no order-preserving packing of the same nonempty packets uses fewer frames than the greedy one |
| Packing.GreedyUnique | src/radio_app.c:1009-1060 | nonempty packets have one greedy packing |
| Packing.ConsecutiveFull | src/radio_app.c:1055-1059 | two consecutive frames together carry at least a frame's capacity |
| Downlink.FillingIsFilled | src/radio_app.c:1037-1059 | a frame takes the longest beginning of the queue that leaves free space, up to the limit |
| Downlink.FilledIsFilling | src/radio_app.c:1037-1059 | that description leaves no choice of frame |
| Downlink.DownlinkService.PlaceNext | src/radio_app.c:1012-1059 | the same turn of the inner loop after other tasks have put packets on the pipe |
| Downlink.DownlinkService.PlaceOne | src/radio_app.c:1012-1059 | one turn of the inner loop: a held packet is used before the pipe is read, and is kept when it does not fit |
| Downlink.DownlinkService.FillFrame | src/radio_app.c:1009-1060 | a frame takes the longest beginning that fits of held packet, queue and packets arriving before any of its reads, and a packet is held exactly when the poll goes on |
| Downlink.DownlinkService.OneFrame | src/radio_app.c:1005-1141 | one turn of the outer loop fills a frame, completes it, and gives it to the radio if it could be synchronised; whatever the packets' sizes, it is the turn that the termination results are about |
| Downlink.DownlinkService.Turn | src/radio_app.c:1005-1150 | a turn keeps the poll on course, or ends it with the frame and the held packet lost |
| Downlink.DownlinkService.FillAndSend | src/radio_app.c:1005-1150 | the outer loop yields the frames, losses and remaining queue of a poll of the queue with the packets that arrived during it, and ends |
| Downlink.DownlinkService.ServiceDownlink | src/radio_app.c:973-1150 | a poll's frames, its losses and what stays queued, for every pattern of synchronisation failures and every poll that ends; with packets arriving before any read it is the poll of the longer queue |
| DownlinkResults.PollConserves | src/radio_app.c:1005-1150 | packets in frames sent, then those lost, then those still queued, are the queue, in order |
| DownlinkResults.PollIsGreedy | src/radio_app.c:1037-1059 | frames sent keep space free, start in queue order, and each later frame starts with a packet that did not fit the one before, also in an abandoned poll |
| DownlinkResults.PollPacksOptimally | src/radio_app.c:1005-1150 | without failures: the first packets up to the limit are all sent, in order, none held; the packing is greedy and optimal; frames number at most max(1, packets) and at most the limit |
| DownlinkResults.LossExactly | src/radio_app.c:1117-1128 | a poll abandoned at a failed synchronisation has sent exactly the frames before, and loses exactly that frame's packets and the one held packet |
| DownlinkResults.TerminatesExactly | src/radio_app.c:1005-1060 | the nested loops end if and only if each of the first packets up to the limit is smaller than an empty frame |
| DownlinkResults.EndsExactly | src/radio_app.c:1005-1150 | failures included, the loops end if and only if the first packets up to the limit fit or some turn fails to synchronise, which is what the specified polls require |
| DownlinkResults.FailureLoses | src/radio_app.c:1117-1128 | whatever the packets' sizes, a poll that fails at a turn has sent the frames of the turns before and loses exactly the packets that turn took |
| DownlinkResults.OversizedHeldForEver | src/radio_app.c:1037-1059 | with an oversized packet in front, any number of turns sends that many idle frames and leaves the queue as it was |
| DownlinkRuns.ReachesExactly | sim/radio_sim.c:386-417 | a frame sent through the radio's command handler reaches the ground, unchanged, if and only if it has 1 to 2043 bytes, the radio hears the write, is on and transmits, and the socket takes it |
| DownlinkRuns.SendOverLink | shared/radio_device.c:269-287 | the real send on the real simulator: the status is the driver's result alone, the frame's fate that of the link |
| DownlinkRuns.DownlinkConserves | src/radio_app.c:1156-1184 | over any run of enqueues, polls and clears with any failures, the packets of all fates, in order, and then those waiting are all packets enqueued, each once |
| DownlinkRuns.FateOfFrame | src/radio_app.c:1138-1149 | in a run, each frame of a poll has the fate that its own passage through the radio gives it |
| DownlinkRuns.KeepsExactly | src/radio_app.c:1156-1184 | one event loses no packet if and only if what it finds beforehand is right: an empty pipe for a clear; for a poll an empty pipe, or packets that fit and synchronisation and link working for each frame it will send |
| DownlinkRuns.ClearLosesAll | src/radio_app.c:1175-1182 | a clear empties the pipe, and all that waited is lost |
| DownlinkRuns.GroundExactly | src/radio_app.c:1156-1184 | in any run the packets in frames on the ground and then those waiting are all packets enqueued, in order, if and only if every event found that |
| DownlinkRuns.DownlinkDelivery | src/radio_app.c:1005-1150 | in such a run, every packet enqueued so far is on the ground, in order, after any further events whose polls may place as many packets as are waiting |
| DownlinkRuns.SmoothRun | src/radio_app.c:1005-1150 | with packets smaller than a frame, no clearing, and no failure to synchronise or transmit, every poll ends and every event keeps its packets |
| GroundTotals.SendForwards | sim/radio_sim.c:386-417 | after any steps of the radio, a frame's send adds to the total of bytes sent exactly what the frame brings to the ground |
| GroundTotals.LineOfRun | src/radio_app.c:1156-1184 | polls whose frames are sends in the radio's own schedule are polls with the links of that schedule |
| GroundTotals.GroundTotal | sim/radio_sim.c:393-406 | over any run of polls interleaved with any other steps of the radio, its total of bytes sent is, mod 2^32, the number of bytes of the frames on the ground, datagrams being taken whole or not at all |
| GroundTotals.GroundReported | sim/radio_sim.c:291-298 | the reply to a housekeeping request after such a run encodes that number as the bytes sent |

## Left out

- cFS services, tables, `RADIO_AppInit` and command dispatch: single-branch code around external services. The mode gate of `RADIO_Service` appears only as its two outcomes, a poll or a clear of the pipe.
- Null-pointer guards and open/closed states of SPI and GPIO devices: the types here have no null.
- `RADIO_SetConfiguration`: five assignments and a call of the command builder; the radio's side is modelled.
- Simulator.RadioSim.HandleSpiCommand: not specified for a receive request above 4092 bytes, whose reply would not fit the radio's local buffer; the flight side never makes one.
- Simulator.RadioSim.Dispatch: the same requests are left out.
- Simulator.RadioSim.AnswerReceive: the same requests are left out.
- The memory layout of a message handed to the bus: a packet is its bytes.
- Unlocked reads finer than a step: the test of power and mode is one step, and the housekeeping re-read of the buffer count sees no datagram half stored.
- Failing calls of the TM library other than synchronisation (channel init, frame start, packet add, frame completion): their effect on the library's own frame state is not part of this model.
- TM security, the security association lookup and the device counters of the downlink: they do not influence the loop; the synchronised frame is arbitrary bytes.
- A ground socket that takes part of a datagram: `GroundTotals` covers sends taken whole or refused.
- The depth of the software bus pipes: a packet the bus refuses never enters the queue.
- Sockets, host lookup, component registration, the update-rate arithmetic in floating point: the periodic update is a step that may occur at any time.
- The simulator's transmit buffer, ground lock and the meaning of speed and wavelength settings: unused or undefined in the source.
- cli/, unit-test stubs, build files and debug printing.
