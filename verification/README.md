# Verification of the bonding server's protocol core

A client stripes one stream of numbered packets over several WAN links ("legs"). The server
puts the packets back in order, asks for what is missing, gives up on what never comes,
acknowledges, and keeps its own unacknowledged frames for the client's requests. This project
models that core in Dafny and proves what it is for: what the receiver puts out in every run,
what an acknowledgement may free, what may be skipped without anybody being told, what a byte
stream means however it is cut into reads, and that every packet built verifies and reads back.

## How the model is built

**Receiver.** `Receiver.dfy` is the reassembler as the program has it: a class over uint32
numbers, a pending map and signed 32-bit differences. A ghost field holds the same state over
unbounded integers, and every method is proved to take exactly the step of the unbounded
reassembler in `Reassembly.dfy`, across any number of wraps. What is assumed is what a signed
difference needs: an arriving number lies within half the number space of `next` and of the
highest number seen (before the start is chosen, of every number held). `SeqNum.dfy` proves
that this is exactly when the difference is right, and `LateNumberRaisesMaxSeenExactly` why the
bound concerns the highest number seen as well as `next`. Claims about whole runs are proved on
the unbounded reassembler (`ReassemblyRuns`, `ReassemblyGuarantees`, `Lossless`, `Settling`,
`SilentSkip`).

**Sender.** `SendStash.dfy` and `Sender.dfy` are the stash and the numbering of downlink frames
with what acknowledgements and requests do to them. `TwoParty.dfy` puts sender and receiver on
a network that loses, repeats and reorders frames, acknowledgements and requests, and proves an
inductive invariant over every run of one handshake epoch; `Epoch.dfy` shows that the two
classes, wired together on wire numbers and wire bytes, take exactly those steps.

**Bytes.** `Bytes`, `Frames` and `Bodies` are the codec, `Deframer` the stream reader with its
compacting buffer, `Upstream` the path from upstream data to frame bytes and back, `Checksum`
and `Ipv4` the packet builder and parsers.

**Around it.** `Flows` and `Uplink` hand reassembled chunks to one flow per tuple, `FlowSocket`
is the race between dialling and closing, `Legs` the choice of a leg, `Notices` the operator's
notice ring. `Sequences` holds rearrangements of sequences that the proofs share.

Times are integers, 0 being the unset `time.Time`; a reading of the clock is positive. `drain`
reads the clock itself, so each call gets a second reading, `clock`, for it. Map iteration is a
choice of an arbitrary remaining key. A read delivers an arbitrary non-empty prefix of what the
connection still holds, as far as it fits the buffer.

## Where the code does less than one might expect

- Arrivals are stamped before they are queued (icg/concentrator/session.go:164-166) and a tick
  carries the ticker's own stamp (icg/concentrator/session.go:225 and 244), so both may lag behind
  the clock that `drain` reads. A reassembler never gives a gap up unasked, over all runs whose
  stamps lag at most `lag`, exactly when `RetransmitAfter + lag <= SkipAfter`
  (`NeverSilentExactlyWithinTheLag`): with the defaults of 60 ms and 1500 ms, up to 1440 ms. The
  program does not bound the lag. Beyond it a stamp can be so much older than the last request
  that this request counts for a gap it never named (`LateStampIsSilent`).
- Every number a request names is still stashed exactly when the sender is at most the stash
  limit ahead of the receiver's `next` (`AskedIsStashed`), and it can be further ahead
  (`FallingBehindLosesTheStash`).
- An acknowledgement more than half the number space old frees frames it does not cover
  (`StaleAckFreesExactly`).
- A frame comes back from the decoder exactly when its body is at most 8182 bytes
  (`DecodeEncode`); the encoder does not check.
- The IPv4 parser's comment promises that a short total length is tolerated. A total below the
  header length passes the guard and the slice expression fails (`FaultsExactlyWhen`,
  `ShortTotalFaults`).
- A built UDP packet reads back exactly when it carries at most 65507 bytes
  (`BuildUDPPacket`, `RoundTripExactlyUpToMaxData`).
- `resync` never returns an error, although its comment says when it does, and the "frame
  exceeds" error of `fill` cannot occur (`NextFrame`).
- Two notices without NULs in their kinds and peers share a key exactly when they are the same
  (`KeyIdentifies`); every notice with such a NUL shares its key with a different one
  (`NulMakesKeysCollide`). The server's own kinds are fixed names and its peers printed addresses
  (icg/concentrator/server.go:361-514, icg/concentrator/session.go:409,
  icg/concentrator/tcpflow.go:125), none of which holds a NUL. The bound and the count hold
  regardless.

## Model

| member | source | states |
|---|---|---|
| SeqNum.DiffIsTrueDifference | icg/concentrator/reorder.go:101-102 | the signed 32-bit difference of two wire numbers is the true difference if and only if they are within half the number space of one another |
| SeqNum.DiffBeyondHalf | icg/concentrator/reorder.go:101-102 | beyond half the space, up to a whole turn, the difference has the wrong sign |
| SeqNum.WrapInjective | icg/concentrator/reorder.go:16-17 | two numbers near a common base never share a wire number |
| SeqNum.DiffIsNotTransitive | icg/concentrator/reorder.go:101-102 | without a window the signed comparison is not an order: three wire numbers can each be ahead of the next |
| Reassembly.DrainRun | icg/concentrator/reorder.go:177-195 | drain hands over exactly the contiguous run at `next`, in order, keeps the rest, and stops at the first gap and not before |
| Reassembly.PushKeepsInv | icg/concentrator/reorder.go:111-161 | after any arrival the pending numbers lie strictly ahead of `next`, the highest number seen is the highest pending, the buffer is within its cap, the gap clock is unset exactly when nothing is pending, and start to `next` is all delivered or given up |
| Reassembly.ExpireKeepsInv | icg/concentrator/reorder.go:227-257 | the same after any firing of the timer |
| Reassembly.SkipKeepsInv | icg/concentrator/reorder.go:246-257 | the same after stepping over a gap, which always moves `next` forward |
| Reassembly.LatchKeepsInv | icg/concentrator/reorder.go:165-174 | the same after choosing the lowest held number as the start |
| Receiver.MirrorSize | icg/concentrator/reorder.go:148-160 | the uint32 map holds as many packets as the unbounded one it stands for, so cap checks agree |
| Receiver.QuarterWindowFits | icg/concentrator/reorder.go:130-146 | arrivals within a quarter of the number space of `next` always satisfy the half-window assumption, and keep doing so |
| Receiver.LateNumberRaisesMaxSeenExactly | icg/concentrator/reorder.go:130-146 | a late number passes for the highest one seen if and only if it is more than half the space below the true one |
| Receiver.Reorder.constructor | icg/concentrator/reorder.go:76-99 | defaults are filled in and the reassembler starts empty |
| Receiver.Reorder.Push | icg/concentrator/reorder.go:111-161 | a push on wire numbers is exactly the push on unbounded numbers, and returns exactly what became deliverable |
| Receiver.Reorder.PushSettling | icg/concentrator/reorder.go:112-129 | the same for the settle window before a start is chosen |
| Receiver.Reorder.PushStarted | icg/concentrator/reorder.go:130-160 | the same once a start is chosen: late, next or ahead |
| Receiver.Reorder.PushAhead | icg/concentrator/reorder.go:148-160 | the same for a packet ahead of `next`, duplicate or new |
| Receiver.Reorder.Relieve | icg/concentrator/reorder.go:156-160 | at the memory cap, and only there, the oldest gap is stepped over |
| Receiver.Reorder.LatchLowest | icg/concentrator/reorder.go:165-174 | latching on wire numbers is latching on the true lowest number |
| Receiver.Reorder.DrainInto | icg/concentrator/reorder.go:177-195 | the drain loop refines the unbounded drain, across the wrap, and returns what it handed over |
| Receiver.Reorder.RestartClock | icg/concentrator/reorder.go:189-194 | after the loop the gap clock restarts if something still waits, and is unset otherwise |
| Receiver.Reorder.Missing | icg/concentrator/reorder.go:200-221 | the request list is the wire form of the unbounded one, and only a due request moves the request clock and counter |
| Receiver.Reorder.Absent | icg/concentrator/reorder.go:212-217 | the scan over wire numbers names exactly the absent numbers up to the highest seen, in order, cut at the limit |
| Receiver.Reorder.Expire | icg/concentrator/reorder.go:227-243 | the timer on wire numbers is exactly the timer on unbounded numbers |
| Receiver.Reorder.Skip | icg/concentrator/reorder.go:246-257 | giving up a gap counts and loses exactly the numbers below the lowest pending one |
| Receiver.Reorder.Lowest | icg/concentrator/reorder.go:259-268 | for every order of visiting the map, the result is the wire form of the true minimum |
| Receiver.Reorder.Ack | icg/concentrator/reorder.go:273-278 | the number acknowledged is the one below `next`, and there is one only after the start is chosen |
| Receiver.Reorder.Pending | icg/concentrator/reorder.go:281 | the number of packets held never exceeds the cap |
| Receiver.Reorder.Reset | icg/concentrator/reorder.go:286-294 | everything but the operator's counters returns to the initial state |
| ReassemblyRuns.StepForward | icg/concentrator/reorder.go:111-257 | no call moves `next` back or takes anything back; only numbers not being held are given up |
| ReassemblyRuns.RunForward | icg/concentrator/reorder.go:111-257 | the same over any run of one epoch |
| ReassemblyRuns.OutputIsExact | icg/concentrator/reorder.go:104-257 | in every run of one epoch the output is exactly the peer's values from the start to `next`, in order, once each, without those given up |
| ReassemblyGuarantees.PacketsConserved | icg/concentrator/reorder.go:51-54 | over any run, resets included, packets offered equal delivered plus duplicated plus late plus pending plus those held at a reset |
| ReassemblyGuarantees.CountersFollowHistory | icg/concentrator/reorder.go:51-54 | the delivered and skipped counters move with the packets put out and the numbers given up |
| ReassemblyGuarantees.NumbersConserved | icg/concentrator/reorder.go:111-257 | since the start was chosen, `next` has moved by deliveries plus skips |
| ReassemblyGuarantees.ArrivalIsTallied | icg/concentrator/reorder.go:117-152 | late counts exactly the arrivals below `next`, duplicated exactly those of a number already waiting |
| ReassemblyGuarantees.TickIsTallied | icg/concentrator/reorder.go:218-220 | requested counts exactly the numbers named in requests |
| ReassemblyGuarantees.GapsAreFirstAbsent | icg/concentrator/reorder.go:212-217 | the scan yields the first `limit` absent numbers in increasing order, and none is left out before the last it names |
| ReassemblyGuarantees.RequestIsExact | icg/concentrator/reorder.go:197-221 | a request is non-empty exactly when due, begins with `next`, and reaches as far as the highest pending number |
| ReassemblyGuarantees.RequestsAreSpaced | icg/concentrator/reorder.go:206-211 | two requests of one epoch are at least RetransmitAfter apart, whatever happens between |
| ReassemblyGuarantees.GiveUpsAdvance | icg/concentrator/reorder.go:223-257 | each time a tick gives up, `next` moves by at least two |
| ReassemblyGuarantees.StallIsBounded | icg/concentrator/reorder.go:223-257 | a pending packet is delivered, never given up, after at most half as many give-ups as there are numbers before it, whatever else arrives |
| ReassemblyGuarantees.StepKeepsGapClock | icg/concentrator/reorder.go:153-155 | as long as `next` stays, so does the gap's clock, whatever arrives ahead of it |
| ReassemblyGuarantees.GapsEndInTime | icg/concentrator/reorder.go:223-243 | over any run, a tick SkipAfter or more from when a gap began to block finds it repaired or ends it, and an earlier one gives nothing up |
| ReassemblyGuarantees.StepBlockedSince | icg/concentrator/reorder.go:48 | a call leaves the gap's clock, clears it, or sets it to one of its own readings |
| Lossless.StripingIsLossless | icg/concentrator/reorder.go:26-33 | a contiguous range pushed in any order with any duplicates, its lowest number before the start is chosen, with no timeout and no overflow of the memory cap (which a range within the cap cannot cause), comes out whole and in order, empties the buffer and is acknowledged to its top |
| Lossless.RepairClosesGap | icg/concentrator/reorder.go:43-49 | a gap whose missing numbers all come before it times out or the cap overflows, among whatever else arrives, closes completely and loses nothing |
| Lossless.ShortRunsDoNotTimeOut | icg/concentrator/reorder.go:227-243 | a run over within SkipAfter of its beginning gives nothing up |
| Settling.NothingStartsInTheWindow | icg/concentrator/reorder.go:112-129 | from creation, as long as everything comes less than the settle window after the first arrival and within the cap, nothing is started or put out and exactly what came is held |
| Settling.StartsExactlyWhenTheWindowEnds | icg/concentrator/reorder.go:112-129 | then the next event starts the epoch if and only if it is a tick, or a new number, at or after the window's end, or a new number there is no room for; and the start is the lowest number that came |
| Settling.FirstSeenIsFirst | icg/concentrator/reorder.go:112-116 | while nothing is started, the window is counted from the first arrival's stamp |
| Settling.EarlyIsKnown | icg/concentrator/reorder.go:26-33 | whenever the start is chosen, every number that came in the window is known |
| Settling.StripedInTime | icg/concentrator/reorder.go:26-33 | lossless from times alone: a range striped in any order, its lowest number within the settle window and all of it within SkipAfter, comes out whole and in order |
| SilentSkip.NoSilentSkip | icg/concentrator/session.go:553-568 | over every run whose stamps lag at most as far as the delays leave room for, a tick gives up nothing nameable that was not asked for since the gap began to block |
| SilentSkip.NeverSilentExactlyWithinTheLag | icg/concentrator/session.go:553-568 | over all runs with stamps at most `lag` behind the clock, a configuration never skips silently if and only if RetransmitAfter plus the lag is at most SkipAfter |
| SilentSkip.SkippingFirstIsSilent | icg/concentrator/reorder.go:62-66 | with SkipAfter below RetransmitAfter, a run with no lag at all that loses a number nobody asked for |
| SilentSkip.LateStampIsSilent | icg/concentrator/reorder.go:200-211 | for every configuration and every lag beyond what its delays leave room for, a run within that lag that loses a number unasked |
| SilentSkip.AskedWasRequested | icg/concentrator/session.go:553-558 | each number on record as asked was in the list of some tick of the run, no earlier than the present gap began to block |
| SilentSkip.OnlyTheCapSkipsOtherwise | icg/concentrator/reorder.go:148-160 | an arrival gives numbers up only when it overflows the memory cap |
| SilentSkip.AskAsks | icg/concentrator/session.go:555-558 | a due request names the whole of the gap up to the size of a request |
| SendStash.Stash.constructor | icg/concentrator/stash.go:20-25 | an empty stash with the default cap filled in |
| SendStash.Stash.Put | icg/concentrator/stash.go:27-39 | the frame is stored; a new number goes to the back, and at the cap exactly the oldest is evicted; map and order keep the same numbers, once each |
| SendStash.Stash.Get | icg/concentrator/stash.go:41-49 | exactly the stored frame or a miss, counted as such |
| SendStash.Stash.AckUpTo | icg/concentrator/stash.go:51-63 | filtering the list over itself frees exactly the numbers at or below the acknowledged one and keeps the others in order |
| SendStash.UnackedElements | icg/concentrator/stash.go:53-63 | what is kept is exactly what is ahead of the acknowledged number, without duplicates |
| Sender.DownFrameCarries | icg/concentrator/tcpflow.go:202-223 | the frame stashed under a number carries that number in its body |
| Sender.DownFrameBytes | icg/concentrator/tcpflow.go:202-221 | for every opcode, the frame's bytes hold magic, length, id, type 2, opcode 0 and sequence 0 at their offsets and a body with the number, the opcode given, the swapped tuple and the data |
| Sender.WindowLookup | icg/concentrator/stash.go:41-49 | a number is stashed if and only if it is in the window, and then with the frame sent under it |
| Sender.PutKeepsWindow | icg/concentrator/stash.go:27-39 | stashing the next number keeps the stash a contiguous window |
| Sender.AckKeepsWindow | icg/concentrator/stash.go:51-63 | an acknowledgement in the half window moves the window's start to just above it and never back |
| Sender.StaleAckFreesExactly | icg/concentrator/stash.go:51-63 | an older acknowledgement frees a number above it if and only if it is half the number space behind |
| Sender.Downlink.constructor | icg/concentrator/stash.go:20-25 | numbering from 0 with an empty stash |
| Sender.Downlink.ResetForHandshake | icg/concentrator/session.go:423-438 | a handshake restarts the numbering and forgets the stash |
| Sender.Downlink.SendTCPDown | icg/concentrator/tcpflow.go:204-228 | the bytes carry the next number, the opcode and data given and the swapped tuple, and the stash is exactly the window (max(highest ack, last - limit), last], every entry the frame sent under its number |
| Sender.Downlink.HandleUpstreamData | icg/concentrator/tcpflow.go:196-199 | upstream data becomes consecutively numbered frames, one per chunk |
| Sender.Downlink.HandleAck | icg/concentrator/session.go:473-479 | a cumulative acknowledgement, however late, moves the window to the highest one seen |
| Sender.Downlink.ResendOne | icg/concentrator/session.go:517-528 | a request for one number is served, with the frame first sent, if and only if it is in the window |
| Sender.Downlink.ServeRetransmit | icg/concentrator/session.go:506-515 | every number a well-formed request names that is in the window is answered at its place with the frame first sent under it, and nothing else is; a malformed request is answered with nothing |
| Sender.AnswersAreExactly | icg/concentrator/session.go:512-527 | no stashed number of a request stays unanswered, and each answer is the frame of one of them |
| TwoParty.StartIsGood | icg/concentrator/session.go:423-438 | the system invariant holds after a handshake |
| TwoParty.StepKeepsGood | icg/concentrator/session.go:473-568 | sender, receiver and network steps all keep the invariant: nothing but what was sent, under its number; acknowledgements stay below what the receiver waits for |
| TwoParty.RunIsGood | icg/concentrator/session.go:473-568 | so it holds at the end of every run, and every state of an epoch is the end of one |
| TwoParty.OutputIsWhatWasSent | icg/concentrator/reorder.go:104-257 | two-party safety: the receiver's output is exactly what was sent under start to `next`, in sending order and once each, without the skipped numbers |
| TwoParty.AskedIsStashed | icg/concentrator/session.go:506-528 | when a request is due, every number it names is stashed if and only if the sender is at most the stash limit past the receiver's `next`, whatever became of the acknowledgements |
| TwoParty.LateRequestsAreServed | icg/concentrator/session.go:506-528 | of a request however late, every number still waited for is stashed |
| TwoParty.ServedRequestIsOnTheAir | icg/concentrator/session.go:506-528 | one served request puts all it named on the network again, unaltered |
| TwoParty.EveryRunIsSafe | icg/concentrator/session.go:473-568 | the output, the stashed requests and the late ones, over every run of an epoch |
| TwoParty.ReceiverRuns | icg/concentrator/tcpflow.go:43-61 | the receiver's part of any run of the system is its own run on what arrives, and nothing arrives that was not sent |
| TwoParty.ServedGapCloses | icg/concentrator/session.go:506-568 | repair from end to end: a whole gap asked for in time, served, and all of it arriving before the timeout, whatever else happens meanwhile, ends with nothing given up and what was sent output |
| TwoParty.RepairHappens | icg/concentrator/session.go:506-568 | for any configuration that asks before it gives up and any limit above 1 there is a run with a gap that is asked for, served and repaired |
| TwoParty.FallingBehindLosesTheStash | icg/concentrator/stash.go:32-38 | for any configuration and limit there is a run in which the number a due request begins with is no longer stashed |
| Epoch.Epoch.constructor | icg/concentrator/session.go:423-438 | a fresh sender and a fresh receiver are the start of the two-party system |
| Epoch.Epoch.Send | icg/concentrator/tcpflow.go:204-228 | sending keeps the system invariant, and the bytes sent are the frame of the next number |
| Epoch.Epoch.DataArrives | icg/concentrator/tcpflow.go:43-61 | the number read from the packet's bytes drives exactly the system's arrival step |
| Epoch.Epoch.TimerTicks | icg/concentrator/session.go:553-582 | a tick is the system's tick step; its request reads back as the very list that was missing, its acknowledgement as the number below `next` |
| Epoch.Epoch.AckArrives | icg/concentrator/session.go:473-479 | an acknowledgement of any age in the window takes the system's step, so it never frees what the receiver still waits for |
| Epoch.Epoch.RequestArrives | icg/concentrator/session.go:506-515 | a request's payload is the system's step; for every stashed number it names the frame sent under it goes out and is on the network, and every frame that goes out is one of these |
| Epoch.Epoch.OutputIsWhatWasSent | icg/concentrator/reorder.go:104-257 | what the receiver object has put out is what the sender object sent, without the skipped numbers |
| Epoch.Epoch.AskedIsInTheStash | icg/concentrator/session.go:517-528 | whatever is asked for is in the sender's map under its wire number, as it was sent, if and only if the sender is at most its limit past `next` |
| Epoch.RequestGaps | icg/concentrator/session.go:608-616 | the payload of a request parses to the list of missing numbers |
| Epoch.TickReceiver | icg/concentrator/session.go:553-576 | the receiver's part of a tick: ask first, then give up, then acknowledge |
| Bytes.LittleEndian | icg/frame.go:96-98 | a little-endian number is its bytes weighed from the first up |
| Bytes.BigEndian | icg/frame.go:101 | a big-endian number is its bytes weighed from the last up |
| Bytes.Le32Bytes | icg/frame.go:96-98 | a little-endian number determines its bytes |
| Bytes.Be32Bytes | icg/frame.go:101 | a big-endian number determines its bytes |
| Frames.EncodedLayout | icg/frame.go:51-59 | each header field lies at its documented offset in its documented byte order |
| Frames.DecodeEncode | icg/frame.go:90-140 | a frame comes back whole from the front of any buffer if and only if its body fits the bound; otherwise the length is refused |
| Frames.EncodeDecode | icg/frame.go:114-140 | whatever the decoder accepts and consumes is the encoding of the frame it returns |
| Frames.DecodeExtends | icg/frame.go:40-48 | more bytes never change a verdict other than "short" |
| Bodies.ParseEncodedTCPBody | icg/body.go:45-69 | a TCP body parses back to itself through its mixed byte orders |
| Bodies.EncodeParsedTCPBody | icg/body.go:45-69 | every body long enough to parse is the encoding of what it parses to, and only shorter ones are refused |
| Bodies.TCPBodyLayout | icg/body.go:45-56 | each field of a TCP body by the bytes that hold it |
| Bodies.AnswerGoesBack | icg/body.go:79-85 | what is built for the flow of a parsed body has its destination as source and its source as destination, byte for byte |
| Bodies.ParseSeqList | icg/body.go:105-121 | exactly the numbers the payload declares, or the error for too many or too short |
| Bodies.SeqListLayout | icg/body.go:102-121 | which payloads are lists, and the count and each number by the bytes that hold them |
| Bodies.AppendSeqList | icg/body.go:126-136 | the payload has the fixed length, is zero behind its entries, and reads back as the first 50 numbers given |
| Bodies.SplitMSRoundTrip | icg/body.go:195-204 | a timestamp survives the split into swapped words |
| Bodies.ParseEncodedRTTBody | icg/body.go:165-184 | a probe body parses back to itself |
| Bodies.SplitMSLayout | icg/body.go:195-199 | a timestamp by its bytes: high word first, each word little-endian |
| Bodies.ReplyEchoesTheProbe | icg/body.go:190-193 | the reply is the probe byte for byte but for bytes 12 to 19, which hold the server's clock, and parses to that |
| Bodies.EchoHoldsOurClock | icg/concentrator/session.go:324-329 | from an echo of the reply the server reads back the clock it put there |
| Deframer.MagicAtMeans | icg/frame.go:223-232 | comparing the four bytes is comparing the magic number |
| Deframer.SkipsNoise | icg/frame.go:215-240 | skipping any bytes at which no magic starts changes no frame |
| Deframer.DeframesConcat | icg/frame.go:156-159 | frames written back to back are read back, whatever follows |
| Deframer.CleanConcat | icg/frame.go:167-170 | and nothing in them is mistaken for lost framing |
| Deframer.RecoversAfterNoise | icg/frame.go:215-240 | after noise in which no magic starts every frame is recovered |
| Deframer.SkipsBadBytes | icg/frame.go:201-205 | any stretch at no byte of which a frame can start is skipped, magics with impossible lengths included |
| Deframer.RecoversAfterBadBytes | icg/frame.go:201-205 | after any such stretch every frame is recovered |
| Deframer.CleanMeansNothingSkipped | icg/frame.go:167-170 | framing is never lost if and only if the frames read, back to back, account for every byte but an unfinished rest |
| Deframer.DeframedFit | icg/frame.go:124-127 | every frame read is within the length bound |
| Deframer.WindowDecides | icg/frame.go:193-208 | what is buffered decides the front of the stream unless it is short |
| Deframer.StreamReader.constructor | icg/frame.go:183-189 | a reader with nothing buffered has the whole stream to come |
| Deframer.StreamReader.NextFrame | icg/frame.go:191-213 | for every way of cutting the stream, the next frame is the whole-stream deframer's next; it terminates, and the "frame exceeds" error does not occur |
| Deframer.StreamReader.Resync | icg/frame.go:218-240 | leaving a bad position loses no frame, and moves forward |
| Deframer.StreamReader.FindMagic | icg/frame.go:227-232 | the first place where the magic stands, or the last three bytes |
| Deframer.StreamReader.FillBuffer | icg/frame.go:242-260 | compacting and reading change no byte of what is still to be consumed, and a full buffer is the only reason to refuse |
| Deframer.ReadAll | icg/frame.go:156-213 | reading to the end yields exactly the reference's frames; framing is counted as lost if and only if the reference meets a byte that starts no frame |
| Upstream.ChunksCover | icg/concentrator/tcpflow.go:196-199 | the chunks join to the data, all but the last of exactly 1400 bytes and the last of 1 to 1400 |
| Upstream.UpstreamComesThrough | icg/concentrator/tcpflow.go:180-228 | the bytes sent for any upstream data deframe cleanly into frames with consecutive numbers, the swapped tuple, 1 to 1400 bytes each, and the data in all |
| Checksum.WordsAreBigEndian | icg/concentrator/ipv4.go:128-133 | a word is its two bytes, big-endian, and an odd last byte counts as if a zero followed |
| Checksum.FoldKeepsResidue | icg/concentrator/ipv4.go:134-136 | folding keeps the sum modulo 65535 and a positive sum positive |
| Checksum.VerifiesMeans | icg/concentrator/ipv4.go:125-138 | a sum verifies if and only if it is a positive multiple of 65535 |
| Checksum.ComplementVerifies | icg/concentrator/ipv4.go:137 | adding the complement makes any sum verify, and so does all ones in place of zero |
| Checksum.AddWords | icg/concentrator/ipv4.go:144-151 | the uint32 loop is the sum of the words modulo 2^32, odd last byte included |
| Checksum.FoldCarries | icg/concentrator/ipv4.go:134-136 | the carry loop ends and equals the fold |
| Checksum.InternetChecksum | icg/concentrator/ipv4.go:126-138 | up to 131074 bytes the accumulator never overflows and the checksum is the true one |
| Checksum.OverflowBeyondTheBound | icg/concentrator/ipv4.go:126-138 | two bytes more and an input overflows: the bound is sharp |
| Checksum.PseudoHeaderLayout | icg/concentrator/ipv4.go:152-156 | the twelve bytes of the pseudo-header: addresses, zero, protocol 17, length |
| Checksum.PseudoSum | icg/concentrator/ipv4.go:152-156 | the sum of the parts is the word sum of the twelve bytes of the RFC 768 pseudo-header and the datagram |
| Checksum.UdpChecksum | icg/concentrator/ipv4.go:140-166 | the checksum is never 0 and makes the pseudo-header's bytes and the datagram verify |
| Ipv4.ParsedPacketIsInTheBuffer | icg/concentrator/ipv4.go:38-69 | each field of a parsed packet by the bytes that hold it; its payload is the part of the buffer from the header's end to the declared total, of an unfragmented packet |
| Ipv4.ParsedDatagramIsInThePayload | icg/concentrator/ipv4.go:77-94 | ports and data by their bytes, the declared length ending the data whenever it can be right |
| Ipv4.RefusalsAreExact | icg/concentrator/ipv4.go:38-61 | which buffers are truncated, of another version, or fragments |
| Ipv4.FaultsExactlyWhen | icg/concentrator/ipv4.go:50-67 | the slice expression fails if and only if an unfragmented header is longer than the total it declares |
| Ipv4.ShortTotalFaults | icg/concentrator/ipv4.go:50-67 | every plain header that declares a total below 20 makes it fail, whatever follows |
| Ipv4.HeaderSum | icg/concentrator/ipv4.go:114 | a checksum field contributes its own value to the header's sum |
| Ipv4.LayoutReadsBack | icg/concentrator/ipv4.go:38-94 | the layout parses back to its tuple, id, lifetime and data |
| Ipv4.LayoutIsWellBuilt | icg/concentrator/ipv4.go:96-123 | with its two checksums the layout verifies in header and datagram |
| Ipv4.BuildUDPPacket | icg/concentrator/ipv4.go:96-123 | every packet of up to 65507 bytes of data verifies both checksums over its bytes, has a non-zero UDP checksum, plain headers with both lengths in full, and parses back to tuple and data |
| Ipv4.RoundTripExactlyUpToMaxData | icg/concentrator/ipv4.go:100-123 | no packet reads back with more data than that |
| Flows.FlowTable.OpenFlow | icg/concentrator/tcpflow.go:98-143 | the existing flow, a newly dialled one while there is room, or a DISCONNECT |
| Flows.FlowTable.DeliverTCP | icg/concentrator/tcpflow.go:63-95 | CONNECT opens a flow, PAYLOAD opens one if need be and hands its bytes over once or is refused at the limit, DISCONNECT closes; any other chunk changes nothing |
| Flows.FlowTable.HandleUpstreamClosed | icg/concentrator/tcpflow.go:185-195 | the flow is closed and the peer told, whether or not the flow was known |
| Flows.FlowTable.ResetForHandshake | icg/concentrator/session.go:430-433 | every flow in the table is closed |
| Flows.TableIsSound | icg/concentrator/tcpflow.go:98-115 | in every reachable state the table is within the limit, and each flow ever dialled is open under one tuple or closed, never both, never neither |
| Flows.OpenTuplesAreTheTable | icg/concentrator/tcpflow.go:63-115 | which tuples are open can be told from the events alone |
| Flows.EachFlowGetsItsOwn | icg/concentrator/tcpflow.go:63-143 | over any interleaving a tuple's flows are handed exactly its own payload chunks, in order, minus those refused at the limit |
| Flows.OpenFlowStays | icg/concentrator/tcpflow.go:68-101 | an open flow stays the instance it is, whatever happens but its DISCONNECT, its upstream's end or a handshake |
| Flows.OneConnectionPerStream | icg/concentrator/tcpflow.go:68-101 | two chunks handed over for a tuple with none of these between them go to one and the same connection |
| Flows.DialsAndDisconnectsAreDue | icg/concentrator/tcpflow.go:98-115 | a connection is dialled exactly for a chunk whose tuple has none and there is room for, and a DISCONNECT sent down exactly for each refused chunk and each ended upstream, in order |
| Flows.InstancesServeOneTuple | icg/concentrator/tcpflow.go:63-143 | in every reachable state no flow instance has been handed chunks of two tuples, and an open one only those of the tuple it is open under |
| Flows.ClosedInstancesStaySilent | icg/concentrator/tcpflow.go:80-84 | once closed, an instance is handed nothing more in any continuation, and never opens again |
| Flows.NothingRefusedWithinTheLimit | icg/concentrator/tcpflow.go:98-107 | with no more tuples in use than the limit, every payload chunk is handed over |
| Uplink.Uplink.HandleTCPUp | icg/concentrator/tcpflow.go:43-61 | the number, tuple, opcode and data come from the bytes that hold them, the body's source being the client; what the flow table is told is exactly what the reassembler puts out, in order; the output stays true to the peer's numbering as long as what arrives is; a body too short changes nothing |
| Uplink.Uplink.Expire | icg/concentrator/session.go:563-565 | the same for what a tick lets through |
| Uplink.Uplink.HandleUpstreamClosed | icg/concentrator/tcpflow.go:185-195 | an upstream's end enters the history between deliveries |
| Uplink.Uplink.ResetForHandshake | icg/concentrator/session.go:423-438 | reassembler and flow table start over together |
| Uplink.EpochHands | icg/concentrator/session.go:423-438 | what a tuple's flows were handed since the last handshake is its share of what came out since then, independent of all before |
| Uplink.Uplink.FlowsGetTheStream | icg/concentrator/tcpflow.go:43-143 | end to end, over every epoch in which each number came with the peer's chunk for it: a tuple's flows were handed exactly its payload chunks of the peer's numbered stream from the start to `next` without the skipped numbers, minus those refused at the limit, and all of them while the stream uses no more tuples than the limit |
| FlowSocket.RunKeepsInv | icg/concentrator/tcpflow.go:230-312 | the invariant of the race holds under every interleaving |
| FlowSocket.NoLeakNoDoubleClose | icg/concentrator/tcpflow.go:117-141 | `done` is closed at most once, a socket at most once, and once a close has returned and the dialler is through, a dialled socket has been closed exactly once |
| FlowSocket.CloseNeverDeadlocks | icg/concentrator/tcpflow.go:300-312 | while a close has not returned some step can be taken without the dialler, and a refused socket can always be disposed of |
| Legs.BetterIsStrictWeakOrder | icg/concentrator/session.go:769-782 | the ranking is a strict weak order |
| Legs.BetterMeans | icg/concentrator/session.go:769-782 | measured beats unmeasured, the shorter round trip the longer, and between equals the more recent packet wins |
| Legs.UnbeatenMeans | icg/concentrator/session.go:677-696 | the leg picked is measured if any eligible one is, none has a shorter round trip, and none with the same was heard from later |
| Legs.SmoothWeighs | icg/concentrator/session.go:765-766 | seven parts of the old value and one of the sample, rounded toward zero |
| Legs.SmoothApproaches | icg/concentrator/session.go:765-766 | the first sample is taken whole, and each further one removes an eighth of the distance to it, down to rounding |
| Legs.SmoothedStaysInRange | icg/concentrator/session.go:760-767 | the smoothed round trip stays within the range of its positive samples, so a measured leg never looks unmeasured |
| Legs.Leg.ObserveRTT | icg/concentrator/session.go:760-767 | as long as all samples are positive, the leg's round trip lies between the least and the greatest of them |
| Legs.Leg.HandleRTTAck | icg/concentrator/session.go:324-331 | only plausible echoes count; a leg is measured from its first one on, for good, and its value stays in their range and below ten seconds |
| Legs.PickLeg | icg/concentrator/session.go:677-696 | for every iteration order an open leg of the wanted kind that none beats, of any kind if there is none, and none only if all are closed |
| Notices.KeyIdentifies | icg/concentrator/notices.go:44 | keys tell notices apart exactly as kind, peer and message do, given no NUL in kind and peer |
| Notices.NulMakesKeysCollide | icg/concentrator/notices.go:44 | every notice with a NUL in its kind or peer shares its key with a different notice |
| Notices.NoticeLog.Add | icg/concentrator/notices.go:38-62 | the ring never exceeds 200 and retained plus evicted counts equal the adds, whatever is added; without NULs the index is exact and the result is that of linear search |
| Notices.NoticeLog.DropOldest | icg/concentrator/notices.go:53-61 | exactly the oldest entry goes, and its count is not lost |
| Notices.NoticeLog.RebuildIndex | icg/concentrator/notices.go:57-60 | the new index maps each key to its position and nothing else |
| Notices.NoticeLog.Snapshot | icg/concentrator/notices.go:64-74 | the notices newest first |

## Left out

- Sockets, listeners, dialling, deadlines, channels and goroutine scheduling: arrivals, ticks, upstream data and the dialler's and closers' critical sections are steps in arbitrary order.
- The UDP side of a session: its sequence space uses the same reassembler and stash; the NAT flows and their table are sockets and simple bounds.
- Frames, acknowledgements and requests that cross a handshake: numbering restarts at 0 with no epoch tag, so the two-party claims hold within one epoch.
- What a flow does with a chunk after `enqueue` is called: it may give up after two seconds, and `close` may close the socket while the writer still flushes.
- Admission, egress rules, HTTP API, web interface, snapshots, logging and statistics text.
- The test client, the probe tool, the emulator, deployment files and the configuration cipher.
- Handshake opcode tables, device telemetry, sequence resynchronisation answers and tunnel identification: tables and single reads.
- Which leg carries a resent frame or a request, and the acknowledgement interval: any leg may carry it, and any tick may or may not acknowledge.
- The counters are unbounded, where the program's are 64-bit; the reassembler's five are kept in one record.
- The arrival time stored with a pending packet, which nothing reads.
- Deframer.StreamReader.NextFrame: the body of a returned frame is a value, where the program's aliases the reader's buffer; the first-desynchronisation callback, a read of zero bytes without an error and transport errors other than the end are not modelled.
- Receiver.Reorder.Push: assumes the half window stated above; `Reassembly` says nothing about numbers outside it.
- Receiver.Reorder.PushSettling: assumes the same of a number that arrives while no start is chosen, with respect to those already held.
- Receiver.Reorder.PushStarted: assumes the same of a number that arrives later, with respect to `next` and the highest number seen.
- Uplink.Uplink.HandleTCPUp: assumes the same of the number of a body that parses.
- Sender.Downlink.constructor: assumes a stash limit of at most 2^31, beyond which wire numbers in the stash could not be told apart.
- Sender.Downlink.HandleAck: assumes an acknowledgement of a number that was sent, less than half the number space ago; what any other one frees is stated by `SendStash.Stash.AckUpTo` and `StaleAckFreesExactly`.
- SendStash.Stash.AckUpTo: the list filtered over its own backing array is a sequence that is both read and overwritten.
- Ipv4.BuildUDPPacket: the header fields are written in groups, the two checksums after all other fields.
- Legs.PickLeg: a leg does not close in the middle of the scan.
