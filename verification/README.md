# Verification of the KCP engine

This project models the reliable-transport engine of this repository, `ikcp.c` and
`ikcp.h`, and the timer set of `ktimer.cpp` and `ktimer.h`, and proves what they are
for. `dafny verify dfyconfig.toml` checks all of it.

## How it is built

The model has three layers.

1. **Specification on values.** `Serial` is the wrapping 32-bit arithmetic and
   `_itimediff`; `Wire` the 24-byte header; `SendBuffer`, `RecvBuffer`,
   `RttEstimator`, `Congestion`, `Packing`, `FlushClock` and `Retransmission` each
   say what one part of the engine does to its part of the state (`ControlBlock`), as
   filters, maps and arithmetic rather than as scans. `Endpoint` puts them together:
   one function per call of the interface. `EndpointInvariant`, `EndpointGuarantees`
   and `SegmentLife` prove what holds at one endpoint for any bytes that arrive, and
   `FlushEffects`, `InputEffects` and `QueueEffects` say, in the fields of the control
   block and of the datagrams only, what each call sends, answers, keeps and changes.
2. **The code on objects.** `Kcp` is the control block as a class with the fields of
   `struct IKCPCB`. Its methods have the loops, early exits and write pointer of
   `ikcp.c`, and each is proved to change the state as the function of layer 1 says.
   `IntrusiveList` is the circular doubly linked queue on nodes that point to each
   other, with the allocator's record of what is allocated and what was freed;
   `SegmentQueues` the scans and loops of the engine over these queues, each proved
   against the lists of layer 1 and against that record; `SegmentRuns` whole runs of them,
   from creation to release; `AckList` the growing array of acknowledgements;
   `TimerManager` the timers, proved against `TimerSet`.
3. **Two endpoints and a network.** `Network` is a state machine: any call at either
   side, and the delivery of any datagram ever sent, any number of times, in any order,
   or never. Every 32-bit count has an unbounded count beside it (`Link`). `Safety`
   proves the invariant over every run, `Messages` what the applications see, and
   `Guarantees` states the promises. `Continuations` is about the ways a run can go on in
   which no datagram that is sent is lost and no clock is set back; `Progress` constructs
   one that delivers everything, and `HeldBack` a run that breaks a promise one might
   have expected. `FairRuns` says what a fair infinite run is, `Liveness` proves that
   every one of them delivers everything, and `FairSchedule` that there are some.

## What is assumed

- Allocation succeeds, and buffers passed in are not null.
- The settings of `Config.Valid` are made before traffic: an MTU from 50 to 65535,
  `rcv_wnd` from 128 to 65535 (`ikcp.c:1279`, `kcp.h:27`), `interval` from 10 to 5000,
  `fastresend` at most 255 (`kcp.h:30`). `Settings` shows that the interface makes no others.
- A datagram is not delivered so late that a serial number in it is more than 2^31
  behind the newest number of the side that issued it.
- Time is a parameter. So are the bytes that arrive; the output callback is a list.
- `int` results that count bytes and the `nrcv_que`-like counters do not overflow.

## What the code does differently from what one might expect

- `snd_una <= rcv_nxt` of the peer is false: a full receive queue still acknowledges
  what it holds in the reordering buffer (`Guarantees.HeldBackIsAcknowledged`).
  `HeldBack.UnaOvertakesNext` is a run from the initial state that ends with `snd_una`
  ahead. It is ahead only while the queue is full (`Guarantees.AheadOnlyWhenFull`), and it
  can get ahead whenever the queue is full and the segment at `rcv_nxt` is in flight
  (`HeldBack.FullQueueLosesIt`).
- Doubling the timeout does not go on for ever: from an `rto` of up to 60 s it holds for
  sixteen timeouts, from one of up to 5.5 s for seventeen
  (`SegmentLife.SixteenTimeoutsDouble`), and the next one may wrap
  (`Retransmission.TimeoutWraps`).
- A failing `ikcp_send` in stream mode may keep part of its data
  (`Messages.FailingSendLeaks`); `Messages.SendLeaksExactly` says when.
- The comment above `ikcp_check` suggests that updating at the time it returns does
  something. For an overdue segment it returns the present although updating now
  does not flush (`FlushClock.CheckAsksTooEarly` says exactly when it does, and
  `FlushClock.CheckTooEarlyAt1000` is a case in which it does not).
- The scan of `ikcp_parse_una` is a plain filter except for a `una` just past the
  antipode of `snd_una` (`SendBuffer.UnaScanIsSignedFilter`, an if and only if;
  `SendBuffer.UnaScanDiffers` is a case).

## Model

| member | source | states |
|---|---|---|
| `Serial.DiffIsSerialOrder` | ikcp.c:136-139 | `_itimediff` is the serial-number order of section 3.2 of RFC 1982, plus the antipodal pairs that the RFC leaves open, which compare as less both ways |
| `Serial.DiffOfCounts` | ikcp.c:136-139 | comparing two 32-bit fields compares the unbounded counts they store, up to 2^31 apart |
| `Wire.HeaderRoundTrip` | ikcp.c:906-917 | decoding an encoded header, whatever follows it, gives back every field |
| `Wire.HeaderLayout` | protocol.txt:11-22 | each field of the header is little-endian at its offset |
| `Wire.ParseInvertsEncode` | ikcp.c:761-873 | parsing any concatenation of encoded segments of this conversation, with fewer than 24 stray bytes behind, gives exactly those segments and code 0 |
| `Wire.ParseReadsPrefix` | ikcp.c:761-786 | for any bytes: the segments parsed, encoded again, are the front of the input; on success fewer than 24 bytes are left |
| `Wire.ParsedAreSendable` | ikcp.c:769-786 | for any bytes: every segment handed on has the right conversation, a known command and a legal length; the code is 0, -1, -2 or -3 |
| `Wire.ParseStopsWhere` | ikcp.c:761-786 | for any bytes: what is left behind the parsed segments is too short for a header (code 0), of another conversation (-1), announces more data than there is or 2^31 bytes (-2), or has an unknown command (-3), checked in this order |
| `SendBuffer.UnaScanIsSignedFilter` | ikcp.c:593-607 | the early-exit scan is the plain filter by signed comparison if and only if the buffer is empty, `una` is not behind, or the newest segment is not past its antipode |
| `SendBuffer.UnaScanDiffers` | ikcp.c:593-607 | a buffer of two segments and a `una` for which the scan removes nothing and the filter removes the second |
| `SendBuffer.HearUnaKeepsInv` | ikcp.c:788-790 | for any `una`: the buffer stays ordered, `snd_una` moves forward by what the flight shrinks, and exactly the covered segments leave |
| `SendBuffer.HearAckKeepsInv` | ikcp.c:571-591 | for any `sn`: the same, and exactly the segment with that number leaves |
| `SendBuffer.ParseFastackKeepsInv` | ikcp.c:609-631 | counting overtaken segments keeps the order and the window |
| `RecvBuffer.InsertIsMapInsert` | ikcp.c:695-713 | the sorted insert is insertion into a map keyed by `sn` that keeps the first fragment of a number |
| `RecvBuffer.InsertAt` | ikcp.c:695-710 | the place that the backward scan finds is where the ordered insert puts the segment |
| `RecvBuffer.DrainMovesRun` | ikcp.c:720-732 | the move to the queue takes exactly the run of consecutive numbers from `rcv_nxt`, as far as the window has room |
| `RecvBuffer.HearPushKeepsInv` | ikcp.c:822-847 | for any `sn`: ordered, duplicate-free, inside the window, drained, queue within the window |
| `RecvBuffer.PeekSizeIsNextMsg` | ikcp.c:441-463 | the peeked size is the length of the next message whenever it is not negative, and when it is not |
| `RttEstimator.UpdateIsRfc6298` | ikcp.c:543-558 | one update is formulas (2.2) and (2.3) of section 2 of RFC 6298 rounded down (an estimate of 0 becomes 1), without overflow for samples from 0 to below 2^28 |
| `RttEstimator.EstimateStaysAmongSamples` | ikcp.c:543-558 | over any run of samples from [lo, hi]: `rx_srtt` in [lo, hi], `rx_rttval` in [0, hi], `rx_rto` in its bounds, no overflow |
| `RttEstimator.RtoBounded` | ikcp.c:556-557 | whatever the sample, `rx_minrto <= rx_rto <= 60000` |
| `Congestion.AvoidanceStep` | ikcp.c:881-891 | above `ssthresh`: the repair of `incr` never fires, `incr` grows by mss*mss/incr + mss/16 without wrapping (equation (3) of section 3.1 of RFC 5681 plus mss/16), and `cwnd` follows by at most two |
| `Congestion.OnAckKeepsInv` | ikcp.c:875-897 | one input keeps `cwnd` and `incr` within a segment of each other, raises `cwnd` by at most two and not past `rmt_wnd` |
| `Congestion.OnFlushKeepsInv` | ikcp.c:1116-1137 | every combination of the three adjustments keeps the coupling, `ssthresh >= 2` and an open window; a loss leaves `cwnd == 1` |
| `Congestion.CwndIsAtMostCeil` | ikcp.c:886 | `cwnd <= ceil(incr/mss) <= cwnd + 1` |
| `Packing.PackingIsFaithful` | ikcp.c:1083-1114 | the datagrams put together are the segments in order, and each is non-empty and fits the MTU |
| `Packing.GreedyStaysAhead` | ikcp.c:956-1012 | no other way to cut the same segments into datagrams that fit uses fewer, or as many with less in the last |
| `FlushClock.CheckIsSound` | ikcp.c:1183-1219 | any updates before the time `ikcp_check` returns change only `current`; that time is at most one interval ahead, across wrap-around |
| `FlushClock.CheckIsSharp` | ikcp.c:1183-1219 | the check returns now if and only if nothing was updated yet, the flush deadline has passed or lies over 10 s ahead, or a segment is overdue; otherwise it returns the flush deadline, the deadline of a segment, or the end of one interval, and none of these is earlier |
| `FlushClock.TickKeepsRhythm` | ikcp.c:1146-1171 | an update flushes if and only if it is the first, the flush deadline has passed, or it lies over 10 s ahead; less than an interval late, the next deadline is an interval after the last, otherwise an interval from now |
| `FlushClock.CheckAsksTooEarly` | ikcp.c:1208-1211 | with an overdue segment the check returns now, and updating now flushes if and only if the flush deadline passed or is over 10 s away |
| `FlushClock.CheckTooEarlyAt1000` | ikcp.c:1208-1211 | a clock and a segment for which the check returns now and an update now only records the time |
| `FlushClock.FlushesArePaced` | ikcp.c:1146-1171 | over any run with a forward clock: n flushes take at least (n - 1) intervals, and two successive ones are at most an interval and a step apart |
| `Retransmission.ScheduledAfterFlush` | ikcp.c:1052-1081 | after a flush a segment has been sent (unless `xmit` wraps), and is due again at once if and only if it was due and its delay is out of the forward half of the clock |
| `Retransmission.BackoffDoubles` | ikcp.c:1062-1063 | with `nodelay` off a timeout doubles `rto` if and only if the sum does not wrap (or `rto` is 0) |
| `Retransmission.BackoffIsExponential` | ikcp.c:1049-1082 | over any life of a segment with `nodelay` off: k timeouts give `rto` at least 2^k times the first, as long as the longest it can be by then, 2^(k-1) * (`rto` + max(`rto`, 60000)), fits in 32 bits; it is never longer than that; `xmit` counts the transmissions |
| `Retransmission.TimeoutWraps` | ikcp.c:1062-1063 | the bound is exact: if k timeouts do not fit and k - 1 do, there is a life of k timeouts after which `rto` is shorter than after k - 1 |
| `Retransmission.SeventeenthTimeoutWraps` | ikcp.c:1062-1063 | from an `rto` of 60000 that is the seventeenth |
| `SegmentLife.RunIsALife` | ikcp.c:1049-1082 | over any run of calls that leaves it in the send buffer, a segment is changed by the flushes and the overtaking acknowledgements only, as `Retransmission` says |
| `SegmentLife.TimeoutsDouble` | ikcp.c:1058-1071 | over any run of calls with `nodelay` off, a sent segment that timed out k times since has at least 2^k times the `rto` it had, as long as the longest it can be by then fits in 32 bits |
| `SegmentLife.SixteenTimeoutsDouble` | ikcp.c:1058-1071 | that is so for every `rto` up to 60000 and up to sixteen timeouts, and up to seventeen for an `rto` of at most 5535 |
| `EndpointInvariant.FragmentProps` | ikcp.c:514-534 | fragments hold the message, each fits the mss, and `frg` counts down to 0 (is 0 in stream mode) |
| `EndpointInvariant.FragmentCount` | ikcp.c:507-512 | there are as many as the code computes beforehand |
| `EndpointInvariant.SendKeepsInv` | ikcp.c:469-537 | any send keeps the endpoint invariant |
| `EndpointInvariant.RecvKeepsInv` | ikcp.c:358-435 | any receive or peek keeps it |
| `EndpointInvariant.PeekChangesNothing` | ikcp.c:358-435 | a peek changes nothing, and the receive with the same room returns the same code and bytes |
| `EndpointInvariant.InputKeepsInv` | ikcp.c:749-900 | any bytes keep it |
| `EndpointInvariant.InputOfPacket` | ikcp.c:749-900 | a datagram of encoded segments is processed as the fold of the per-segment steps, one overtaking count and one congestion step |
| `EndpointInvariant.ProbeTimerBounded` | ikcp.c:971-990 | the probe timer is off exactly while the remote window is open, its wait at most 120 s, and a new deadline at least 7 s ahead |
| `EndpointInvariant.AfterFlushKeepsInv` | ikcp.c:931-1138 | a flush keeps the invariant and leaves `cwnd >= 1` |
| `EndpointInvariant.UpdateKeepsInv` | ikcp.c:1146-1171 | so does an update at any time |
| `EndpointGuarantees.AnyCallsKeepOrder` | ikcp.c:358-1171 | after any calls with any arguments and any bytes: send buffer strictly ordered in [`snd_una`, `snd_nxt`) with `snd_una` its head, at most 65535 in flight; receive buffer strictly ordered in the receive window and drained; `ssthresh >= 2`, `cwnd <= ceil(incr/mss) <= cwnd + 1`, `rx_rto <= 60000` |
| `EndpointGuarantees.InputMovesForward` | ikcp.c:749-900 | for any bytes: `snd_una` never moves back nor past `snd_nxt`; `cwnd` moves only if `snd_una` did, by at most two and not past the advertised window |
| `EndpointGuarantees.FlushPacksGreedily` | ikcp.c:956-1114 | a flush sends the acknowledgements, then the probes, then the due segments in order, in datagrams that fit the MTU, and in the fewest possible |
| `EndpointGuarantees.FlushSchedulesAll` | ikcp.c:1048-1108 | a flush keeps number and contents of every segment, sends it at least once (unless `xmit` wraps), and leaves it due if and only if its delay is out of range |
| `EndpointGuarantees.FlushLeavesNothingDue` | ikcp.c:1048-1108 | with timeouts below 2^31 every segment in the buffer has been sent and has its deadline ahead |
| `FlushEffects.FlushFillsWindow` | ikcp.c:1016-1042 | a flush never lets the flight grow past `snd_wnd`, past `rmt_wnd`, or, unless `nocwnd`, past `cwnd`; if something stays queued, one of these is full |
| `FlushEffects.FlushNumbersFront` | ikcp.c:1020-1042 | what gets in flight is the front of the queue, in order, under the next numbers, behind what was there |
| `FlushEffects.OvertakenIsResent` | ikcp.c:1072-1081 | a sent segment with its deadline ahead is in the datagrams if and only if it was overtaken `fastresend` times (2^32 - 1 times with that off) and `fastlimit` allows it; then `xmit` is one more, `fastack` 0, the deadline `rto` ahead; otherwise it is unchanged |
| `FlushEffects.LateIsResent` | ikcp.c:1058-1071 | a sent segment with its deadline passed is in the datagrams, `rto` longer by itself or `rx_rto`, whichever is more (`nodelay` 0), by half of itself (1) or half of `rx_rto` (2 and more), and the deadline that far ahead |
| `FlushEffects.FirstIsSent` | ikcp.c:1052-1057 | a segment that was never sent is in the datagrams, with `rx_rto` for `rto` and an eighth more for the deadline unless `nodelay` is on |
| `FlushEffects.FlushAdjustsWindow` | ikcp.c:1116-1137 | if a sent segment was late, `ssthresh` is half of the smallest window (at least 2), `cwnd` 1 and `incr` one segment; if none was late and one was fast-retransmitted, `ssthresh` is half the flight (at least 2), `cwnd` is `fastresend` more, and `incr` as many segments; otherwise only a `cwnd` of 0 changes, to 1 |
| `FlushEffects.FlushReportsWindow` | ikcp.c:945-954 | every segment sent has the conversation, `rcv_nxt`, and the room left in the receive queue |
| `FlushEffects.FlushSays` | ikcp.c:956-1014 | the datagrams hold, in this order, one ACK for each pending acknowledgement with its number and timestamp; a WASK if the remote window is closed and the probe timer has run out; a WINS if one is owed; then only PUSH segments stamped now, oldest first |
| `FlushEffects.FlushSendsFragments` | ikcp.c:1083-1102 | a PUSH has the bytes and the `frg` of the segment in flight with its number |
| `FlushEffects.FlushProbes` | ikcp.c:970-990 | the probe timer: off with the window open; 7 s at first; after each probe half as much again, up to 120 s |
| `FlushEffects.FlushAccounts` | ikcp.c:968-1106 | the pending acknowledgements are cleared, the timeouts counted, the link marked dead if and only if it was or a segment was sent `dead_link` times; estimator, remote window and the rest of the receive side stay |
| `InputEffects.InputGrowsWindow` | ikcp.c:875-897 | for any bytes: if the datagram was read whole, `snd_una` moved and `cwnd` is below the advertised window, then below `ssthresh` `cwnd` grows by one and `incr` by one segment, and from there on `incr` grows as equation (3) of section 3.1 of RFC 5681 plus mss/16, with `cwnd` its rounded-up quotient once another segment fits, both cut at the advertised window; in every other case neither changes |
| `InputEffects.HeardIsNewest` | ikcp.c:798-805 | the number used for counting is the newest acknowledged in the datagram, if one is newer than all others |
| `InputEffects.NoNewest` | ikcp.c:798-805 | three numbers of which none is newer than both others |
| `InputEffects.InputCountsOvertaken` | ikcp.c:871-873 | a segment still in flight has `fastack` one more if and only if the newest acknowledgement is for a newer number in flight, and is otherwise unchanged |
| `InputEffects.InputOvertakesNothing` | ikcp.c:871-873 | without an acknowledgement in the datagram it is unchanged |
| `InputEffects.InputDropsAcknowledged` | ikcp.c:788-797 | for any bytes whose `una` fields are not within 65536 of the antipode of `snd_una`: exactly the numbers acknowledged by some segment, selectively or cumulatively, leave the send buffer |
| `InputEffects.LateUnaDropsMore` | ikcp.c:788-790 | near the antipode a `una` that covers nothing can empty the buffer after another has moved `snd_una` |
| `InputEffects.InputLearns` | ikcp.c:788-853 | for any bytes: `rmt_wnd` is the window of the last segment read; a WASK is remembered; the estimator takes one sample per ACK whose timestamp is not ahead, in order; clock and settings stay |
| `InputEffects.PushesAreAnswered` | ikcp.c:822-829 | for any bytes: the new pending acknowledgements echo number and timestamp of PUSH segments; every one in the receive window or behind it is echoed, and none ahead of it |
| `QueueEffects.MessageSendQueues` | ikcp.c:507-534 | message mode: a successful send puts the message behind the queue, every fragment but the last full, `frg` counting down to 0; a failing one changes nothing |
| `QueueEffects.StreamSendFills` | ikcp.c:477-534 | stream mode: the last queued fragment is filled first, and what does not fit is queued in full fragments, or not at all if there are too many |
| `QueueEffects.StreamSendStarts` | ikcp.c:477-534 | the same for an empty queue |
| `QueueEffects.RecvAnswers` | ikcp.c:358-435 | -1 for an empty queue, -2 for an incomplete message, -3 for too little room, none of which changes anything; otherwise the first message, which leaves the queue unless peeking; a WINS is owed if and only if one was or the queue was full and is not any more |
| `EndpointGuarantees.QuietUntilCheck` | ikcp.c:1183-1219 | updating the endpoint any number of times before the time `ikcp_check` returned sends nothing and changes only `current` |
| `Link.HearUnaKeepsLink` | ikcp.c:788-790 | a cumulative acknowledgement of an honest peer, at most 2^31 numbers old, drops only what the peer accepted |
| `Link.HearAckKeepsLink` | ikcp.c:792-797 | so does a selective one, and the segment it names leaves the buffer |
| `Link.HearPushKeepsLink` | ikcp.c:822-847 | a data segment keeps the received stream equal to the sent one; what is in reach is acknowledged |
| `Safety.StepKeepsSysInv` | ikcp.c:358-1171 | every step of the two-endpoint system keeps its invariant |
| `Safety.RunKeepsSysInv` | ikcp.c:358-1171 | so does every run |
| `Guarantees.EndToEndSafety` | ikcp.c:683-743 | in every reachable state the fragments delivered and queued are exactly the first `rcv_nxt` that the peer numbered, `frg` and bytes included |
| `Guarantees.NothingIsLost` | ikcp.c:571-607 | every numbered fragment is in the send buffer or was accepted; every acknowledgement in the network or pending names an accepted one; `snd_una <= rcv_nxt + rcv_wnd` of the peer |
| `Guarantees.AheadOnlyWhenFull` | ikcp.c:827-845 | `snd_una` is ahead of the peer's `rcv_nxt` only while the peer's queue is full |
| `Guarantees.HeldBackIsAcknowledged` | ikcp.c:827-845 | a full queue acknowledges a segment that it keeps in the reordering buffer |
| `Guarantees.SwapReachable` | ikcp.c:358-1171 | a state is reachable with the sides swapped too, so each promise about one direction holds of both |
| `HeldBack.FullQueueLosesIt` | ikcp.c:827-845 | from every reachable state (fewer than 2^31 fragments offered per direction) with the peer's queue full, something in flight and `snd_una` equal to the peer's `rcv_nxt`, a run without losses leads to a `snd_una` that is ahead |
| `HeldBack.UnaOvertakesNext` | ikcp.c:827-845 | a reachable state with `snd_una` ahead of the peer's `rcv_nxt` |
| `Guarantees.MessagesArriveInOrder` | ikcp.c:358-537 | message mode: the messages received are a prefix of the messages accepted, byte for byte |
| `Guarantees.BytesArriveInOrder` | ikcp.c:358-537 | either mode: the bytes received and queued are a prefix of the bytes taken over, which are those of the successful sends unless a failing one left some |
| `Guarantees.FullQueueIsReadable` | ikcp.c:441-463 | a full receive queue holds a whole message, and receiving it succeeds |
| `Messages.SendLeaksExactly` | ikcp.c:477-510 | a send succeeds if and only if what the tail does not take fits in 127 fragments; a failing one changes the state if and only if the tail had room |
| `Messages.FailingSendLeaks` | ikcp.c:477-510 | after creation and a send of 25 bytes, a failing send that leaves a byte behind |
| `Messages.QueueStartsAtMessage` | ikcp.c:383-409 | in message mode the receive queue starts with the next message that was not yet handed over |
| `Progress.ProgressIsPossible` | ikcp.c:931-1171 | from every reachable state with fewer than 2^31 fragments offered per direction, without further sends, a run in which every datagram sent is delivered and no update sets a clock back leads to empty send queues and buffers on both sides and to every message and byte received, also from a closed window |
| `Progress.AskAndHear` | ikcp.c:971-990 | with the remote window closed and the probe timer running, such a run leads to the peer having heard a WASK (it owes a WINS) |
| `Progress.TellAndHear` | ikcp.c:993-1012 | from there, if the peer's queue has room, such a run leads to the remote window being open again |
| `Progress.OpenWindow` | ikcp.c:971-1042 | from a state with fragments queued and none in flight, also with the remote window closed, such a run puts one in flight |
| `Liveness.EveryFairRunDelivers` | ikcp.c:358-1171 | in every infinite run without further sends in which every datagram sent arrives some time (late, out of order or twice, but not for ever), both sides go on updating with steps of at most 2^29 ms, and both applications go on receiving: from some moment on nothing is queued or in flight on either side, and the applications have every message and every byte |
| `Liveness.InFlightAdvances` | ikcp.c:571-607 | in such a run, whatever is in flight, `snd_una` moves on |
| `Liveness.WindowMoves` | ikcp.c:970-1042 | in such a run, with something left to send and nothing in flight, something gets in flight, also from a closed window |
| `FairRuns.FlushAfter` | ikcp.c:1146-1171 | in such a run, for every deadline each side flushes at a time past it, across wrap-around |
| `FairSchedule.FairRunExists` | ikcp.c:358-1171 | from every reachable state with fewer than 2^31 fragments offered per direction there is such a run |
| `KcpObject.Kcp.constructor` | ikcp.c:234-295 | creation gives the initial state |
| `KcpObject.Kcp.PeekSize` | ikcp.c:441-463 | the loop over the queue computes the length of the next message |
| `KcpObject.Kcp.MoveAvailable` | ikcp.c:413-425 | the draining loop is `Drain` |
| `KcpObject.Kcp.Merge` | ikcp.c:383-409 | the merging loop copies one message and takes it off the queue unless peeking |
| `KcpObject.Kcp.Recv` | ikcp.c:358-435 | state, code and bytes are those of `Endpoint.Recv` |
| `KcpObject.Kcp.QueueFragments` | ikcp.c:514-534 | the fragmenting loop queues the fragments of the rest |
| `KcpObject.Kcp.Send` | ikcp.c:469-537 | state and code are those of `Endpoint.Send` |
| `KcpObject.Kcp.ParseUna` | ikcp.c:593-607 | the early-exit loop is the filter by offset from `snd_una` |
| `KcpObject.Kcp.ParseAck` | ikcp.c:571-591 | the early-exit loop removes the segment with that number, if any |
| `KcpObject.Kcp.ParseFastack` | ikcp.c:609-631 | the early-exit loop counts up every older segment |
| `KcpObject.Kcp.UpdateAck` | ikcp.c:543-558 | the assignments compute the estimator's update |
| `KcpObject.Kcp.InsertSeg` | ikcp.c:695-713 | the backward scan with its early exits and the insertion behind it are insertion in order without duplicates |
| `KcpObject.Kcp.ParseData` | ikcp.c:683-743 | the window test, the insertion and the drain are `RecvBuffer.ParseData` |
| `KcpObject.Kcp.HearDatagram` | ikcp.c:761-869 | the loop over the datagram reads inside it, and is the parse followed by the fold of the per-segment steps |
| `KcpObject.Kcp.GrowWindow` | ikcp.c:876-896 | the window assignments compute `OnAck` |
| `KcpObject.Kcp.Input` | ikcp.c:749-900 | for any bytes, state and code are those of `Endpoint.Input` |
| `KcpObject.Kcp.EncodeSeg` | ikcp.c:906-917 | the header bytes are written behind what is in the buffer |
| `KcpObject.Kcp.Emit` | ikcp.c:1089-1102 | one more segment through the write pointer keeps the buffer and the output what packing makes of the segments so far, inside the buffer |
| `KcpObject.Kcp.FlushAcks` | ikcp.c:956-966 | the acknowledgement loop packs one segment per pending acknowledgement |
| `KcpObject.Kcp.RunProbeTimer` | ikcp.c:970-990 | the probe branch is the probe timer |
| `KcpObject.Kcp.MoveToBuf` | ikcp.c:1020-1042 | the loop numbers exactly what the window admits |
| `KcpObject.FlushSegment` | ikcp.c:1052-1081 | the three cases of the flush loop for one segment |
| `KcpObject.Kcp.FlushData` | ikcp.c:1048-1108 | the loop over the send buffer packs the due segments, updates all, and counts what was lost and overtaken |
| `KcpObject.Kcp.AdjustWindow` | ikcp.c:1116-1137 | the final assignments compute `OnFlush` |
| `KcpObject.Kcp.Flush` | ikcp.c:931-1138 | the new state is that of `Endpoint.Flush`, and the byte strings handed over are the encodings of its datagrams |
| `KcpObject.Kcp.Update` | ikcp.c:1146-1171 | the same for `Endpoint.Update` |
| `KcpObject.Kcp.Check` | ikcp.c:1183-1219 | the loop with its early return computes `FlushClock.Check` |
| `AckList.AckArray.Push` | ikcp.c:637-671 | appends one pair to the pairs stored, growing the block if need be |
| `AckList.AckArray.Grow` | ikcp.c:642-664 | the new block holds what is needed, is 8 or less than twice that, and keeps the contents |
| `AckList.AckArray.Get` | ikcp.c:673-677 | reads the pair at a position |
| `Settings.SettingsAreValid` | ikcp.c:1223-1284 | any settings made through `ikcp_setmtu`, `ikcp_wndsize`, `ikcp_nodelay`, `ikcp_interval` and the stream flag, in the wrapper's ranges, satisfy what this model assumes |
| `Settings.LastSettingCounts` | ikcp.c:1223-1284 | for each field the last setting with a usable value counts, with the window at least 128, the interval from 10 to 5000, and the smallest timeout 30 or 100 ms after `nodelay` |
| `Settings.OtherwiseDefaults` | ikcp.c:234-295 | a field never set has the value of creation |
| `IntrusiveList.Add` | ikcp.h:165-167 | `IQUEUE_ADD` behind any node is insertion there |
| `IntrusiveList.AddTail` | ikcp.h:169-171 | `IQUEUE_ADD_TAIL` is appending |
| `IntrusiveList.Del` | ikcp.h:175-178 | `IQUEUE_DEL` of any node is removal, and clears its pointers |
| `IntrusiveList.IsEmpty` | ikcp.h:183 | `IQUEUE_IS_EMPTY` says whether the ring has no node |
| `IntrusiveList.Queue.FindPlace` | ikcp.c:695-705 | the scan by `prev` pointers finds a segment with the number or the place for it |
| `IntrusiveList.Queue.InsertSegment` | ikcp.c:695-713 | on pointers, the insertion of a segment is the ordered insert without duplicates |
| `IntrusiveList.Memory.Delete` | ikcp.c:179-182 | a segment that is allocated and in no queue becomes one that was freed; no other changes, and none is freed twice |
| `SegmentQueues.Alloc` | ikcp.c:173-176 | one segment more is allocated, in no queue yet, and all others are still in their queues |
| `SegmentQueues.Free` | ikcp.c:581-584 | a segment is taken out of its queue and freed, and nothing else is |
| `SegmentQueues.Move` | ikcp.c:1025-1030 | moving the first segment of a queue to the tail of another keeps the order of both, and that the queues hold exactly the allocated segments |
| `SegmentQueues.ExtendTail` | ikcp.c:478-500 | the tail of a queue, if it has room, is replaced by a new segment with its data and more, and freed; the fragments are those of `Endpoint.ExtendTail` |
| `SegmentQueues.Accept` | ikcp.c:695-717 | a received segment is inserted in order, or freed if its number is there already |
| `SegmentQueues.MoveAvailable` | ikcp.c:720-732 | on pointers, the draining loop is `RecvBuffer.Drain` |
| `SegmentQueues.ParseData` | ikcp.c:683-743 | on pointers, `ikcp_parse_data` is `RecvBuffer.ParseData`; outside the window or repeated, the segment is freed |
| `SegmentQueues.ParseUna` | ikcp.c:593-607 | on pointers, the scan with its early exit leaves `SendBuffer.ParseUna`, and frees exactly what it takes out |
| `SegmentQueues.ParseAck` | ikcp.c:571-591 | the same for `SendBuffer.ParseAck` |
| `SegmentQueues.ParseFastack` | ikcp.c:609-631 | on pointers, the scan with its early exit leaves `SendBuffer.ParseFastack` |
| `SegmentQueues.Sweep` | ikcp.c:1048-1081 | on pointers, the loop of a flush updates every segment in flight as `Retransmission.Flushed` says |
| `SegmentQueues.NumberNext` | ikcp.c:1025-1041 | the first queued segment goes to the end of those in flight with its number, deadline and timeout |
| `SegmentQueues.InOnePlace` | ikcp.h:165-178 | a segment that the queues hold is in exactly one of them, at one position |
| `SegmentQueues.CountersAddUp` | ikcp.c:1029-1030 | the four counters add up to the number of allocated segments |
| `SegmentQueues.Release` | ikcp.c:301-342 | afterwards nothing is allocated, and all counters are 0 |
| `SegmentRuns.PerformAll` | ikcp.c:358-1081 | over any run of queueing, extending, numbering, flushing, acknowledging, receiving and taking: the queues hold what the same run leaves in lists; as many segments are allocated as the run asks for; each is in one queue at one position, or was freed; the counters add up |
| `SegmentRuns.Segments.Conserved` | ikcp.c:301-342 | at any time the segments ever allocated are those freed and those in the four lists |
| `SegmentRuns.WholeLife` | ikcp.c:234-342 | from creation through any such run to release: as many segments are freed, each once, as the run allocated, and none is left |
| `TimerSet.ExpireHandsOutTheDue` | ktimer.cpp:168-196 | one call hands out exactly the due timers that were not cancelled, in order of deadline and number; what stays are the others and the recurring ones with their next deadline, in order |
| `TimerSet.StepKeepsOrder` | ktimer.h:52-68 | every operation keeps the set ordered and the numbers unique |
| `TimerSet.TimersKeepTheirSchedule` | ktimer.cpp:79-84 | over any run that leaves it its period p, a timer with first deadline d that fired k times is next due at d + k*p, and k <= (now - d)/p + 1 |
| `TimerManager.KTimerManager.Insert` | ktimer.cpp:206 | inserting is the ordered insert |
| `TimerManager.KTimerManager.ListExpiredTimer` | ktimer.cpp:168-196 | both loops together compute `TimerSet.Expire`, callbacks and set |
| `TimerManager.KTimerManager.AddTimer` | ktimer.cpp:198-218 | the set gains the timer, and the waiting thread is told exactly when it is the first and nobody was told since |
| `TimerManager.KTimerManager.DelTimer` | ktimer.cpp:156-166 | exactly the timer with that number leaves |
| `TimerManager.KTimerManager.GetNearTimeout` | ktimer.cpp:121-135 | nothing is due before the time it names, and something is from then on |

## Left out

- Fields of the C structs that are written but never read back: `conv`, `cmd`, `wnd`, `una` and `ts` of stored segments, `ts_recent`, `ts_lastack`, `logmask`, `user`.
- Logging, allocator hooks, `ikcp_qprint`, `#if 0` blocks and the `IKCP_FASTACK_CONSERVE` variant.
- `ikcp_getconv`, `ikcp_waitsnd` and `ikcp_setoutput`: one-line accessors.
- Changing the MTU or shrinking `rcv_wnd` while traffic is under way: queued segments may then exceed the new mss, so settings are made before.
- Kcp: keeps its four lists as sequences; the pointer level is in `IntrusiveList`, `SegmentQueues` and `SegmentRuns`, which have every loop that changes the lists. A node there has the number of a received segment and that of one in flight in different fields. The acknowledgement list is a sequence too; its array is in `AckList`. The two bits of `probe` are two booleans.
- RttEstimator.UpdateAck: signed overflow, undefined in C, wraps; `UpdateIsRfc6298` shows that it does not occur for samples below 2^28.
- InputEffects.InputDropsAcknowledged: excludes `una` fields within 65536 of the antipode of `snd_una`, for which `LateUnaDropsMore` shows that it fails; the invariants hold for these as well.
- Progress.ProgressIsPossible: the continuation picks how far each update moves the clock on, and datagrams sent before it begins need not arrive. `Liveness.EveryFairRunDelivers` is about every schedule.
- Liveness.EveryFairRunDelivers: gives no bound on the time it takes, and is about runs without further sends, so that what was offered stays below 2^31 fragments.
- TimerSet: times are unbounded milliseconds; the period of a timer may change (`setRecycleTime`), but `cancel`, `reset` and `setNextTime` on a timer in the set change its key in place and are excluded, as are `addConditionTimer`, locks and shared ownership.
- `kcp.cpp`, `kfiber`, `kthread`, `kschedule` and `kcpmanager`: sockets, context switches, threads and epoll plumbing.
