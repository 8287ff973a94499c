# Verified models of the net-drv test suite algorithms

This project models, in Dafny, the algorithms inside a network driver test suite: the checkers that judge captured
packets, the paced sender and the receiver behind them, the transactions on PHY and coalescing settings, and the life
of AF_XDP sockets and receive rules when any call may fail. It proves what these algorithms compute and what they
leave behind. Run `dafny verify dfyconfig.toml` to check everything.

## How the code is represented

- Callback structures, configuration trees, the XDP agent and rule tables are classes whose methods follow the C
  functions branch by branch. A ghost `Value()` gives the fields as one value and each callback is proved to be a step
  function on it; the theorems are about the run of that step function over a whole capture.
- Unsigned arithmetic is 32-bit or 64-bit where the code uses such types (`Common`). Comparing sequence numbers is the
  sign of their difference read as a signed 32-bit number (section 3.4 of RFC 9293). Sequence numbers are lifted to
  unbounded stream positions (`Segments.Span`); a capture is in a window when all its bytes lie within less than 2^31.
- C doubles are exact reals. Instead of a square root, squared errors are compared with squared limits; the C test
  divides by the target, which multiplies both sides here.
- Microseconds become milliseconds by truncating division by 1000. An unknown PHY speed is -1, outside of what a mode
  name can say.
- Calls into the test engine, the kernel and libxdp are methods whose outcomes are arbitrary: an input by number of the
  call for the PHY tree and the rule table, nondeterministic elsewhere. Counters record how many of them failed, so
  contracts say that an operation succeeds exactly when no call it made failed.
- A configuration GET is refused while any local SET is not committed. A failed commit, of PHY or of coalescing
  settings, may apply any part of what is staged, and may keep or drop it; a failed coalescing SET may have taken
  effect. Inserting a receive rule at an explicit occupied location replaces the rule.
- The clock of the sender is an arbitrary function of the number of the call; the only thing asked of it is that at
  some call it is past the time to run and one more delay, without which the loop does not end.

## What was found

- `finish_pkt_group()` reads a 64-bit packet number into a 32-bit variable. Exactly the groups with a late packet are
  ignored, for all group boundaries, if and only if every late number is below 2^32 (`DelayCursor.ExactIffFit32`).
- `get_pkt_id()` accepts any non-zero byte as the end marker (`PacketId.DecodeExact`); the marker itself is needed
  (`PacketId.MarkerNeeded`).
- The mode name parser takes what strtoul() takes: white space, a plus, and after a minus the number counted from 2^64
  down, so that -18446744073709551615base_Full is a mode of speed 1 (`PhyModes.ParseExact`).
- The receiver accepts exactly strictly increasing packet numbers below 2^63; a number from 2^63 on is always reported
  as out of order or as a duplicate (`ExactDelay.DisorderCaught`).
- The scenario in `tso.c` (lines 479-481) says that all packets on the receiver but the last must be of MSS size. The
  code compares with the split of each transmitted segment, so a short packet may come at the end of every one of them.
  The text holds if and only if every transmitted segment but the last one with data is a multiple of the MSS long
  (`Tso.FullSizeOnReceiver`, with a counterexample in `Tso.ShortPacketInTheMiddle`).
- The splitting loop ends if and only if the MSS is not zero or there is nothing to split (`Tso.SplitLoopEnds`).
- In both coalescing tests the check of the average never decides anything: the deviation is at least as large
  (`RxCoalesceUsecs.DeviationDecides`, `RxCoalesceFrames.DeviationDecides`).
- When all deletions succeed, the fill and drain of receive rules gives back the initial table under "any location";
  with explicit locations it does if and only if no initial rule is at a location below the number of rules the device
  accepts (`RxRules.TooManyRxRules`); `RxRules.InitialRuleLost` is a rule that is overwritten and then deleted. The
  test around it insists on an empty table, which comes back as long as no deletion fails (`RxRules.RunTest`).
- A successful restore of the PHY state gives the whole configuration if and only if autonegotiation was off when it
  was saved or administrative speed and duplex were not changed; this is what the header promises
  (`PhyConfig.RestoreCompleteIff`).
- An operation that fails may leave settings staged, exactly when a SET went through and no failed commit dropped what
  was staged. `link_fixed_mode.c` goes on after EINVAL and EOPNOTSUPP, so the cleanup may begin with something staged.
  It then restores nothing: every GET is refused. Whatever failed before, the cleanup restores if and only if nothing
  is staged when it begins and no other call of it fails (`PhyConfig.Cleanup`, `PhyConfig.RunTest`,
  `LinkFixedMode.RunTest`); `PhyConfig.RestoreRefused` is a run in which the second fixed mode is refused with EINVAL and
  the interface stays in the first.

## Model

| member | source | states |
|---|---|---|
| SeqNum.CompareLifted | net-drv-ts/offload/tso.c:88-95 | comparing wrapped sequence numbers orders stream positions less than 2^31 apart |
| Segments.SplitCount | net-drv-ts/offload/tso.c:156-169 | a segment gives ceil(len / mss) chunks of 1 to mss bytes, all but the last full |
| Segments.SplitChunk | net-drv-ts/offload/tso.c:161-168 | chunk k starts k * mss bytes into the segment, modulo 2^32, and is full unless the segment ends first |
| Segments.SplitAllCount | net-drv-ts/offload/tso.c:143-171 | a list of segments gives the sum of ceil(len / mss) chunks, each of 1 to mss bytes |
| Segments.SplitAllBytes | net-drv-ts/offload/tso.c:143-171 | splitting keeps the payload bytes and their order, across the sequence number wrap |
| Segments.SplitAllCompose | net-drv-ts/offload/tso.c:143-171 | splitting by mss and then by a divisor of mss is splitting by the divisor |
| Segments.SplitAllIdempotent | net-drv-ts/offload/tso.c:143-171 | splitting twice by the same MSS is splitting once |
| Segments.SplitAllTiles | net-drv-ts/offload/tso.c:143-171 | chunks of segments that tile a byte range tile the same range |
| Segments.FullButLastIff | net-drv-ts/offload/tso.c:143-171 | all chunks but the very last are full if and only if every segment but the last one with data is a multiple of the MSS long |
| Tso.PktsInfo.ProcessPkts | net-drv-ts/offload/tso.c:52-119 | the callback is the step function whose runs the span and verdict lemmas characterise |
| Tso.SpanRefined | net-drv-ts/offload/tso.c:80-100 | inside a window below 2^31, in any order, the tracked range is smallest start, greatest start and greatest end minus smallest start; segments are recorded in order and large packets are detected exactly |
| Tso.SpanOrderIndependent | net-drv-ts/offload/tso.c:80-100 | reordering a capture does not change the tracked range or the large packet flag |
| Tso.UnreadableFails | net-drv-ts/offload/tso.c:60-78 | a capture is failed if and only if some packet could not be read |
| Tso.CheckCsapGen | net-drv-ts/offload/tso.c:121-141 | for the host whose capture it is, each verdict is given if and only if its condition holds: failed, empty, wrong number of bytes, or none of these |
| Tso.SplitPktsByMss | net-drv-ts/offload/tso.c:143-171 | the loops compute the MSS split for which the splitting lemmas are proved; the number of turns of the inner loop on each segment is the one SplitLoopEnds is about |
| Tso.SplitPkt | net-drv-ts/offload/tso.c:156-169 | the inner loop gives the chunks of one segment and leaves it after exactly the turns recorded |
| Tso.SplitLoopEnds | net-drv-ts/offload/tso.c:156-169 | for any MSS, there is a number of turns after which the inner loop leaves a segment if and only if the MSS is positive or the segment is empty |
| Tso.CheckRxPkts | net-drv-ts/offload/tso.c:173-209 | true if and only if both lists are equal, in number, sequence numbers and lengths |
| Tso.CheckCapturedPkts | net-drv-ts/offload/tso.c:218-271 | every verdict is given exactly when due, in the order of the checks: those on the sender first, those on the receiver only when the sender's pass; pass is equivalent to all checks |
| Tso.VerdictUnique | net-drv-ts/offload/tso.c:218-271 | the conditions of the verdicts exclude each other, so the captures determine the verdict |
| Tso.VerdictExact | net-drv-ts/offload/tso.c:218-271 | for Tx segments tiling the bytes sent: pass if and only if Rx is the MSS split of Tx and large Tx packets were seen exactly when TSO is on |
| Tso.PassMeansSegmented | net-drv-ts/offload/tso.c:121-271 | a pass means that Rx tiles the sent range in order by segments of 1 to mss bytes and carries the same bytes |
| Tso.FullSizeOnReceiver | net-drv-ts/offload/tso.c:479-481 | the scenario's claim holds of a pass if and only if every Tx segment but the last one with data is a multiple of the MSS long |
| Tso.ShortPacketInTheMiddle | net-drv-ts/offload/tso.c:479-482 | a concrete capture that passes with a short packet before the last one |
| MtuTcp.CbArgs.ProcessTcp | net-drv-ts/basic/mtu_tcp.c:74-130 | the callback is the step function whose runs the verdict lemmas characterise |
| MtuTcp.CbArgs.CheckIteration | net-drv-ts/basic/mtu_tcp.c:420-436 | the run over the capture starts with only the packet counter reset; each verdict is given exactly under its condition |
| MtuTcp.VerdictExact | net-drv-ts/basic/mtu_tcp.c:83-125 | in a window below 2^31, pass if and only if no payload exceeds the maximum and every packet with a later one in the stream carries exactly it |
| MtuTcp.VerdictOrderIndependent | net-drv-ts/basic/mtu_tcp.c:83-125 | any reordering of a capture has the same verdict |
| MtuTcp.FullSegmentationPasses | net-drv-ts/basic/mtu_tcp.c:420-436 | every reordering of the maximal segmentation of any send passes |
| MtuTcp.LeftoverIrrelevant | net-drv-ts/basic/mtu_tcp.c:83-125 | the verdict of an iteration does not depend on counter and sequence numbers left by earlier ones |
| MtuTcp.UnreadableFails | net-drv-ts/basic/mtu_tcp.c:88-101 | the run fails if and only if it had failed before or some packet cannot be read |
| MtuUdp.CbArgs.constructor | net-drv-ts/basic/mtu_udp.c:324-348 | the fields start at zero, with the MTU and, when fragmentation is expected, the intermediate fragment size |
| MtuUdp.CbArgs.ProcessEth | net-drv-ts/basic/mtu_udp.c:72-147 | the callback is the step function whose runs VerdictExact and, by the fields of the packets, DatagramAccepted and OversizedCaught characterise; ICMPv6 packets leave no trace |
| MtuUdp.CbArgs.CheckIteration | net-drv-ts/basic/mtu_udp.c:398-414 | the run over the capture starts with only the packet counter reset; each verdict is given exactly under its condition |
| MtuUdp.VerdictExact | net-drv-ts/basic/mtu_udp.c:81-142 | pass if and only if the packets that are not ICMPv6 are a non-empty train, none above the MTU, all but the last of MTU or maximal fragment size; SizesByFields says what the sizes are |
| MtuUdp.UnreadableFails | net-drv-ts/basic/mtu_udp.c:86-117 | the run fails if and only if it had failed before or the length of some packet cannot be read |
| MtuUdp.FragmentsExact | net-drv-ts/basic/mtu_udp.c:334-348 | a maximal fragmentation (section 3.2 of RFC 791) sums to the datagram, all pieces but the last being the largest multiple of 8 that fits |
| MtuUdp.OneFormula | net-drv-ts/basic/mtu_udp.c:344-345 | the one formula for the fragment size is right for IPv4 and for IPv6 with its fragment header (section 4.5 of RFC 8200) |
| MtuUdp.FragmentationAccepted | net-drv-ts/basic/mtu_udp.c:81-142 | for every MTU and datagram length the packet sizes of a maximal fragmentation pass |
| MtuUdp.SizesByFields | net-drv-ts/basic/mtu_udp.c:86-117 | without the packets of next header 58, the size of a packet is its length field, plus 40 bytes for IPv6 |
| MtuUdp.DatagramAccepted | net-drv-ts/basic/mtu_udp.c:81-142 | for packets given by their header fields: every datagram passes, whole or in maximal fragments, with 20 bytes of header counted for IPv4 and 8 of fragment header for IPv6, for every MTU with room for 8 bytes of data and any ICMPv6 packets in between |
| MtuUdp.MaximalFragments | net-drv-ts/basic/mtu_udp.c:334-348 | there is such a fragmentation of every datagram |
| MtuUdp.OversizedCaught | net-drv-ts/basic/mtu_udp.c:136-142 | a length field above the MTU, for IPv6 above the MTU less 40, makes the verdict a too big packet |
| MtuUdp.FragmentSizeNeeded | net-drv-ts/basic/mtu_udp.c:334-348 | without the fragment size a fragmented datagram passes if and only if the MTU less the header is a multiple of 8 |
| PacketId.GetPktId | net-drv-ts/rx_path/rx_coalesce_usecs.c:193-242 | the backward scan finds the last non-zero byte and reads the eight bytes before it; no payload or too few bytes is an error |
| PacketId.PayloadIsBigEndian | talib_net_drv_ts/rpc.c:227-265 | whatever the byte order of the host, the payload is the number in network order and the byte 0xff |
| PacketId.RoundTrip | net-drv-ts/rx_path/rx_coalesce_usecs.c:203-241 | every 64-bit number sent by any host is read back by any host, under any zero padding |
| PacketId.DecodeExact | net-drv-ts/rx_path/rx_coalesce_usecs.c:213-240 | reading gives a number if and only if the frame is anything, the number, one non-zero byte and zeros |
| PacketId.MarkerNeeded | talib_net_drv_ts/rpc.c:229-233 | without the end marker the number 256 cannot be read |
| DelayCursor.Low32IsWrap | net-drv-ts/rx_path/rx_coalesce_usecs.c:149-156 | the value read into the 32-bit variable is the number modulo 2^32 |
| DelayCursor.SkipDelayed | net-drv-ts/rx_path/rx_coalesce_usecs.c:152-176 | the cursor loop computes the close step that the exactness lemmas characterise |
| DelayCursor.CursorPosition | net-drv-ts/rx_path/rx_coalesce_usecs.c:152-176 | after a close at number b the cursor is at the first late number above b, all up to b being behind it |
| DelayCursor.CursorNeverRetreats | net-drv-ts/rx_path/rx_coalesce_frames.c:132-156 | the cursor never moves back |
| DelayCursor.SkipsExact | net-drv-ts/rx_path/rx_coalesce_frames.c:132-156 | a group is ignored if and only if some late number is above the previous boundary and not above its own |
| DelayCursor.ExactIffFit32 | net-drv-ts/rx_path/rx_coalesce_usecs.c:149-176 | this exactness holds for all boundaries if and only if all late numbers fit 32 bits |
| DelayCursor.WideNumberFails | net-drv-ts/rx_path/rx_coalesce_usecs.c:149-176 | for any list with a wider late number, concrete boundaries for which a wrong group is ignored or kept |
| PacketGroups.BoundsExact | net-drv-ts/rx_path/rx_coalesce_usecs.c:317-328 | groups are closed exactly at the packets after a gap above the threshold, in order |
| PacketGroups.GroupsAreRuns | net-drv-ts/rx_path/rx_coalesce_frames.c:297-301 | no packet within a group comes after such a gap |
| PacketGroups.MeasuresExact | net-drv-ts/rx_path/rx_coalesce_usecs.c:178-188 | closing number, duration and size of each group are those of its first packet and the one that closes it |
| PacketGroups.Telescope | net-drv-ts/rx_path/rx_coalesce_usecs.c:317-328 | durations sum to the start of the pending group minus the first timestamp, sizes to the packets before it |
| KeptGroups.IgnoredExactlyWhenLate | net-drv-ts/rx_path/rx_coalesce_usecs.c:143-189 | from both captures: a group is ignored if and only if a packet sent after a too long gap is numbered in its range |
| KeptGroups.KeptIsClean | net-drv-ts/rx_path/rx_coalesce_frames.c:123-169 | the groups counted are exactly those without a late packet |
| KeptGroups.Conserved | net-drv-ts/rx_path/rx_coalesce_frames.c:158-168 | counted plus ignored durations, and sizes, make up all the closed groups |
| Deviation.CauchySchwarz | net-drv-ts/rx_path/rx_coalesce_frames.c:158-166 | n times the squared deviations is at least the square of the summed deviations |
| Deviation.BiasWithinDeviation | net-drv-ts/rx_path/rx_coalesce_frames.c:575-582 | the squared error of the mean is at most the mean squared deviation |
| Deviation.RootBound | net-drv-ts/rx_path/rx_coalesce_frames.c:575-582 | hence the error of the mean is at most the root of the mean squared deviation |
| RxCapture.CaptureArgs.ReadPacket | net-drv-ts/rx_path/rx_coalesce_usecs.c:290-315 | counts every packet, then keeps an earlier failure, or fails on a missing timestamp or number, or records the number |
| RxCapture.ReadExact | net-drv-ts/rx_path/rx_coalesce_usecs.c:195-242 | a packet is read if and only if it has a timestamp and a payload with a number, and gives these two |
| RxCapture.FiveDelays | net-drv-ts/rx_path/rx_coalesce_usecs.c:278 | the threshold for a late packet is five send delays, in 32-bit arithmetic |
| RxCapture.CaptureArgs.ProcessTxPkts | net-drv-ts/rx_path/rx_coalesce_usecs.c:244-287 | the callback is the step function whose runs TxRecordsLate and UnreadableFails characterise |
| RxCapture.TxRecordsLate | net-drv-ts/rx_path/rx_coalesce_frames.c:224-267 | the numbers recorded are those of the packets after a gap above five send delays, in order |
| RxCapture.UnreadableFails | net-drv-ts/rx_path/rx_coalesce_usecs.c:244-287 | the transmit pass counts every packet, and fails if and only if some packet cannot be read |
| RxCoalesceUsecs.TestCbArgs.FinishPktGroup | net-drv-ts/rx_path/rx_coalesce_usecs.c:143-189 | moves the cursor, counts the group unless it is ignored, and starts the next one |
| RxCoalesceUsecs.TestCbArgs.ProcessRxPkts | net-drv-ts/rx_path/rx_coalesce_usecs.c:290-333 | the callback is the step function whose runs RunTracks characterises |
| RxCoalesceUsecs.TestCbArgs.FinalizeStats | net-drv-ts/rx_path/rx_coalesce_usecs.c:339-355 | with groups counted, mean and mean squared deviation are the sums divided by their number; with none they are left as they were |
| RxCoalesceUsecs.TestCbArgs.Judge | net-drv-ts/rx_path/rx_coalesce_usecs.c:655-691 | pass if and only if packets were captured and read and the distribution, or with moderation off the number of groups, is within the limits; LimitsInIntegers says which these are |
| RxCoalesceUsecs.LimitsInIntegers | net-drv-ts/rx_path/rx_coalesce_usecs.c:669-691 | for a target above 0, pass if and only if some group was counted and 100 times the squared deviations are at most their number times the square of the target; for target 0, if and only if 200 times the number of groups is at most that of packets |
| RxCoalesceUsecs.TestCbArgs.RunTest | net-drv-ts/rx_path/rx_coalesce_usecs.c:626-693 | for every two captures, each early exit exactly when a capture is empty or has an unreadable packet, and a pass exactly under the condition VerdictExact characterises |
| RxCoalesceUsecs.RunTracks | net-drv-ts/rx_path/rx_coalesce_usecs.c:290-333 | after any readable stream the callback data is what the groups of the stream say: cursor, start of the pending group and statistics of the groups that are not ignored |
| RxCoalesceUsecs.ReceiveFails | net-drv-ts/rx_path/rx_coalesce_usecs.c:290-315 | the receive pass counts every packet, and fails if and only if it had failed before or some packet cannot be read |
| RxCoalesceUsecs.StatsOfKept | net-drv-ts/rx_path/rx_coalesce_usecs.c:178-188 | the statistics are number, sum and squared deviations of the durations not ignored |
| RxCoalesceUsecs.DurationsConserved | net-drv-ts/rx_path/rx_coalesce_usecs.c:178-188 | counted plus ignored durations are the time from the first packet to the start of the pending group |
| RxCoalesceUsecs.DeviationDecides | net-drv-ts/rx_path/rx_coalesce_usecs.c:670-685 | on every capture below 2^32 packets, readable or not, the verdict on the distribution is that of the deviation alone |
| RxCoalesceUsecs.VerdictExact | net-drv-ts/rx_path/rx_coalesce_usecs.c:626-691 | from any two captures with ascending numbers to the verdict: pass if and only if neither is empty, all packets can be read, and the groups of received packets without a late packet are within the limits, as whole numbers |
| RxCoalesceUsecs.CheckCaptures | net-drv-ts/rx_path/rx_coalesce_usecs.c:626-691 | the test from its parameters and two captures to the verdict: pass under exactly these conditions, late meaning a gap above five send delays |
| RxCoalesceFrames.TestCbArgs.FinishPktGroup | net-drv-ts/rx_path/rx_coalesce_frames.c:123-169 | moves the cursor, counts the group unless it is ignored, and empties the pending group |
| RxCoalesceFrames.TestCbArgs.ProcessRxPkts | net-drv-ts/rx_path/rx_coalesce_frames.c:270-306 | the callback is the step function whose runs RunTracks characterises |
| RxCoalesceFrames.TestCbArgs.FinalizeStats | net-drv-ts/rx_path/rx_coalesce_frames.c:312-328 | with groups counted, mean and mean squared deviation are the sums divided by their number; with none they are left as they were |
| RxCoalesceFrames.TestCbArgs.Judge | net-drv-ts/rx_path/rx_coalesce_frames.c:563-586 | pass if and only if packets were captured and read, groups were counted and the distribution is within the limit; LimitsInIntegers says which this is |
| RxCoalesceFrames.LimitsInIntegers | net-drv-ts/rx_path/rx_coalesce_frames.c:570-586 | pass if and only if some group was counted and 400 times the squared deviations are at most 9 times their number times the square of the target |
| RxCoalesceFrames.TestCbArgs.RunTest | net-drv-ts/rx_path/rx_coalesce_frames.c:546-588 | for every two captures, each early exit exactly when a capture is empty or has an unreadable packet, and a pass exactly under the condition VerdictExact characterises |
| RxCoalesceFrames.RunTracks | net-drv-ts/rx_path/rx_coalesce_frames.c:270-306 | after any readable stream below 2^31 packets the callback data is what the groups of the stream say |
| RxCoalesceFrames.ReceiveFails | net-drv-ts/rx_path/rx_coalesce_frames.c:270-295 | the receive pass counts every packet, and fails if and only if it had failed before or some packet cannot be read |
| RxCoalesceFrames.StatsOfKept | net-drv-ts/rx_path/rx_coalesce_frames.c:158-168 | the statistics are number, sum and squared deviations of the sizes not ignored, no 32-bit counter overflowing |
| RxCoalesceFrames.PacketsConserved | net-drv-ts/rx_path/rx_coalesce_frames.c:158-168 | counted sizes, ignored sizes and the pending group make up all the packets |
| RxCoalesceFrames.DeviationDecides | net-drv-ts/rx_path/rx_coalesce_frames.c:575-586 | on every capture below 2^31 packets, readable or not, the verdict on the distribution is that of the deviation alone |
| RxCoalesceFrames.VerdictExact | net-drv-ts/rx_path/rx_coalesce_frames.c:546-586 | from any two captures with ascending numbers to the verdict: pass if and only if neither is empty, all packets can be read, and the groups of received packets without a late packet are within the limits, as whole numbers |
| RxCoalesceFrames.CheckCaptures | net-drv-ts/rx_path/rx_coalesce_frames.c:546-586 | the test from its parameters and two captures to the verdict: pass under exactly these conditions, late meaning a gap above five send delays and groups being apart by more than 100 microseconds |
| ExactDelay.SendPktsExactDelay | talib_net_drv_ts/rpc.c:237-310 | for any clock: numbered packets, each sent by the first clock reading beyond its moment; packet k after (k+1) delays, at most one packet an interval, n * delay below (time2run + 1) ms; the result is the count, or -1 at the first packet not sent whole |
| ExactDelay.SendLoop | talib_net_drv_ts/rpc.c:257-309 | the loop ends, with an error or at the first reading beyond the next moment that is past the time to run |
| ExactDelay.PromptIsPaced | talib_net_drv_ts/rpc.c:264-287 | sending at the first reading beyond the next moment implies the pacing and rate bounds |
| ExactDelay.NextMomentExact | talib_net_drv_ts/rpc.c:264-271 | the next sending moment is the first multiple of the delay after the last time, so missed moments are skipped; without a delay it is the start |
| ExactDelay.RecvPktsExactDelay | talib_net_drv_ts/rpc.c:317-392 | for arbitrary poll and recv outcomes: the number of packets up to the timeout if they are whole and strictly increasing below 2^63, otherwise -1 |
| ExactDelay.LossyChannel | talib_net_drv_ts/rpc.c:257-391 | over any channel that loses but keeps order, between any hosts, what the receiver gets is in order, and is the number delivered |
| ExactDelay.Exchange | talib_net_drv_ts/rpc.c:237-392 | both calls over such a channel: the receiver returns the number delivered, never an error, at most what the sender returns, and all that was sent when nothing is lost |
| RxTraffic.SendTraffic | net-drv-ts/rx_path/rx_coalesce_frames.c:390-522 | with the delay and time of the tests, for any clock, the sender meets what CapturedInOrder needs, with fewer than 200100 packets |
| RxTraffic.CapturedInOrder | net-drv-ts/rx_path/rx_coalesce_usecs.c:483-614 | whatever is lost and padded, captures of what the tests send can be read, giving the timestamps and the numbers sent, ascending and far below 2^32 |
| RxTraffic.UsecsTest | net-drv-ts/rx_path/rx_coalesce_usecs.c:483-691 | for all that the sender may send in the test and any two captures of it that keep the order: pass if and only if neither is empty and the durations of the groups in which no packet sent after a gap above five delays arrived are within the limits |
| RxTraffic.FramesTest | net-drv-ts/rx_path/rx_coalesce_frames.c:390-586 | the same for the sizes of groups in the test of the number of frames |
| ExactDelay.DisorderCaught | talib_net_drv_ts/rpc.c:365-387 | a sequence of numbers is accepted if and only if it is strictly increasing and below 2^63 |
| RxRules.Fill | talib_net_drv_ts/rpc.c:145-184 | rule k is for port pair k and kept at the recorded, distinct location; the rest of the table is untouched; at explicit locations the count is the number of rules the device accepts before the first refusal |
| RxRules.Drain | talib_net_drv_ts/rpc.c:186-213 | each recorded location is deleted exactly once, in order, going on after failures; the result is 0 exactly when none of these deletions fails |
| RxRules.TooManyRxRules | talib_net_drv_ts/rpc.c:34-216 | count, order of deletions and result; when all deletions succeed the rules at the recorded locations are missing, and the table is the initial one if and only if locations were free by choice or no initial rule is at a location below the number the device accepts |
| RxRules.PairsDiffer | talib_net_drv_ts/rpc.c:145-180 | the port pairs of inserted rules are distinct and the count fits 32 bits |
| RxRules.InitialRuleLost | talib_net_drv_ts/rpc.c:174-210 | an initial rule at location 0 is gone after a call that reports success |
| RxRules.RunTest | net-drv-ts/rss/too_many_rx_rules.c:73-131 | refuses a table with rules and does nothing then; otherwise the numbers of rules added in the rounds are those inserted and deleted again, at explicit locations as many as the device accepts; each verdict is given exactly for its kind of last round, the table is empty again unless a deletion fails, and the warning is given exactly when a count is below the one before |
| PhyModes.ParseModeName | net-drv-ts/lib/net_drv_phy.c:58-88 | speed and duplex written into a mode name are parsed back if and only if the speed fits an int |
| PhyModes.ParseExact | net-drv-ts/lib/net_drv_phy.c:58-88 | a name gives a speed and a duplex if and only if white space, an optional sign and digits come before the word base, the number fits an int, counted from 2^64 down after a minus, and the name ends with the duplex or is 10000baseR_FEC |
| PhyModes.FecName | net-drv-ts/lib/net_drv_phy.c:81-82 | 10000baseR_FEC is a full duplex mode of speed 10000 |
| PhyModes.LinkModeByName | net-drv-ts/lib/net_drv_phy.c:305-311 | a mode is a link mode if and only if its name can be parsed, and then speed and duplex are real |
| PhyModes.FindModeByName | net-drv-ts/lib/net_drv_phy.c:289-303 | the search gives the first mode with the name, or nothing if there is none |
| PhyModes.FirstNamedAt | net-drv-ts/lib/net_drv_phy.c:289-303 | what is found is the mode at the first place that has the name |
| PhyConfig.StateSave | net-drv-ts/lib/net_drv_phy.c:106-168 | fails exactly when a call fails, with its error; otherwise holds autonegotiation, speed, duplex and every mode with its bit |
| PhyConfig.StateRestore | net-drv-ts/lib/net_drv_phy.c:170-266 | succeeds exactly when no call fails, and then autonegotiation and the saved link mode bits are back, speed and duplex too when autonegotiation was off and untouched otherwise; nothing is written exactly when that already held; only a failed commit leaves part of it; no GET is refused when nothing is staged, nothing is done otherwise |
| PhyConfig.ApplyAutonegModes | net-drv-ts/lib/net_drv_phy.c:313-382 | succeeds exactly when no call fails, and then autonegotiation is on, of the link modes of the state exactly the listed are advertised, and all else is as before; nothing is written exactly when that already held; only a failed commit leaves part of it |
| PhyConfig.ApplyFixedMode | net-drv-ts/lib/net_drv_phy.c:384-438 | succeeds exactly when no call fails, and then autonegotiation is off with this speed and duplex and all else as before; nothing is written exactly when that already held; only a failed commit leaves part of it; something stays staged exactly when a SET went through and no failed commit dropped it |
| PhyConfig.EffectIdempotent | net-drv-ts/lib/net_drv_phy.c:313-438 | repeating an operation changes nothing, so by the quiet clause it writes and commits nothing |
| PhyConfig.OthersUntouched | net-drv-ts/lib/net_drv_phy.c:106-438 | no run of operations adds or removes a mode or changes the bit of a mode that is not a link mode |
| PhyConfig.RestoreAfterRun | net-drv-ts/lib/net_drv_phy.h:62-78 | after a save and any run, restore brings back autonegotiation and all bits, and speed and duplex when autonegotiation was off |
| PhyConfig.RestoreCompleteIff | net-drv-ts/lib/net_drv_phy.h:62-78 | the whole configuration comes back if and only if autonegotiation was off or the run kept speed and duplex |
| PhyConfig.Cleanup | net-drv-ts/ethtool/autoneg_advertise.c:380-392 | whatever failed before, the restore brings the configuration back if and only if nothing was staged and no other call of it fails; with something staged it changes nothing |
| PhyConfig.RunTest | net-drv-ts/lib/net_drv_phy.c:106-438 | save, any operations, going on or not after a failed one, and cleanup: all succeeds exactly when no call fails, and the cleanup restores exactly when nothing is staged at its beginning and no other call of it fails |
| PhyConfig.RestoreRefused | net-drv-ts/ethtool/link_fixed_mode.c:173-180 | a run in which the second fixed mode is refused with EINVAL and stays staged, and the interface stays in the first after the cleanup |
| AutonegAdvertise.CmpIsRank | net-drv-ts/ethtool/autoneg_advertise.c:28-43 | the comparison is positive exactly for a higher speed, or the same speed and full against half duplex, and zero exactly for the same pair |
| AutonegAdvertise.UpdateCommonNodes | net-drv-ts/ethtool/autoneg_advertise.c:45-92 | the update through pointers is the step that keeps the two best, as SelectionIsTopTwo proves |
| AutonegAdvertise.FindCommonAdvertisedModes | net-drv-ts/ethtool/autoneg_advertise.c:94-126 | selects over the link modes advertised by both sides; found exactly when both modes are |
| AutonegAdvertise.SelectionIsTopTwo | net-drv-ts/ethtool/autoneg_advertise.c:45-92 | one pass gives the first modes of the greatest and of the second greatest pair of speed and duplex |
| AutonegAdvertise.FailsIffOnePair | net-drv-ts/ethtool/autoneg_advertise.c:94-126 | the selection fails if and only if fewer than two pairs are common |
| AutonegAdvertise.ChosenExact | net-drv-ts/ethtool/autoneg_advertise.c:94-126 | of two saved sides: the preferred mode is the best link mode that both advertise, the fallback the best of those that are worse, and each is missing exactly when there is none |
| AutonegAdvertise.Renegotiation | net-drv-ts/ethtool/autoneg_advertise.c:225-370 | advertising both modes turns autonegotiation on and negotiates the preferred one, and dropping it on either side negotiates the fallback, whatever was advertised before |
| AutonegAdvertise.NegotiationUnique | net-drv-ts/ethtool/autoneg_advertise.c:276-292 | speed and duplex that are negotiated are unique |
| LinkFixedMode.IsModePairSelected | net-drv-ts/ethtool/link_fixed_mode.c:29-43 | true if and only if the speed and duplex are among the modes found |
| LinkFixedMode.FindCommonModeCandidates | net-drv-ts/ethtool/link_fixed_mode.c:45-93 | fills the array with the first of each pair among the common link modes |
| LinkFixedMode.FirstOfPairsExact | net-drv-ts/ethtool/link_fixed_mode.c:45-93 | candidates are in order at the places where their pairs first occur |
| LinkFixedMode.PairsCovered | net-drv-ts/ethtool/link_fixed_mode.c:45-93 | every common pair has a candidate |
| LinkFixedMode.CandidatesDistinct | net-drv-ts/ethtool/link_fixed_mode.c:45-93 | no pair has two candidates |
| LinkFixedMode.CandidatesExact | net-drv-ts/ethtool/link_fixed_mode.c:45-93 | of two saved sides: each candidate is a link mode of both with the speed and duplex of its name, and every such pair has a candidate |
| LinkFixedMode.SwitchModes | net-drv-ts/ethtool/link_fixed_mode.c:157-243 | each candidate is either refused by one side as unsupported, or tested with both sides set to its speed and duplex and autonegotiation off, or stops the test by another error or a bad link; the test fails exactly when stopped, and passes exactly when not and more than one candidate was tested |
| LinkFixedMode.RunTest | net-drv-ts/ethtool/link_fixed_mode.c:124-258 | ending anywhere, each side saved is restored if and only if nothing is staged on it when the cleanup begins and no other call of its restore fails; when no call fails, the test fails exactly when the link is bad for some candidate, and passes exactly when it is good for all and there is more than one; a failed save skips or fails the test as its error says |
| XdpSocks.GetQueuesNum | net-drv-ts/rss/common_rss.c:511-545 | succeeds exactly when no call fails and no number is negative, with the sums of channels |
| XdpSocks.BuildSock | net-drv-ts/rss/common_rss.c:586-646 | at any failing step handles and live objects agree; on success the socket is bound to its queue over a UMEM with buffers for it, and in the map |
| XdpSocks.CreateSock | net-drv-ts/rss/common_rss.c:547-656 | succeeds exactly when no call fails and the queue exists; after a failure the structure is empty exactly when no deletion was refused, and then no object was added |
| XdpSocks.DestroySock | net-drv-ts/rss/common_rss.c:658-705 | deletes in order socket, UMEM, memory, clearing the fields of a deleted socket; succeeds exactly when the structure ends up empty and returns the error of a refused deletion otherwise; the handles left are exactly the live objects, so it can be repeated |
| XdpSocks.CreateSocks | net-drv-ts/rss/common_rss.c:707-743 | success exactly when no call fails and there are enough queues: socket i on queue i with map entry i; otherwise no object is left behind if and only if no deletion was refused |
| XdpSocks.DestroySocks | net-drv-ts/rss/common_rss.c:745-766 | tries all sockets and returns the first error; it is success exactly when no deletion was refused, which is exactly when none of their objects is left |
| XdpSocks.HoldsGrows | net-drv-ts/rss/common_rss.c:719-725 | creating a socket does not disturb the others |
| XdpSocks.HoldsShrinks | net-drv-ts/rss/common_rss.c:757-762 | releasing a socket, even in part, does not disturb the others |
| TxCoalesce.ProfilesConsistent | net-drv-ts/ethtool/tx_coalesce.c:78-176 | a profile lists the adaptive flag, last and set, if and only if it enables adaptive Tx |
| TxCoalesce.ProfilesWellFormed | net-drv-ts/ethtool/tx_coalesce.c:78-145 | no profile lists a parameter twice |
| TxCoalesce.SetParamsLocally | net-drv-ts/ethtool/tx_coalesce.c:178-201 | stages the new or the saved values of all parameters but the adaptive flag, failing exactly when a call fails |
| TxCoalesce.SaveProfileParams | net-drv-ts/ethtool/tx_coalesce.c:203-218 | records the committed value of every parameter of the profile |
| TxCoalesce.CheckProfileParams | net-drv-ts/ethtool/tx_coalesce.c:220-239 | accepts only the profile applied, and rejects it only when a call fails |
| TxCoalesce.Prepare | net-drv-ts/ethtool/tx_coalesce.c:354-393 | saves the values and turns adaptive Tx off if the profile or the saved flag calls for it, changing nothing else |
| TxCoalesce.ProfileApplied | net-drv-ts/ethtool/tx_coalesce.c:419-440 | staging, committing and setting the flag applies every parameter of the profile |
| TxCoalesce.TestBody | net-drv-ts/ethtool/tx_coalesce.c:371-444 | a valid profile passes exactly when no call fails, the invalid one exactly when its commit was tried and returned EINVAL, which is then the only call that failed; what any exit leaves is within reach of the cleanup |
| TxCoalesce.RestoreCommit | net-drv-ts/ethtool/tx_coalesce.c:463-470 | committing the saved values over any leftover brings back all parameters but the adaptive flag |
| TxCoalesce.Cleanup | net-drv-ts/ethtool/tx_coalesce.c:446-480 | from every exit, a cleanup whose calls succeed brings back the whole configuration with nothing staged |
| TxCoalesce.RunTest | net-drv-ts/ethtool/tx_coalesce.c:371-480 | for every profile and failing step: restored when the cleanup calls succeed, and values committed only while adaptive Tx is off when it could be turned off; the invalid profile passes exactly when its two zero limits were committed and refused with EINVAL |

## Left out

- The test engine: remote calls, ASN.1 access, CSAPs, logging, verdict macros and connection set-up are reduced to inputs, outcomes and verdict values.
- Parameters computed in the main functions (send delay, minimal group delay, data sizes and random choices) are arbitrary inputs.
- Rounding of doubles and the square root: exact reals and squares are compared instead.
- `mtu_udp.c` does not look at the result of reading the IPv6 next header; when that fails the value is whatever the variable held, which is an arbitrary next header here.
- `mtu_udp.c` and `mtu_tcp.c`: the comparison of received data with the data sent, and the choice of message sizes.
- RxCapture.TxRecordsLate: states captures below 2^32 packets, because the packet counter wraps there.
- RxCoalesceUsecs.RunTracks: states streams below 2^32 packets, because the packet and group counters wrap there.
- RxCoalesceFrames.RunTracks: states streams below 2^31 packets, because group sizes are then subtracted as signed 32-bit numbers without distortion.
- RxCoalesceUsecs.VerdictExact: states captures with ascending numbers, those sent below 2^32, because otherwise wrong groups may be ignored; RxTraffic proves this of all traffic of the tests.
- RxCoalesceFrames.VerdictExact: states the same, for fewer than 2^31 packets.
- ExactDelay.LossyChannel: states below 2^63 packets, because numbers from there on are rejected by the receiver; ExactDelay.Exchange derives this bound when there is a delay and takes it of the number of clock readings when there is none.
- Tso.VerdictExact: states sends below 2^31 bytes and captures of less than 2^32 packets, because sequence numbers cannot be ordered beyond.
- Tso.CheckCapturedPkts: the MSS is positive, because the splitting loop does not end otherwise.
- Code common to both receive coalescing tests (reading packets, the transmit pass, the cursor) is modelled once.
- The XDP socket structure is a value in an array that operations take and give back, not an object behind a pointer; aliasing of two pointers to one structure is not captured.
- XDP: sizes of rings and frames, XSK map entries of sockets that were deleted, and the handles lost when the array is freed after a deletion was refused.
- RxRules: address conversion, flow types and masks of the rule, the errno reported back, and the choice of queues, which is an arbitrary function.
- PhyConfig: the copy of names and the release of saved states; link partner checks and waiting for the link, which are arbitrary results in LinkFixedMode.RunTest.
- TxCoalesce: the choice between global and per-queue settings, and dumping of profiles; a skipped test is one that does not pass.
- Link negotiation itself: taken to be the best pair of speed and duplex that both sides advertise.
- Toeplitz hash prediction, frame check sequences, BPF statistics, performance reports, PTP, devlink, stress and show scripts: only thin wrappers or linear scripts.
