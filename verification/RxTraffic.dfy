/**
 * The traffic of the receive coalescing tests, from the sender (talib_net_drv_ts/rpc.c) to the verdicts
 * (net-drv-ts/rx_path/rx_coalesce_usecs.c and rx_coalesce_frames.c): what the tests send meets what the verdicts need.
 */
module RxTraffic {
  import opened Common
  import opened PacketId
  import opened PacketGroups
  import opened RxCapture
  import opened KeptGroups
  import ExactDelay
  import RxCoalesceUsecs
  import RxCoalesceFrames

  /** Smallest delay between packets, in microseconds, and how long packets are sent, in milliseconds. */
  const MIN_SEND_DELAY: int := 10
  const SEND_TIME: int := 2000

  /** What the sender promises of a call with the parameters of the tests. */
  predicate TestTraffic(sender: HostOrder, sent: seq<ExactDelay.Sent>, delay: uint32) {
    && ExactDelay.Numbered(ExactDelay.EncoderOf(sender), sent)
    && delay >= MIN_SEND_DELAY && |sent| * delay < (SEND_TIME + 1) * 1000
  }

  /** The call the tests make, for any clock and any outcomes of send(). */
  method SendTraffic(sender: HostOrder, delay: uint32, clock: nat -> int, sendRc: nat -> int, ghost last: nat)
    returns (rc: int, sent: seq<ExactDelay.Sent>)
    requires delay >= MIN_SEND_DELAY && ExactDelay.Passes(clock, last, delay, SEND_TIME)
    ensures TestTraffic(sender, sent, delay) && rc in {|sent|, -1} && |sent| < 200100
  {
    var calls;
    rc, sent, calls := ExactDelay.SendPktsExactDelay(sender, delay, SEND_TIME, clock, sendRc, last);
    ExactDelay.MulMonotone(MIN_SEND_DELAY, delay, |sent|);
  }

  lemma FewPackets(sender: HostOrder, sent: seq<ExactDelay.Sent>, delay: uint32)
    requires TestTraffic(sender, sent, delay)
    ensures |sent| < TWO31
  {
    ExactDelay.MulMonotone(MIN_SEND_DELAY, delay, |sent|);
  }

  /** Packets number idx[0], idx[1], ... are captured, with some timestamps and padded with any number of zero bytes. */
  ghost predicate Captures(pkts: seq<Packet>, sent: seq<ExactDelay.Sent>, idx: seq<int>) {
    && |pkts| == |idx| && ExactDelay.Increasing(idx, |sent|)
    && forall k :: 0 <= k < |pkts| ==> IsCaptured(pkts[k], sent[idx[k]])
  }

  ghost predicate IsCaptured(p: Packet, s: ExactDelay.Sent) {
    p.ts.Some? && exists pad: nat :: p.payload == Some(s.payload + Zeros(pad))
  }

  lemma CapturedNumber(sender: HostOrder, host: HostOrder, p: Packet, s: ExactDelay.Sent)
    requires IsCaptured(p, s) && s.payload == ExactDelay.EncoderOf(sender)(s.id)
    ensures ReaderOf(host)(p) == Some(Arrival(p.ts.value, s.id))
  {
    var pad: nat :| p.payload == Some(s.payload + Zeros(pad));
    RoundTrip(sender, host, s.id, pad);
    ReadExact(host, p, Arrival(p.ts.value, s.id));
  }

  /** When the packets captured were seen, and which ones of those sent they are. */
  function Stream(pkts: seq<Packet>, idx: seq<int>): seq<Arrival>
    requires |pkts| == |idx|
    requires forall k :: 0 <= k < |pkts| ==> pkts[k].ts.Some? && 0 <= idx[k] < TWO64
  {
    seq(|pkts|, k requires 0 <= k < |pkts| => Arrival(pkts[k].ts.value, idx[k]))
  }

  /** Captures of the traffic can be read, in ascending order, and all numbers are small. */
  lemma CapturedInOrder(sender: HostOrder, host: HostOrder, sent: seq<ExactDelay.Sent>, delay: uint32,
                        pkts: seq<Packet>, idx: seq<int>)
    requires TestTraffic(sender, sent, delay) && Captures(pkts, sent, idx)
    ensures |pkts| <= |sent| < TWO31 && AllReadable(ReaderOf(host), pkts)
    ensures Arrivals(ReaderOf(host), pkts) == Stream(pkts, idx)
    ensures AscendingIds(Arrivals(ReaderOf(host), pkts)) && NarrowIds(Arrivals(ReaderOf(host), pkts))
  {
    FewPackets(sender, sent, delay);
    ExactDelay.IncreasingShort(idx, |sent|);
    forall k | 0 <= k < |pkts|
      ensures ReaderOf(host)(pkts[k]) == Some(Arrival(pkts[k].ts.value, idx[k]))
    {
      CapturedNumber(sender, host, pkts[k], sent[idx[k]]);
    }
  }

  /**
   * For all that the sender may send with the parameters of the test, and any two captures of it that lose packets but
   * keep the order: the test of the time passes if and only if neither is empty and over the groups of received packets
   * in which no packet sent after a gap above five delays arrived, the durations are within the limits.
   */
  method UsecsTest(sender: HostOrder, host: HostOrder, delay: uint32, target: uint32, thr: uint32, tx: seq<Packet>,
                   rx: seq<Packet>, ghost sent: seq<ExactDelay.Sent>, ghost txIdx: seq<int>, ghost rxIdx: seq<int>)
    returns (v: RxCoalesceUsecs.Verdict)
    requires TestTraffic(sender, sent, delay) && Captures(tx, sent, txIdx) && Captures(rx, sent, rxIdx)
    ensures |sent| < TWO31
    ensures v.Pass? <==>
      && tx != [] && rx != []
      && RxCoalesceUsecs.Acceptable(Stream(tx, txIdx), Wrap(5 * delay), Stream(rx, rxIdx), thr, target)
  {
    CapturedInOrder(sender, host, sent, delay, tx, txIdx);
    CapturedInOrder(sender, host, sent, delay, rx, rxIdx);
    v := RxCoalesceUsecs.CheckCaptures(host, delay, target, thr, tx, rx);
  }

  /** The same for the test of the number of frames, with groups separated by more than 100 microseconds. */
  method FramesTest(sender: HostOrder, host: HostOrder, delay: uint32, target: uint32, tx: seq<Packet>,
                    rx: seq<Packet>, ghost sent: seq<ExactDelay.Sent>, ghost txIdx: seq<int>, ghost rxIdx: seq<int>)
    returns (v: RxCoalesceFrames.Verdict)
    requires TestTraffic(sender, sent, delay) && Captures(tx, sent, txIdx) && Captures(rx, sent, rxIdx)
    requires target < TWO31
    ensures |sent| < TWO31
    ensures v.Pass? <==>
      && tx != [] && rx != []
      && RxCoalesceFrames.Acceptable(Stream(tx, txIdx), Wrap(5 * delay), Stream(rx, rxIdx), 100, target)
  {
    CapturedInOrder(sender, host, sent, delay, tx, txIdx);
    CapturedInOrder(sender, host, sent, delay, rx, rxIdx);
    v := RxCoalesceFrames.CheckCaptures(host, delay, target, tx, rx);
  }
}
