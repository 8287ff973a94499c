/**
 * Measuring how long packets are coalesced: the groups of received packets, their durations and the verdict
 * (net-drv-ts/rx_path/rx_coalesce_usecs.c). C doubles are exact reals here.
 */
module RxCoalesceUsecs {
  import opened Common
  import opened PacketGroups
  import opened RxCapture
  import opened KeptGroups
  import opened Deviation
  import DelayCursor
  import PacketId

  /** Statistics of the groups counted so far. */
  datatype Stats = Stats(nGroups: uint32, totalTime: real, squaredDevSum: real)

  const NO_GROUPS: Stats := Stats(0, 0.0, 0.0)

  /** The callback data: what is common to both tests, the start of the pending group and the statistics. */
  datatype State = State(cap: Capture, curGroupTs: int, stats: Stats)

  function Count(s: Stats, target: int, duration: int): Stats {
    var dev := duration - target;
    Stats(Add32(s.nGroups, 1), s.totalTime + duration as real, s.squaredDevSum + (dev * dev) as real)
  }

  /** How one more group enters the statistics. */
  type Counter = (Stats, int) -> Stats

  function CounterOf(target: int): Counter {
    (s: Stats, duration: int) => Count(s, target, duration)
  }

  function Finish(s: State, count: Counter, ts: int): State {
    var (skip, next) := DelayCursor.Close(s.cap.delayedPktIds, s.cap.curDelayedIdx, s.cap.curPktId);
    State(s.cap.(curDelayedIdx := next), ts, if skip then s.stats else count(s.stats, ts - s.curGroupTs))
  }

  function RxStep(s: State, read: Reader, count: Counter, thr: int, p: Packet): State {
    var (c, ts) := Receive(s.cap, read, p);
    var s := s.(cap := c);
    if ts.None? then s
    else
      var s := if c.nPkts == 1 then s.(curGroupTs := ts.value)
               else if ts.value - c.prevTs > thr then Finish(s, count, ts.value)
               else s;
      s.(cap := s.cap.(prevTs := ts.value))
  }

  function RxRun(s: State, read: Reader, count: Counter, thr: int, pkts: seq<Packet>): State {
    if pkts == [] then s
    else RxStep(RxRun(s, read, count, thr, pkts[..|pkts| - 1]), read, count, thr, pkts[|pkts| - 1])
  }

  /** The two tests on the distribution, on squares: the error of the mean and the mean squared deviation. */
  predicate TooFar(errorSquare: real, meanSquare: real, limitSquare: real) {
    errorSquare > limitSquare || meanSquare > limitSquare
  }

  /** The square of the largest error or deviation tolerated, relative to the target. */
  function LimitSquare(target: int): real {
    Square(ERR_MARGIN * target as real)
  }

  /** Squared error of the mean against the target. */
  function ErrorSquare(s: Stats, target: int): real
    requires s.nGroups > 0
  {
    MeanErrorSquare(s.totalTime, s.nGroups, target)
  }

  function MeanSquare(s: Stats): real
    requires s.nGroups > 0
  {
    Mean(s.squaredDevSum, s.nGroups)
  }

  datatype Verdict =
    | Pass | NothingSent | SendFailed | NothingCaptured | CaptureFailed | NoGroups | TooFarOff | TooManyBigDelays

  const ERR_MARGIN: real := 0.10
  const MAX_UNEXP_DELAYS: real := 0.005

  /** With moderation off there must be next to no groups; otherwise their durations must be near the target. */
  predicate Passes(s: State, target: uint32) {
    && s.cap.nPkts != 0 && !s.cap.failed
    && if target > 0
       then s.stats.nGroups > 0 && !TooFar(ErrorSquare(s.stats, target), MeanSquare(s.stats), LimitSquare(target))
       else s.stats.nGroups as real / s.cap.nPkts as real <= MAX_UNEXP_DELAYS
  }

  /** The whole test on two captures: both passes and the judgement. */
  predicate TestPasses(s0: State, read: Reader, target: uint32, late: uint32, thr: int, tx: seq<Packet>,
                       rx: seq<Packet>) {
    var txDone := TxRun(s0.cap, read, late, tx);
    && txDone.nPkts != 0 && !txDone.failed
    && Passes(RxRun(s0.(cap := txDone.(nPkts := 0)), read, CounterOf(target), thr, rx), target)
  }

  class TestCbArgs {
    const cap: CaptureArgs
    const coalesceUsecs: uint32
    const minGroupDelay: uint32
    var curGroupTs: int
    var nGroups: uint32
    var totalGroupsTime: real
    var squaredDevSum: real
    var avgGroupTime: real
    var groupTimeDevSquared: real

    ghost function Value(): State
      reads this, cap
    {
      State(cap.Value(), curGroupTs, Stats(nGroups, totalGroupsTime, squaredDevSum))
    }

    constructor (host: PacketId.HostOrder, sendDelay: uint32, coalesceUsecs: uint32, minGroupDelay: uint32)
      ensures fresh(cap) && cap.host == host && cap.pktSendDelay == sendDelay
      ensures this.coalesceUsecs == coalesceUsecs && this.minGroupDelay == minGroupDelay
      ensures Value() == State(NOTHING_CAPTURED, 0, NO_GROUPS)
    {
      cap := new CaptureArgs(host, sendDelay);
      this.coalesceUsecs, this.minGroupDelay := coalesceUsecs, minGroupDelay;
      curGroupTs, nGroups, totalGroupsTime, squaredDevSum := 0, 0, 0.0, 0.0;
      avgGroupTime, groupTimeDevSquared := 0.0, 0.0;
    }

    method FinishPktGroup(ts: int)
      modifies this, cap
      ensures Value() == Finish(old(Value()), CounterOf(coalesceUsecs), ts)
    {
      var skip, next := DelayCursor.SkipDelayed(cap.delayedPktIds, cap.curDelayedIdx, cap.curPktId);
      cap.curDelayedIdx := next;
      if !skip {
        nGroups := Add32(nGroups, 1);
        var groupDuration := ts - curGroupTs;
        totalGroupsTime := totalGroupsTime + groupDuration as real;
        var deviation := groupDuration - coalesceUsecs;
        squaredDevSum := squaredDevSum + (deviation * deviation) as real;
      }
      curGroupTs := ts;
    }

    method ProcessRxPkts(pkt: Packet)
      modifies this, cap
      ensures Value() == RxStep(old(Value()), ReaderOf(cap.host), CounterOf(coalesceUsecs), minGroupDelay, pkt)
    {
      var ts := cap.ReadPacket(pkt);
      if ts.None? { return; }
      if cap.nPkts == 1 {
        cap.prevTs := ts.value;
        curGroupTs := ts.value;
      } else {
        if ts.value - cap.prevTs > minGroupDelay {
          FinishPktGroup(ts.value);
        }
        cap.prevTs := ts.value;
      }
    }

    method FinalizeStats()
      modifies this`avgGroupTime, this`groupTimeDevSquared
      ensures nGroups > 0 ==>
        avgGroupTime == totalGroupsTime / nGroups as real && groupTimeDevSquared == squaredDevSum / nGroups as real
      ensures nGroups == 0 ==>
        avgGroupTime == old(avgGroupTime) && groupTimeDevSquared == old(groupTimeDevSquared)
    {
      if nGroups == 0 { return; }
      avgGroupTime := totalGroupsTime / nGroups as real;
      groupTimeDevSquared := squaredDevSum / nGroups as real;
    }

    /** The test from the two captures to the verdict. */
    method RunTest(tx: seq<Packet>, rx: seq<Packet>) returns (v: Verdict)
      requires |tx| < TWO32 && |rx| < TWO32 && cap.Value() == NOTHING_CAPTURED
      modifies this, cap
      ensures v == NothingSent <==> tx == []
      ensures v == SendFailed <==> tx != [] && !AllReadable(ReaderOf(cap.host), tx)
      ensures v == NothingCaptured <==> tx != [] && AllReadable(ReaderOf(cap.host), tx) && rx == []
      ensures v == CaptureFailed <==>
        tx != [] && AllReadable(ReaderOf(cap.host), tx) && rx != [] && !AllReadable(ReaderOf(cap.host), rx)
      ensures v == Pass <==>
        TestPasses(old(Value()), ReaderOf(cap.host), coalesceUsecs, LateThreshold(cap.pktSendDelay),
                   minGroupDelay, tx, rx)
    {
      cap.TransmitAll(tx);
      UnreadableFails(NOTHING_CAPTURED, ReaderOf(cap.host), LateThreshold(cap.pktSendDelay), tx);
      if cap.nPkts == 0 { return NothingSent; }
      if cap.failed { return SendFailed; }
      ghost var start := Value();
      ReceiveAll(rx);
      ReceiveFails(start.(cap := start.cap.(nPkts := 0)), ReaderOf(cap.host), CounterOf(coalesceUsecs),
                   minGroupDelay, rx);
      v := Judge();
    }

    /** The receive pass: the packet counter is reset and the callback gets the captured packets one by one. */
    method ReceiveAll(pkts: seq<Packet>)
      modifies this, cap
      ensures Value() == RxRun(old(Value()).(cap := old(Value()).cap.(nPkts := 0)), ReaderOf(cap.host),
                               CounterOf(coalesceUsecs), minGroupDelay, pkts)
    {
      cap.nPkts := 0;
      ghost var start := Value();
      for i := 0 to |pkts|
        invariant Value() == RxRun(start, ReaderOf(cap.host), CounterOf(coalesceUsecs), minGroupDelay, pkts[..i])
      {
        ProcessRxPkts(pkts[i]);
        assert pkts[..i + 1][..i] == pkts[..i];
      }
      assert pkts[..|pkts|] == pkts;
    }

    /** The verdict on what was received. */
    method Judge() returns (v: Verdict)
      modifies this`avgGroupTime, this`groupTimeDevSquared
      ensures v == Pass <==> Passes(Value(), coalesceUsecs)
      ensures v == NothingCaptured <==> cap.nPkts == 0
      ensures v == CaptureFailed <==> cap.nPkts != 0 && cap.failed
      ensures v == NoGroups <==> cap.nPkts != 0 && !cap.failed && coalesceUsecs > 0 && nGroups == 0
      ensures (v == TooFarOff ==> coalesceUsecs > 0) && (v == TooManyBigDelays ==> coalesceUsecs == 0)
      ensures v in {Pass, NothingCaptured, CaptureFailed, NoGroups, TooFarOff, TooManyBigDelays}
    {
      if cap.nPkts == 0 { return NothingCaptured; }
      if cap.failed { return CaptureFailed; }
      FinalizeStats();
      if coalesceUsecs > 0 {
        if nGroups == 0 { return NoGroups; }
        var error := avgGroupTime - coalesceUsecs as real;
        if TooFar(Square(error), groupTimeDevSquared, LimitSquare(coalesceUsecs)) { return TooFarOff; }
      } else if nGroups as real / cap.nPkts as real > MAX_UNEXP_DELAYS {
        return TooManyBigDelays;
      }
      return Pass;
    }
  }

  // ---------------------------------------------------------------- what the run computes

  /** Statistics of a list of durations. */
  function CountAll(count: Counter, vals: seq<int>): Stats {
    if vals == [] then NO_GROUPS else count(CountAll(count, vals[..|vals| - 1]), vals[|vals| - 1])
  }

  lemma CountAppend(count: Counter, vals: seq<int>, v: int)
    ensures CountAll(count, vals + [v]) == count(CountAll(count, vals), v)
  {
    assert (vals + [v])[..|vals|] == vals;
  }

  lemma {:induction false} CountAllSums(target: int, vals: seq<int>)
    requires |vals| < TWO32
    ensures CountAll(CounterOf(target), vals)
         == Stats(|vals|, Sum(vals) as real, SquaredDeviations(vals, target) as real)
  {
    if vals != [] {
      CountAllSums(target, vals[..|vals| - 1]);
    }
  }

  /** The state when the receive pass starts: what the transmit pass left, and no groups yet. */
  ghost predicate Starting(s: State) {
    s.cap.nPkts == 0 && !s.cap.failed && s.cap.curDelayedIdx == 0 && s.stats == NO_GROUPS
  }

  function KeptDurations(delayed: seq<uint64>, ps: seq<Arrival>, thr: int): seq<int> {
    Kept(delayed, ps, thr, Durations(ps, thr))
  }

  /** The state after a stream, with the cursor, the first packet of the pending group and the statistics given. */
  function StateAt(delayed: seq<uint64>, ps: seq<Arrival>, cur: nat, start: nat, stats: Stats): State
    requires start < |ps| < TWO32
  {
    var last := ps[|ps| - 1];
    State(Capture(delayed, cur, last.ts, |ps|, last.id, false), ps[start].ts, stats)
  }

  /** The state after a stream, stated on the groups of the stream instead of the callback. */
  function StateAfter(delayed: seq<uint64>, ps: seq<Arrival>, thr: int, count: Counter): State
    requires 0 < |ps| < TWO32
  {
    StateAt(delayed, ps, CursorAfter(delayed, ps, thr), PendingStart(ps, thr),
            CountAll(count, KeptDurations(delayed, ps, thr)))
  }

  /** The last packet of a stream closes a group that counts. */
  predicate Counts(delayed: seq<uint64>, ps: seq<Arrival>, thr: int, cur: nat)
    requires |ps| > 1
  {
    Gap(ps, thr, |ps| - 1) && !DelayCursor.Close(delayed, cur, ps[|ps| - 1].id).0
  }

  /** What the last packet makes of the list of measurements, and of the statistics. */
  function NextVals(delayed: seq<uint64>, ps: seq<Arrival>, thr: int, cur: nat, start: nat, vals: seq<int>): seq<int>
    requires 1 < |ps| < TWO32 && start < |ps| - 1
  {
    var n := |ps| - 1;
    if Counts(delayed, ps, thr, cur) then vals + [ps[n].ts - ps[start].ts] else vals
  }

  function NextStats(delayed: seq<uint64>, ps: seq<Arrival>, thr: int, count: Counter, cur: nat, start: nat,
                     before: Stats): Stats
    requires 1 < |ps| < TWO32 && start < |ps| - 1
  {
    var n := |ps| - 1;
    if Counts(delayed, ps, thr, cur) then count(before, ps[n].ts - ps[start].ts) else before
  }

  /** The state after a packet that closes a group. */
  function ClosedState(s: State, count: Counter, a: Arrival): State
    requires s.cap.nPkts < TWO32 - 1
  {
    var (skip, next) := DelayCursor.Close(s.cap.delayedPktIds, s.cap.curDelayedIdx, a.id);
    State(Capture(s.cap.delayedPktIds, next, a.ts, s.cap.nPkts + 1, a.id, false), a.ts,
          if skip then s.stats else count(s.stats, a.ts - s.curGroupTs))
  }

  function QuietState(s: State, a: Arrival): State
    requires s.cap.nPkts < TWO32 - 1
  {
    s.(cap := s.cap.(prevTs := a.ts, nPkts := s.cap.nPkts + 1, curPktId := a.id))
  }

  lemma StepReads(s: State, read: Reader, count: Counter, thr: int, p: Packet, a: Arrival)
    requires !s.cap.failed && 0 < s.cap.nPkts < TWO32 - 1 && read(p) == Some(a)
    ensures RxStep(s, read, count, thr, p) ==
      if a.ts - s.cap.prevTs > thr then ClosedState(s, count, a) else QuietState(s, a)
  {
  }

  lemma KeptDurationsGrow(delayed: seq<uint64>, thr: int, ps: seq<Arrival>)
    requires 1 < |ps| < TWO32
    ensures KeptDurations(delayed, ps, thr)
         == NextVals(delayed, ps, thr, CursorAfter(delayed, ps[..|ps| - 1], thr), PendingStart(ps[..|ps| - 1], thr),
                     KeptDurations(delayed, ps[..|ps| - 1], thr))
  {
    if Gap(ps, thr, |ps| - 1) {
      ClosingArrival(delayed, ps, thr);
    } else {
      QuietArrival(delayed, ps, thr);
    }
  }

  lemma NextCounts(delayed: seq<uint64>, ps: seq<Arrival>, thr: int, count: Counter, cur: nat, start: nat,
                   vals: seq<int>)
    requires 1 < |ps| < TWO32 && start < |ps| - 1
    ensures var next := NextVals(delayed, ps, thr, cur, start, vals);
      CountAll(count, next) == NextStats(delayed, ps, thr, count, cur, start, CountAll(count, vals))
  {
    var n := |ps| - 1;
    if Counts(delayed, ps, thr, cur) {
      CountAppend(count, vals, ps[n].ts - ps[start].ts);
    }
  }

  lemma SummaryStep(delayed: seq<uint64>, ps: seq<Arrival>, thr: int, count: Counter)
    requires 1 < |ps| < TWO32
    ensures CountAll(count, KeptDurations(delayed, ps, thr))
         == NextStats(delayed, ps, thr, count, CursorAfter(delayed, ps[..|ps| - 1], thr),
                      PendingStart(ps[..|ps| - 1], thr), CountAll(count, KeptDurations(delayed, ps[..|ps| - 1], thr)))
  {
    var init := ps[..|ps| - 1];
    KeptDurationsGrow(delayed, thr, ps);
    NextCounts(delayed, ps, thr, count, CursorAfter(delayed, init, thr), PendingStart(init, thr),
               KeptDurations(delayed, init, thr));
  }

  lemma StateStep(delayed: seq<uint64>, read: Reader, count: Counter, thr: int, p: Packet, ps: seq<Arrival>,
                  cur: nat, start: nat, before: Stats)
    requires 1 < |ps| < TWO32 && start < |ps| - 1 && read(p) == Some(ps[|ps| - 1])
    ensures var n := |ps| - 1;
      var closes := Gap(ps, thr, n);
      var cur' := if closes then DelayCursor.Close(delayed, cur, ps[n].id).1 else cur;
      RxStep(StateAt(delayed, ps[..n], cur, start, before), read, count, thr, p)
        == StateAt(delayed, ps, cur', if closes then n else start,
                   NextStats(delayed, ps, thr, count, cur, start, before))
  {
    var n := |ps| - 1;
    StepReads(StateAt(delayed, ps[..n], cur, start, before), read, count, thr, p, ps[n]);
  }

  lemma FirstStep(s0: State, read: Reader, count: Counter, thr: int, p: Packet, ps: seq<Arrival>)
    requires Starting(s0) && |ps| == 1 && read(p) == Some(ps[0])
    ensures RxStep(s0, read, count, thr, p) == StateAfter(s0.cap.delayedPktIds, ps, thr, count)
  {
  }

  lemma NextStep(delayed: seq<uint64>, read: Reader, count: Counter, thr: int, p: Packet, ps: seq<Arrival>)
    requires 1 < |ps| < TWO32 && read(p) == Some(ps[|ps| - 1])
    ensures RxStep(StateAfter(delayed, ps[..|ps| - 1], thr, count), read, count, thr, p)
         == StateAfter(delayed, ps, thr, count)
  {
    var init := ps[..|ps| - 1];
    SummaryStep(delayed, ps, thr, count);
    Positions(delayed, ps, thr);
    StateStep(delayed, read, count, thr, p, ps, CursorAfter(delayed, init, thr), PendingStart(init, thr),
              CountAll(count, KeptDurations(delayed, init, thr)));
  }

  /** The pass counts every packet, and fails if and only if it had failed before or some packet cannot be read. */
  lemma {:induction false} ReceiveFails(s0: State, read: Reader, count: Counter, thr: int, pkts: seq<Packet>)
    ensures RxRun(s0, read, count, thr, pkts).cap.failed <==> s0.cap.failed || !AllReadable(read, pkts)
    ensures s0.cap.nPkts == 0 && |pkts| < TWO32 ==> RxRun(s0, read, count, thr, pkts).cap.nPkts == |pkts|
  {
    if pkts != [] {
      ReceiveFails(s0, read, count, thr, pkts[..|pkts| - 1]);
      ReadableSplit(read, pkts);
    }
  }

  lemma RunOne(s0: State, read: Reader, count: Counter, thr: int, pkts: seq<Packet>, ps: seq<Arrival>)
    requires Starting(s0) && |pkts| == |ps| == 1 && read(pkts[0]) == Some(ps[0])
    ensures RxRun(s0, read, count, thr, pkts) == StateAfter(s0.cap.delayedPktIds, ps, thr, count)
  {
    assert pkts[..0] == [];
    FirstStep(s0, read, count, thr, pkts[0], ps);
  }

  /** The callback computes the statistics of the groups of the stream that are not ignored. */
  lemma {:induction false} RunTracks(s0: State, read: Reader, count: Counter, thr: int, pkts: seq<Packet>,
                                     ps: seq<Arrival>)
    requires Starting(s0) && 0 < |ps| < TWO32 && Reads(read, pkts, ps)
    ensures RxRun(s0, read, count, thr, pkts) == StateAfter(s0.cap.delayedPktIds, ps, thr, count)
  {
    var n := |ps| - 1;
    ReadsPrefix(read, pkts, ps);
    if n == 0 {
      RunOne(s0, read, count, thr, pkts, ps);
    } else {
      RunTracks(s0, read, count, thr, pkts[..n], ps[..n]);
      NextStep(s0.cap.delayedPktIds, read, count, thr, pkts[n], ps);
    }
  }

  // ---------------------------------------------------------------- the promises

  /** The statistics are the number, the sum and the squared deviations of the durations that are not ignored. */
  lemma StatsOfKept(s0: State, read: Reader, target: int, thr: int, pkts: seq<Packet>, ps: seq<Arrival>)
    requires Starting(s0) && 0 < |ps| < TWO32 && Reads(read, pkts, ps)
    ensures var vals := KeptDurations(s0.cap.delayedPktIds, ps, thr);
      && RxRun(s0, read, CounterOf(target), thr, pkts).stats
         == Stats(|vals|, Sum(vals) as real, SquaredDeviations(vals, target) as real)
      && RxRun(s0, read, CounterOf(target), thr, pkts).curGroupTs == ps[PendingStart(ps, thr)].ts
  {
    RunTracks(s0, read, CounterOf(target), thr, pkts, ps);
    CountAllSums(target, KeptDurations(s0.cap.delayedPktIds, ps, thr));
  }

  /** Durations counted and durations ignored telescope to the time from the first packet to the pending group. */
  lemma DurationsConserved(s0: State, read: Reader, target: int, thr: int, pkts: seq<Packet>, ps: seq<Arrival>)
    requires Starting(s0) && 0 < |ps| < TWO32 && Reads(read, pkts, ps)
    ensures var s := RxRun(s0, read, CounterOf(target), thr, pkts);
      s.stats.totalTime + Sum(Dropped(s0.cap.delayedPktIds, ps, thr, Durations(ps, thr))) as real
        == (s.curGroupTs - ps[0].ts) as real
  {
    StatsOfKept(s0, read, target, thr, pkts, ps);
    Conserved(s0.cap.delayedPktIds, ps, thr);
  }

  lemma MeanDominated(g: Stats, target: int, vals: seq<int>)
    requires vals != [] && g.nGroups == |vals|
    requires g.totalTime == Sum(vals) as real && g.squaredDevSum == SquaredDeviations(vals, target) as real
    ensures ErrorSquare(g, target) <= MeanSquare(g)
  {
    BiasWithinDeviation(vals, target);
  }

  /** A step either leaves the statistics alone or counts one more group. */
  lemma StepCounts(s: State, read: Reader, count: Counter, thr: int, p: Packet) returns (counted: bool, d: int)
    ensures RxStep(s, read, count, thr, p).stats == if counted then count(s.stats, d) else s.stats
  {
    var (c, ts) := Receive(s.cap, read, p);
    var closes := ts.Some? && c.nPkts != 1 && ts.value - c.prevTs > thr;
    counted := closes && !DelayCursor.Close(c.delayedPktIds, c.curDelayedIdx, c.curPktId).0;
    d := if closes then ts.value - s.curGroupTs else 0;
  }

  /** Whatever was captured, the statistics are those of some list of durations, one at most for each packet. */
  lemma {:induction false} StatsOfSome(s0: State, read: Reader, count: Counter, thr: int, pkts: seq<Packet>)
    returns (vals: seq<int>)
    requires s0.stats == NO_GROUPS
    ensures |vals| <= |pkts| && RxRun(s0, read, count, thr, pkts).stats == CountAll(count, vals)
  {
    if pkts == [] {
      vals := [];
    } else {
      var n := |pkts| - 1;
      vals := StatsOfSome(s0, read, count, thr, pkts[..n]);
      var counted, d := StepCounts(RxRun(s0, read, count, thr, pkts[..n]), read, count, thr, pkts[n]);
      if counted {
        CountAppend(count, vals, d);
        vals := vals + [d];
      }
    }
  }

  /**
   * The average is never further off than the deviation, so on every capture, readable or not, the verdict on the
   * distribution is the deviation test alone, whatever the limit.
   */
  lemma DeviationDecides(s0: State, read: Reader, target: int, thr: int, pkts: seq<Packet>, limit: real)
    requires s0.stats == NO_GROUPS && |pkts| < TWO32
    requires RxRun(s0, read, CounterOf(target), thr, pkts).stats.nGroups > 0
    ensures var g := RxRun(s0, read, CounterOf(target), thr, pkts).stats;
      && ErrorSquare(g, target) <= MeanSquare(g)
      && (TooFar(ErrorSquare(g, target), MeanSquare(g), limit) <==> MeanSquare(g) > limit)
  {
    var vals := StatsOfSome(s0, read, CounterOf(target), thr, pkts);
    CountAllSums(target, vals);
    MeanDominated(RxRun(s0, read, CounterOf(target), thr, pkts).stats, target, vals);
  }

  /** The verdict on the statistics of a list of measurements. */
  lemma PassesOn(s: State, target: uint32, vals: seq<int>)
    requires |vals| < TWO32 && s.stats == Stats(|vals|, Sum(vals) as real, SquaredDeviations(vals, target) as real)
    requires s.cap.nPkts != 0 && !s.cap.failed
    ensures Passes(s, target) <==>
      if target > 0 then vals != [] && Mean(SquaredDeviations(vals, target) as real, |vals|) <= LimitSquare(target)
      else |vals| as real / s.cap.nPkts as real <= MAX_UNEXP_DELAYS
  {
    if vals != [] {
      MeanDominated(s.stats, target, vals);
    }
  }

  /**
   * Measurements near the target: there are some, and the root of the mean squared deviation is at most a tenth of the
   * target. With moderation off, at most one group for 200 packets.
   */
  predicate WithinLimits(vals: seq<int>, packets: nat, target: int) {
    if target > 0 then vals != [] && 100 * SquaredDeviations(vals, target) <= |vals| * (target * target)
    else 200 * |vals| <= packets
  }

  /** The limits of the judgement in whole numbers. */
  lemma LimitsInIntegers(s: State, target: uint32, vals: seq<int>)
    requires |vals| < TWO32 && s.stats == Stats(|vals|, Sum(vals) as real, SquaredDeviations(vals, target) as real)
    requires s.cap.nPkts != 0 && !s.cap.failed
    ensures Passes(s, target) <==> WithinLimits(vals, s.cap.nPkts, target)
  {
    PassesOn(s, target, vals);
    if target == 0 {
      MeanAgainstFraction(|vals|, s.cap.nPkts, MAX_UNEXP_DELAYS, 1, 200);
    } else if vals != [] {
      TenPercent(target);
      MeanAgainstFraction(SquaredDeviations(vals, target), |vals|, LimitSquare(target), target * target, 100);
    }
  }

  lemma TenPercent(target: int)
    ensures LimitSquare(target) * 100.0 == (target * target) as real
  {
    RealProduct(target, target);
  }

  /** The measurements of the groups without a late packet are within the limits. */
  ghost predicate Acceptable(txs: seq<Arrival>, late: int, rxs: seq<Arrival>, thr: int, target: int) {
    WithinLimits(Clean(txs, late, rxs, thr, Durations(rxs, thr)), |rxs|, target)
  }

  lemma ReadableVerdict(s0: State, read: Reader, target: uint32, late: uint32, thr: int, tx: seq<Packet>,
                        txs: seq<Arrival>, rx: seq<Packet>, rxs: seq<Arrival>)
    requires s0.cap == NOTHING_CAPTURED && s0.stats == NO_GROUPS
    requires Reads(read, tx, txs) && Reads(read, rx, rxs)
    requires 0 < |txs| < TWO32 && 0 < |rxs| < TWO32
    requires AscendingIds(txs) && NarrowIds(txs) && AscendingIds(rxs)
    ensures TestPasses(s0, read, target, late, thr, tx, rx) <==> Acceptable(txs, late, rxs, thr, target)
  {
    TxRecordsLate(s0.cap, read, late, tx, txs);
    var delayed := CloseIds(txs, late);
    var s := s0.(cap := TxRun(s0.cap, read, late, tx).(nPkts := 0));
    assert [] + delayed == delayed;
    assert s.cap.delayedPktIds == delayed;
    KeptIsClean(txs, late, rxs, thr, Durations(rxs, thr));
    RunTracks(s, read, CounterOf(target), thr, rx, rxs);
    StatsOfKept(s, read, target, thr, rx, rxs);
    LimitsInIntegers(RxRun(s, read, CounterOf(target), thr, rx), target, KeptDurations(delayed, rxs, thr));
  }

  /** The ascending numbers that readable captures of an ordered channel have, those sent below 2^32. */
  predicate OrderedCaptures(read: Reader, tx: seq<Packet>, rx: seq<Packet>) {
    && (AllReadable(read, tx) ==> AscendingIds(Arrivals(read, tx)) && NarrowIds(Arrivals(read, tx)))
    && (AllReadable(read, rx) ==> AscendingIds(Arrivals(read, rx)))
  }

  /** Neither capture is empty, all packets can be read and the streams they give are acceptable. */
  ghost predicate GoodCaptures(read: Reader, late: int, thr: int, target: int, tx: seq<Packet>, rx: seq<Packet>) {
    && tx != [] && AllReadable(read, tx) && rx != [] && AllReadable(read, rx)
    && Acceptable(Arrivals(read, tx), late, Arrivals(read, rx), thr, target)
  }

  /**
   * From any two captures to the verdict: the test passes if and only if neither is empty, all packets can be read and
   * the streams they give are acceptable.
   */
  lemma VerdictExact(s0: State, read: Reader, target: uint32, late: uint32, thr: int, tx: seq<Packet>, rx: seq<Packet>)
    requires s0.cap == NOTHING_CAPTURED && s0.stats == NO_GROUPS
    requires |tx| < TWO32 && |rx| < TWO32 && OrderedCaptures(read, tx, rx)
    ensures TestPasses(s0, read, target, late, thr, tx, rx) <==> GoodCaptures(read, late, thr, target, tx, rx)
  {
    UnreadableFails(s0.cap, read, late, tx);
    var start := s0.(cap := TxRun(s0.cap, read, late, tx).(nPkts := 0));
    ReceiveFails(start, read, CounterOf(target), thr, rx);
    if tx != [] && AllReadable(read, tx) && rx != [] && AllReadable(read, rx) {
      ArrivalsAreRead(read, tx);
      ArrivalsAreRead(read, rx);
      ReadableVerdict(s0, read, target, late, thr, tx, Arrivals(read, tx), rx, Arrivals(read, rx));
    }
  }

  /**
   * The test from its parameters and the two captures to the verdict. A transmitted packet is late after more than five
   * send delays. Captures with ascending numbers pass exactly when they are not empty, can be read and the groups
   * without a late packet are within the limits.
   */
  method CheckCaptures(host: PacketId.HostOrder, sendDelay: uint32, coalesceUsecs: uint32, minGroupDelay: uint32,
                       tx: seq<Packet>, rx: seq<Packet>) returns (v: Verdict)
    requires |tx| < TWO32 && |rx| < TWO32 && OrderedCaptures(ReaderOf(host), tx, rx)
    ensures v == Pass <==> GoodCaptures(ReaderOf(host), Wrap(5 * sendDelay), minGroupDelay, coalesceUsecs, tx, rx)
  {
    FiveDelays(sendDelay);
    var args := new TestCbArgs(host, sendDelay, coalesceUsecs, minGroupDelay);
    ghost var s0 := args.Value();
    v := args.RunTest(tx, rx);
    VerdictExact(s0, ReaderOf(host), coalesceUsecs, LateThreshold(sendDelay), minGroupDelay, tx, rx);
  }
}
