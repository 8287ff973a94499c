/**
 * Measuring how many packets are coalesced: the groups of received packets, their sizes and the verdict
 * (net-drv-ts/rx_path/rx_coalesce_frames.c). C doubles are exact reals here.
 */
module RxCoalesceFrames {
  import opened Common
  import opened PacketGroups
  import opened RxCapture
  import opened KeptGroups
  import opened Deviation
  import DelayCursor
  import PacketId

  /** Minimum gap, in microseconds, in front of a packet of another group. */
  const MIN_GROUP_DELAY: int := 100

  const ERR_MARGIN: real := 0.15

  /** Statistics of the groups counted so far. */
  datatype Stats = Stats(nGroups: uint32, totalSize: uint32, squaredDevSum: real)

  const NO_GROUPS: Stats := Stats(0, 0, 0.0)

  /** The callback data: what is common to both tests, the size of the pending group and the statistics. */
  datatype State = State(cap: Capture, curGroupSize: uint32, stats: Stats)

  function Count(s: Stats, target: uint32, size: uint32): Stats {
    var dev := ToInt32(size) - ToInt32(target);
    Stats(Add32(s.nGroups, 1), Add32(s.totalSize, size), s.squaredDevSum + (dev * dev) as real)
  }

  /** How one more group enters the statistics. */
  type Counter = (Stats, uint32) -> Stats

  function CounterOf(target: uint32): Counter {
    (s: Stats, size: uint32) => Count(s, target, size)
  }

  function Finish(s: State, count: Counter): State {
    var (skip, next) := DelayCursor.Close(s.cap.delayedPktIds, s.cap.curDelayedIdx, s.cap.curPktId);
    State(s.cap.(curDelayedIdx := next), 0, if skip then s.stats else count(s.stats, s.curGroupSize))
  }

  function RxStep(s: State, read: Reader, count: Counter, thr: int, p: Packet): State {
    var (c, ts) := Receive(s.cap, read, p);
    var s := s.(cap := c);
    if ts.None? then s
    else
      var s := if c.nPkts > 1 && ts.value - c.prevTs > thr then Finish(s, count) else s;
      s.(cap := s.cap.(prevTs := ts.value), curGroupSize := Add32(s.curGroupSize, 1))
  }

  function RxRun(s: State, read: Reader, count: Counter, thr: int, pkts: seq<Packet>): State {
    if pkts == [] then s
    else RxStep(RxRun(s, read, count, thr, pkts[..|pkts| - 1]), read, count, thr, pkts[|pkts| - 1])
  }

  /** The two tests on the distribution, on squares: the error of the mean and the mean squared deviation. */
  predicate TooFar(errorSquare: real, meanSquare: real, limitSquare: real) {
    errorSquare > limitSquare || meanSquare > limitSquare
  }

  /** The square of the largest error or deviation tolerated, relative to the target. */
  function LimitSquare(target: int): real {
    Square(ERR_MARGIN * target as real)
  }

  /** Squared error of the mean against the target. */
  function ErrorSquare(s: Stats, target: int): real
    requires s.nGroups > 0
  {
    MeanErrorSquare(s.totalSize as real, s.nGroups, target)
  }

  function MeanSquare(s: Stats): real
    requires s.nGroups > 0
  {
    Mean(s.squaredDevSum, s.nGroups)
  }

  predicate Passes(s: State, target: uint32) {
    && s.cap.nPkts != 0 && !s.cap.failed
    && s.stats.nGroups > 0 && !TooFar(ErrorSquare(s.stats, target), MeanSquare(s.stats), LimitSquare(target))
  }

  datatype Verdict = Pass | NothingSent | SendFailed | NothingCaptured | CaptureFailed | NoGroups | TooFarOff

  /** The whole test on two captures: both passes and the judgement. */
  predicate TestPasses(s0: State, read: Reader, target: uint32, late: uint32, thr: int, tx: seq<Packet>,
                       rx: seq<Packet>) {
    var txDone := TxRun(s0.cap, read, late, tx);
    && txDone.nPkts != 0 && !txDone.failed
    && Passes(RxRun(s0.(cap := txDone.(nPkts := 0)), read, CounterOf(target), thr, rx), target)
  }

  class TestCbArgs {
    const cap: CaptureArgs
    const coalesceFrames: uint32
    var curGroupSize: uint32
    var nGroups: uint32
    var totalGroupSize: uint32
    var squaredDevSum: real
    var avgGroupSize: real
    var groupSizeDevSquared: real

    ghost function Value(): State
      reads this, cap
    {
      State(cap.Value(), curGroupSize, Stats(nGroups, totalGroupSize, squaredDevSum))
    }

    constructor (host: PacketId.HostOrder, sendDelay: uint32, coalesceFrames: uint32)
      ensures fresh(cap) && cap.host == host && cap.pktSendDelay == sendDelay
      ensures this.coalesceFrames == coalesceFrames
      ensures Value() == State(NOTHING_CAPTURED, 0, NO_GROUPS)
    {
      cap := new CaptureArgs(host, sendDelay);
      this.coalesceFrames := coalesceFrames;
      curGroupSize, nGroups, totalGroupSize, squaredDevSum := 0, 0, 0, 0.0;
      avgGroupSize, groupSizeDevSquared := 0.0, 0.0;
    }

    method FinishPktGroup()
      modifies this, cap
      ensures Value() == Finish(old(Value()), CounterOf(coalesceFrames))
    {
      var skip, next := DelayCursor.SkipDelayed(cap.delayedPktIds, cap.curDelayedIdx, cap.curPktId);
      cap.curDelayedIdx := next;
      if !skip {
        nGroups := Add32(nGroups, 1);
        totalGroupSize := Add32(totalGroupSize, curGroupSize);
        var deviation := ToInt32(curGroupSize) - ToInt32(coalesceFrames);
        squaredDevSum := squaredDevSum + (deviation * deviation) as real;
      }
      curGroupSize := 0;
    }

    method ProcessRxPkts(pkt: Packet)
      modifies this, cap
      ensures Value() == RxStep(old(Value()), ReaderOf(cap.host), CounterOf(coalesceFrames), MIN_GROUP_DELAY, pkt)
    {
      var ts := cap.ReadPacket(pkt);
      if ts.None? { return; }
      if cap.nPkts > 1 && ts.value - cap.prevTs > MIN_GROUP_DELAY {
        FinishPktGroup();
      }
      cap.prevTs := ts.value;
      curGroupSize := Add32(curGroupSize, 1);
    }

    method FinalizeStats()
      modifies this`avgGroupSize, this`groupSizeDevSquared
      ensures nGroups > 0 ==>
        && avgGroupSize == totalGroupSize as real / nGroups as real
        && groupSizeDevSquared == squaredDevSum / nGroups as real
      ensures nGroups == 0 ==>
        avgGroupSize == old(avgGroupSize) && groupSizeDevSquared == old(groupSizeDevSquared)
    {
      if nGroups == 0 { return; }
      avgGroupSize := totalGroupSize as real / nGroups as real;
      groupSizeDevSquared := squaredDevSum / nGroups as real;
    }

    /** The test from the two captures to the verdict. */
    method RunTest(tx: seq<Packet>, rx: seq<Packet>) returns (v: Verdict)
      requires |tx| < TWO32 && |rx| < TWO32 && cap.Value() == NOTHING_CAPTURED
      modifies this, cap
      ensures v == NothingSent <==> tx == []
      ensures v == SendFailed <==> tx != [] && !AllReadable(ReaderOf(cap.host), tx)
      ensures v == NothingCaptured <==> tx != [] && AllReadable(ReaderOf(cap.host), tx) && rx == []
      ensures v == CaptureFailed <==>
        tx != [] && AllReadable(ReaderOf(cap.host), tx) && rx != [] && !AllReadable(ReaderOf(cap.host), rx)
      ensures v == Pass <==>
        TestPasses(old(Value()), ReaderOf(cap.host), coalesceFrames, LateThreshold(cap.pktSendDelay),
                   MIN_GROUP_DELAY, tx, rx)
    {
      cap.TransmitAll(tx);
      UnreadableFails(NOTHING_CAPTURED, ReaderOf(cap.host), LateThreshold(cap.pktSendDelay), tx);
      if cap.nPkts == 0 { return NothingSent; }
      if cap.failed { return SendFailed; }
      ghost var start := Value();
      ReceiveAll(rx);
      ReceiveFails(start.(cap := start.cap.(nPkts := 0)), ReaderOf(cap.host), CounterOf(coalesceFrames),
                   MIN_GROUP_DELAY, rx);
      v := Judge();
    }

    /** The receive pass: the packet counter is reset and the callback gets the captured packets one by one. */
    method ReceiveAll(pkts: seq<Packet>)
      modifies this, cap
      ensures Value() == RxRun(old(Value()).(cap := old(Value()).cap.(nPkts := 0)), ReaderOf(cap.host),
                               CounterOf(coalesceFrames), MIN_GROUP_DELAY, pkts)
    {
      cap.nPkts := 0;
      ghost var start := Value();
      for i := 0 to |pkts|
        invariant Value() == RxRun(start, ReaderOf(cap.host), CounterOf(coalesceFrames), MIN_GROUP_DELAY, pkts[..i])
      {
        ProcessRxPkts(pkts[i]);
        assert pkts[..i + 1][..i] == pkts[..i];
      }
      assert pkts[..|pkts|] == pkts;
    }

    /** The verdict on what was received. */
    method Judge() returns (v: Verdict)
      modifies this`avgGroupSize, this`groupSizeDevSquared
      ensures v == Pass <==> Passes(Value(), coalesceFrames)
      ensures v == NothingCaptured <==> cap.nPkts == 0
      ensures v == CaptureFailed <==> cap.nPkts != 0 && cap.failed
      ensures v == NoGroups <==> cap.nPkts != 0 && !cap.failed && nGroups == 0
      ensures v in {Pass, NothingCaptured, CaptureFailed, NoGroups, TooFarOff}
    {
      if cap.nPkts == 0 { return NothingCaptured; }
      if cap.failed { return CaptureFailed; }
      FinalizeStats();
      if nGroups == 0 { return NoGroups; }
      var error := avgGroupSize - coalesceFrames as real;
      if TooFar(Square(error), groupSizeDevSquared, LimitSquare(coalesceFrames)) { return TooFarOff; }
      return Pass;
    }
  }

  // ---------------------------------------------------------------- what the run computes

  /** Sizes that no 32-bit variable distorts. */
  predicate Small(vals: seq<int>) {
    forall i :: 0 <= i < |vals| ==> 0 <= vals[i] < TWO31
  }

  /** Statistics of a list of sizes. */
  function CountAll(count: Counter, vals: seq<int>): Stats
    requires Small(vals)
  {
    if vals == [] then NO_GROUPS else count(CountAll(count, vals[..|vals| - 1]), vals[|vals| - 1])
  }

  lemma CountAppend(count: Counter, vals: seq<int>, v: int)
    requires Small(vals) && 0 <= v < TWO31
    ensures Small(vals + [v]) && CountAll(count, vals + [v]) == count(CountAll(count, vals), v)
  {
    assert (vals + [v])[..|vals|] == vals;
  }

  lemma {:induction false} SumBounds(vals: seq<int>)
    requires Small(vals)
    ensures Sum(vals) >= 0
  {
    if vals != [] {
      SumBounds(vals[..|vals| - 1]);
    }
  }

  /** No 32-bit counter overflows while the packets are fewer than 2^31. */
  lemma {:induction false} CountAllSums(target: uint32, vals: seq<int>)
    requires Small(vals) && |vals| < TWO31 && 0 <= Sum(vals) < TWO31 && target < TWO31
    ensures CountAll(CounterOf(target), vals)
         == Stats(|vals|, Sum(vals), SquaredDeviations(vals, target) as real)
  {
    if vals != [] {
      var init := vals[..|vals| - 1];
      SumBounds(init);
      CountAllSums(target, init);
    }
  }

  lemma {:induction false} SelectSmall(vals: seq<int>, skips: seq<bool>, skipped: bool)
    requires |vals| == |skips| && Small(vals)
    ensures Small(Select(vals, skips, skipped))
  {
    if vals != [] {
      SelectSmall(vals[..|vals| - 1], skips[..|vals| - 1], skipped);
    }
  }

  function KeptSizes(delayed: seq<uint64>, ps: seq<Arrival>, thr: int): seq<int> {
    Kept(delayed, ps, thr, Sizes(ps, thr))
  }

  lemma KeptSizesFit(delayed: seq<uint64>, ps: seq<Arrival>, thr: int)
    requires 0 < |ps| < TWO31
    ensures PendingStart(ps, thr) < |ps|
    ensures var vals := KeptSizes(delayed, ps, thr);
      Small(vals) && |vals| < TWO31 && 0 <= Sum(vals) < TWO31
  {
    var skips := DelayCursor.Skips(delayed, CloseIds(ps, thr));
    forall k | 0 <= k < |Sizes(ps, thr)| ensures 0 <= Sizes(ps, thr)[k] < TWO31 {
      MeasuresExact(ps, thr, k);
    }
    SelectSmall(Sizes(ps, thr), skips, false);
    SelectSmall(Sizes(ps, thr), skips, true);
    SumBounds(KeptSizes(delayed, ps, thr));
    SumBounds(Dropped(delayed, ps, thr, Sizes(ps, thr)));
    Conserved(delayed, ps, thr);
    Telescope(ps, thr);
  }

  /** The state when the receive pass starts: what the transmit pass left, and no groups yet. */
  ghost predicate Starting(s: State) {
    s.cap.nPkts == 0 && !s.cap.failed && s.cap.curDelayedIdx == 0 && s.curGroupSize == 0 && s.stats == NO_GROUPS
  }

  /** The state after a stream, with the cursor, the first packet of the pending group and the statistics given. */
  function StateAt(delayed: seq<uint64>, ps: seq<Arrival>, cur: nat, start: nat, stats: Stats): State
    requires start < |ps| < TWO31
  {
    var last := ps[|ps| - 1];
    State(Capture(delayed, cur, last.ts, |ps|, last.id, false), |ps| - start, stats)
  }

  /** The state after a stream, stated on the groups of the stream instead of the callback. */
  function StateAfter(delayed: seq<uint64>, ps: seq<Arrival>, thr: int, count: Counter): State
    requires 0 < |ps| < TWO31
  {
    KeptSizesFit(delayed, ps, thr);
    StateAt(delayed, ps, CursorAfter(delayed, ps, thr), PendingStart(ps, thr),
            CountAll(count, KeptSizes(delayed, ps, thr)))
  }

  /** The last packet of a stream closes a group that counts. */
  predicate Counts(delayed: seq<uint64>, ps: seq<Arrival>, thr: int, cur: nat)
    requires |ps| > 1
  {
    Gap(ps, thr, |ps| - 1) && !DelayCursor.Close(delayed, cur, ps[|ps| - 1].id).0
  }

  /** What the last packet makes of the list of measurements, and of the statistics. */
  function NextVals(delayed: seq<uint64>, ps: seq<Arrival>, thr: int, cur: nat, start: nat, vals: seq<int>): seq<int>
    requires 1 < |ps| < TWO31 && start < |ps| - 1
  {
    var n := |ps| - 1;
    if Counts(delayed, ps, thr, cur) then vals + [n - start] else vals
  }

  function NextStats(delayed: seq<uint64>, ps: seq<Arrival>, thr: int, count: Counter, cur: nat, start: nat,
                     before: Stats): Stats
    requires 1 < |ps| < TWO31 && start < |ps| - 1
  {
    var n := |ps| - 1;
    if Counts(delayed, ps, thr, cur) then count(before, n - start) else before
  }

  /** The state after a packet that closes a group. */
  function ClosedState(s: State, count: Counter, a: Arrival): State
    requires s.cap.nPkts < TWO32 - 1
  {
    var (skip, next) := DelayCursor.Close(s.cap.delayedPktIds, s.cap.curDelayedIdx, a.id);
    State(Capture(s.cap.delayedPktIds, next, a.ts, s.cap.nPkts + 1, a.id, false), 1,
          if skip then s.stats else count(s.stats, s.curGroupSize))
  }

  function QuietState(s: State, a: Arrival): State
    requires s.cap.nPkts < TWO32 - 1 && s.curGroupSize < TWO32 - 1
  {
    State(s.cap.(prevTs := a.ts, nPkts := s.cap.nPkts + 1, curPktId := a.id), s.curGroupSize + 1, s.stats)
  }

  lemma StepReads(s: State, read: Reader, count: Counter, thr: int, p: Packet, a: Arrival)
    requires !s.cap.failed && 0 < s.cap.nPkts < TWO32 - 1 && s.curGroupSize < TWO32 - 1 && read(p) == Some(a)
    ensures RxStep(s, read, count, thr, p) ==
      if a.ts - s.cap.prevTs > thr then ClosedState(s, count, a) else QuietState(s, a)
  {
  }

  lemma KeptSizesGrow(delayed: seq<uint64>, thr: int, ps: seq<Arrival>)
    requires 1 < |ps| < TWO31
    ensures Small(KeptSizes(delayed, ps[..|ps| - 1], thr))
    ensures KeptSizes(delayed, ps, thr)
         == NextVals(delayed, ps, thr, CursorAfter(delayed, ps[..|ps| - 1], thr), PendingStart(ps[..|ps| - 1], thr),
                     KeptSizes(delayed, ps[..|ps| - 1], thr))
  {
    KeptSizesFit(delayed, ps[..|ps| - 1], thr);
    if Gap(ps, thr, |ps| - 1) {
      ClosingArrival(delayed, ps, thr);
    } else {
      QuietArrival(delayed, ps, thr);
    }
  }

  lemma NextCounts(delayed: seq<uint64>, ps: seq<Arrival>, thr: int, count: Counter, cur: nat, start: nat,
                   vals: seq<int>)
    requires 1 < |ps| < TWO31 && start < |ps| - 1 && Small(vals)
    ensures var next := NextVals(delayed, ps, thr, cur, start, vals);
      Small(next) && CountAll(count, next) == NextStats(delayed, ps, thr, count, cur, start, CountAll(count, vals))
  {
    var n := |ps| - 1;
    if Counts(delayed, ps, thr, cur) {
      CountAppend(count, vals, n - start);
    }
  }

  lemma SummaryStep(delayed: seq<uint64>, ps: seq<Arrival>, thr: int, count: Counter)
    requires 1 < |ps| < TWO31
    ensures Small(KeptSizes(delayed, ps[..|ps| - 1], thr)) && Small(KeptSizes(delayed, ps, thr))
    ensures CountAll(count, KeptSizes(delayed, ps, thr))
         == NextStats(delayed, ps, thr, count, CursorAfter(delayed, ps[..|ps| - 1], thr),
                      PendingStart(ps[..|ps| - 1], thr), CountAll(count, KeptSizes(delayed, ps[..|ps| - 1], thr)))
  {
    var init := ps[..|ps| - 1];
    KeptSizesGrow(delayed, thr, ps);
    NextCounts(delayed, ps, thr, count, CursorAfter(delayed, init, thr), PendingStart(init, thr),
               KeptSizes(delayed, init, thr));
  }

  lemma StateStep(delayed: seq<uint64>, read: Reader, count: Counter, thr: int, p: Packet, ps: seq<Arrival>,
                  cur: nat, start: nat, before: Stats)
    requires 1 < |ps| < TWO31 && start < |ps| - 1 && read(p) == Some(ps[|ps| - 1])
    ensures var n := |ps| - 1;
      var closes := Gap(ps, thr, n);
      var cur' := if closes then DelayCursor.Close(delayed, cur, ps[n].id).1 else cur;
      RxStep(StateAt(delayed, ps[..n], cur, start, before), read, count, thr, p)
        == StateAt(delayed, ps, cur', if closes then n else start,
                   NextStats(delayed, ps, thr, count, cur, start, before))
  {
    var n := |ps| - 1;
    StepReads(StateAt(delayed, ps[..n], cur, start, before), read, count, thr, p, ps[n]);
  }

  lemma FirstStep(s0: State, read: Reader, count: Counter, thr: int, p: Packet, ps: seq<Arrival>)
    requires Starting(s0) && |ps| == 1 && read(p) == Some(ps[0])
    ensures RxStep(s0, read, count, thr, p) == StateAfter(s0.cap.delayedPktIds, ps, thr, count)
  {
  }

  lemma NextStep(delayed: seq<uint64>, read: Reader, count: Counter, thr: int, p: Packet, ps: seq<Arrival>)
    requires 1 < |ps| < TWO31 && read(p) == Some(ps[|ps| - 1])
    ensures RxStep(StateAfter(delayed, ps[..|ps| - 1], thr, count), read, count, thr, p)
         == StateAfter(delayed, ps, thr, count)
  {
    var init := ps[..|ps| - 1];
    SummaryStep(delayed, ps, thr, count);
    Positions(delayed, ps, thr);
    StateStep(delayed, read, count, thr, p, ps, CursorAfter(delayed, init, thr), PendingStart(init, thr),
              CountAll(count, KeptSizes(delayed, init, thr)));
  }

  /** The pass counts every packet, and fails if and only if it had failed before or some packet cannot be read. */
  lemma {:induction false} ReceiveFails(s0: State, read: Reader, count: Counter, thr: int, pkts: seq<Packet>)
    ensures RxRun(s0, read, count, thr, pkts).cap.failed <==> s0.cap.failed || !AllReadable(read, pkts)
    ensures s0.cap.nPkts == 0 && |pkts| < TWO32 ==> RxRun(s0, read, count, thr, pkts).cap.nPkts == |pkts|
  {
    if pkts != [] {
      ReceiveFails(s0, read, count, thr, pkts[..|pkts| - 1]);
      ReadableSplit(read, pkts);
    }
  }

  lemma RunOne(s0: State, read: Reader, count: Counter, thr: int, pkts: seq<Packet>, ps: seq<Arrival>)
    requires Starting(s0) && |pkts| == |ps| == 1 && read(pkts[0]) == Some(ps[0])
    ensures RxRun(s0, read, count, thr, pkts) == StateAfter(s0.cap.delayedPktIds, ps, thr, count)
  {
    assert pkts[..0] == [];
    FirstStep(s0, read, count, thr, pkts[0], ps);
  }

  /** The callback computes the statistics of the groups of the stream that are not ignored. */
  lemma {:induction false} RunTracks(s0: State, read: Reader, count: Counter, thr: int, pkts: seq<Packet>,
                                     ps: seq<Arrival>)
    requires Starting(s0) && 0 < |ps| < TWO31 && Reads(read, pkts, ps)
    ensures RxRun(s0, read, count, thr, pkts) == StateAfter(s0.cap.delayedPktIds, ps, thr, count)
  {
    var n := |ps| - 1;
    ReadsPrefix(read, pkts, ps);
    if n == 0 {
      RunOne(s0, read, count, thr, pkts, ps);
    } else {
      RunTracks(s0, read, count, thr, pkts[..n], ps[..n]);
      NextStep(s0.cap.delayedPktIds, read, count, thr, pkts[n], ps);
    }
  }

  // ---------------------------------------------------------------- the promises

  /** The statistics are the number, the sum and the squared deviations of the sizes that are not ignored. */
  lemma StatsOfKept(s0: State, read: Reader, target: uint32, thr: int, pkts: seq<Packet>, ps: seq<Arrival>)
    requires Starting(s0) && 0 < |ps| < TWO31 && target < TWO31 && Reads(read, pkts, ps)
    ensures var vals := KeptSizes(s0.cap.delayedPktIds, ps, thr);
      && |vals| < TWO32 && 0 <= Sum(vals) < TWO32
      && RxRun(s0, read, CounterOf(target), thr, pkts).stats
         == Stats(|vals|, Sum(vals), SquaredDeviations(vals, target) as real)
  {
    RunTracks(s0, read, CounterOf(target), thr, pkts, ps);
    KeptSizesFit(s0.cap.delayedPktIds, ps, thr);
    CountAllSums(target, KeptSizes(s0.cap.delayedPktIds, ps, thr));
  }

  /** Every captured packet is in a counted group, in an ignored group or in the pending one. */
  lemma PacketsConserved(s0: State, read: Reader, target: uint32, thr: int, pkts: seq<Packet>, ps: seq<Arrival>)
    requires Starting(s0) && 0 < |ps| < TWO31 && target < TWO31 && Reads(read, pkts, ps)
    ensures var s := RxRun(s0, read, CounterOf(target), thr, pkts);
      s.stats.totalSize + Sum(Dropped(s0.cap.delayedPktIds, ps, thr, Sizes(ps, thr))) + s.curGroupSize == s.cap.nPkts
  {
    RunTracks(s0, read, CounterOf(target), thr, pkts, ps);
    StatsOfKept(s0, read, target, thr, pkts, ps);
    Conserved(s0.cap.delayedPktIds, ps, thr);
  }

  lemma MeanDominated(g: Stats, target: int, vals: seq<int>)
    requires vals != [] && g.nGroups == |vals|
    requires g.totalSize as real == Sum(vals) as real && g.squaredDevSum == SquaredDeviations(vals, target) as real
    ensures ErrorSquare(g, target) <= MeanSquare(g)
  {
    BiasWithinDeviation(vals, target);
  }

  /** A step either leaves the statistics alone or counts the pending group, and no packet is counted twice. */
  lemma StepCounts(s: State, read: Reader, count: Counter, thr: int, p: Packet) returns (counted: bool)
    requires s.curGroupSize < TWO32 - 1
    ensures var t := RxStep(s, read, count, thr, p);
      && t.stats == (if counted then count(s.stats, s.curGroupSize) else s.stats)
      && t.curGroupSize <= (if counted then 0 else s.curGroupSize) + 1
  {
    var (c, ts) := Receive(s.cap, read, p);
    var closes := ts.Some? && c.nPkts > 1 && ts.value - c.prevTs > thr;
    counted := closes && !DelayCursor.Close(c.delayedPktIds, c.curDelayedIdx, c.curPktId).0;
  }

  /** Whatever was captured, the statistics are those of some list of sizes that add up to no more than the packets. */
  lemma {:induction false} StatsOfSome(s0: State, read: Reader, count: Counter, thr: int, pkts: seq<Packet>)
    returns (vals: seq<int>)
    requires s0.stats == NO_GROUPS && s0.curGroupSize == 0 && |pkts| < TWO31
    ensures |vals| <= |pkts| && Small(vals) && Sum(vals) + RxRun(s0, read, count, thr, pkts).curGroupSize <= |pkts|
    ensures RxRun(s0, read, count, thr, pkts).stats == CountAll(count, vals)
  {
    if pkts == [] {
      vals := [];
    } else {
      var n := |pkts| - 1;
      vals := StatsOfSome(s0, read, count, thr, pkts[..n]);
      SumBounds(vals);
      var s := RxRun(s0, read, count, thr, pkts[..n]);
      var counted := StepCounts(s, read, count, thr, pkts[n]);
      if counted {
        CountAppend(count, vals, s.curGroupSize);
        SumAppend(vals, s.curGroupSize, 0);
        vals := vals + [s.curGroupSize];
      }
    }
  }

  /**
   * The average is never further off than the deviation, so on every capture, readable or not, the verdict on the
   * distribution is the deviation test alone, whatever the limit.
   */
  lemma DeviationDecides(s0: State, read: Reader, target: uint32, thr: int, pkts: seq<Packet>, limit: real)
    requires s0.stats == NO_GROUPS && s0.curGroupSize == 0 && |pkts| < TWO31 && target < TWO31
    requires RxRun(s0, read, CounterOf(target), thr, pkts).stats.nGroups > 0
    ensures var g := RxRun(s0, read, CounterOf(target), thr, pkts).stats;
      && ErrorSquare(g, target) <= MeanSquare(g)
      && (TooFar(ErrorSquare(g, target), MeanSquare(g), limit) <==> MeanSquare(g) > limit)
  {
    var vals := StatsOfSome(s0, read, CounterOf(target), thr, pkts);
    SumBounds(vals);
    CountAllSums(target, vals);
    MeanDominated(RxRun(s0, read, CounterOf(target), thr, pkts).stats, target, vals);
  }

  /** The verdict on the statistics of a list of measurements. */
  lemma PassesOn(s: State, target: uint32, vals: seq<int>)
    requires |vals| < TWO32 && 0 <= Sum(vals) < TWO32
    requires s.stats == Stats(|vals|, Sum(vals), SquaredDeviations(vals, target) as real)
    requires s.cap.nPkts != 0 && !s.cap.failed
    ensures Passes(s, target) <==>
      vals != [] && Mean(SquaredDeviations(vals, target) as real, |vals|) <= LimitSquare(target)
  {
    if vals != [] {
      MeanDominated(s.stats, target, vals);
    }
  }

  /**
   * Measurements near the target: there are some, and the root of the mean squared deviation is at most 15 percent of
   * the target.
   */
  predicate WithinLimits(vals: seq<int>, target: int) {
    vals != [] && 400 * SquaredDeviations(vals, target) <= |vals| * (9 * (target * target))
  }

  /** The limits of the judgement in whole numbers. */
  lemma LimitsInIntegers(s: State, target: uint32, vals: seq<int>)
    requires |vals| < TWO32 && 0 <= Sum(vals) < TWO32
    requires s.stats == Stats(|vals|, Sum(vals), SquaredDeviations(vals, target) as real)
    requires s.cap.nPkts != 0 && !s.cap.failed
    ensures Passes(s, target) <==> WithinLimits(vals, target)
  {
    PassesOn(s, target, vals);
    if vals != [] {
      FifteenPercent(target);
      MeanAgainstFraction(SquaredDeviations(vals, target), |vals|, LimitSquare(target), 9 * (target * target), 400);
    }
  }

  lemma FifteenPercent(target: int)
    ensures LimitSquare(target) * 400.0 == (9 * (target * target)) as real
  {
    RealProduct(target, target);
  }

  /** The measurements of the groups without a late packet are within the limits. */
  ghost predicate Acceptable(txs: seq<Arrival>, late: int, rxs: seq<Arrival>, thr: int, target: int) {
    WithinLimits(Clean(txs, late, rxs, thr, Sizes(rxs, thr)), target)
  }

  lemma ReadableVerdict(s0: State, read: Reader, target: uint32, late: uint32, thr: int, tx: seq<Packet>,
                        txs: seq<Arrival>, rx: seq<Packet>, rxs: seq<Arrival>)
    requires s0.cap == NOTHING_CAPTURED && s0.stats == NO_GROUPS && s0.curGroupSize == 0
    requires target < TWO31 && Reads(read, tx, txs) && Reads(read, rx, rxs)
    requires 0 < |txs| < TWO32 && 0 < |rxs| < TWO31
    requires AscendingIds(txs) && NarrowIds(txs) && AscendingIds(rxs)
    ensures TestPasses(s0, read, target, late, thr, tx, rx) <==> Acceptable(txs, late, rxs, thr, target)
  {
    TxRecordsLate(s0.cap, read, late, tx, txs);
    var delayed := CloseIds(txs, late);
    var s := s0.(cap := TxRun(s0.cap, read, late, tx).(nPkts := 0));
    assert [] + delayed == delayed;
    assert s.cap.delayedPktIds == delayed;
    KeptIsClean(txs, late, rxs, thr, Sizes(rxs, thr));
    RunTracks(s, read, CounterOf(target), thr, rx, rxs);
    StatsOfKept(s, read, target, thr, rx, rxs);
    LimitsInIntegers(RxRun(s, read, CounterOf(target), thr, rx), target, KeptSizes(delayed, rxs, thr));
  }

  /** The ascending numbers that readable captures of an ordered channel have, those sent below 2^32. */
  predicate OrderedCaptures(read: Reader, tx: seq<Packet>, rx: seq<Packet>) {
    && (AllReadable(read, tx) ==> AscendingIds(Arrivals(read, tx)) && NarrowIds(Arrivals(read, tx)))
    && (AllReadable(read, rx) ==> AscendingIds(Arrivals(read, rx)))
  }

  /** Neither capture is empty, all packets can be read and the streams they give are acceptable. */
  ghost predicate GoodCaptures(read: Reader, late: int, thr: int, target: int, tx: seq<Packet>, rx: seq<Packet>) {
    && tx != [] && AllReadable(read, tx) && rx != [] && AllReadable(read, rx)
    && Acceptable(Arrivals(read, tx), late, Arrivals(read, rx), thr, target)
  }

  /**
   * From any two captures to the verdict: the test passes if and only if neither is empty, all packets can be read and
   * the streams they give are acceptable.
   */
  lemma VerdictExact(s0: State, read: Reader, target: uint32, late: uint32, thr: int, tx: seq<Packet>, rx: seq<Packet>)
    requires s0.cap == NOTHING_CAPTURED && s0.stats == NO_GROUPS && s0.curGroupSize == 0
    requires target < TWO31 && |tx| < TWO32 && |rx| < TWO31 && OrderedCaptures(read, tx, rx)
    ensures TestPasses(s0, read, target, late, thr, tx, rx) <==> GoodCaptures(read, late, thr, target, tx, rx)
  {
    UnreadableFails(s0.cap, read, late, tx);
    var start := s0.(cap := TxRun(s0.cap, read, late, tx).(nPkts := 0));
    ReceiveFails(start, read, CounterOf(target), thr, rx);
    if tx != [] && AllReadable(read, tx) && rx != [] && AllReadable(read, rx) {
      ArrivalsAreRead(read, tx);
      ArrivalsAreRead(read, rx);
      ReadableVerdict(s0, read, target, late, thr, tx, Arrivals(read, tx), rx, Arrivals(read, rx));
    }
  }

  /**
   * The test from its parameters and the two captures to the verdict. A transmitted packet is late after more than five
   * send delays, and groups are separated by more than 100 microseconds. Captures with ascending numbers pass exactly
   * when they are not empty, can be read and the groups without a late packet are within the limits.
   */
  method CheckCaptures(host: PacketId.HostOrder, sendDelay: uint32, coalesceFrames: uint32, tx: seq<Packet>,
                       rx: seq<Packet>) returns (v: Verdict)
    requires |tx| < TWO32 && |rx| < TWO31 && coalesceFrames < TWO31 && OrderedCaptures(ReaderOf(host), tx, rx)
    ensures v == Pass <==> GoodCaptures(ReaderOf(host), Wrap(5 * sendDelay), 100, coalesceFrames, tx, rx)
  {
    FiveDelays(sendDelay);
    var args := new TestCbArgs(host, sendDelay, coalesceFrames);
    ghost var s0 := args.Value();
    v := args.RunTest(tx, rx);
    VerdictExact(s0, ReaderOf(host), coalesceFrames, LateThreshold(sendDelay), MIN_GROUP_DELAY, tx, rx);
  }
}
