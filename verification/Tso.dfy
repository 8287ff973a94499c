/** The checker of TCP segmentation offload: net-drv-ts/offload/tso.c. */
module Tso {
  import opened Common
  import opened SeqNum
  import opened Segments

  /** The range of sequence numbers covered so far. */
  datatype Range = Range(firstSeqn: uint32, lastSeqn: uint32, totalLen: uint32)

  /** The fields of `pkts_info` as one value. */
  datatype Stats = Stats(
    mss: uint32, pktsNum: uint32, range: Range, largeDetected: bool, failed: bool, segs: seq<Seg>)

  function InitStats(mss: uint32): Stats {
    Stats(mss, 0, Range(0, 0, 0), false, false, [])
  }

  /** Bookkeeping of the covered range for every packet but the first. */
  function Extend(s: Range, seg: Seg): Range {
    var last := if Compare(seg.seqn, s.lastSeqn) > 0 then seg.seqn else s.lastSeqn;
    var before := Compare(seg.seqn, s.firstSeqn) < 0;
    var first := if before then seg.seqn else s.firstSeqn;
    var total := if before then Add32(s.totalLen, Sub32(s.firstSeqn, seg.seqn)) else s.totalLen;
    var reach := Add32(Sub32(seg.seqn, first), seg.len);
    Range(first, last, if reach > total then reach else total)
  }

  function Step(s: Stats, p: Packet): Stats {
    var s := s.(pktsNum := Add32(s.pktsNum, 1));
    if !p.Data? then s.(failed := true)
    else
      s.(range := if s.pktsNum == 1 then Range(p.seg.seqn, p.seg.seqn, p.seg.len) else Extend(s.range, p.seg),
         segs := s.segs + [p.seg],
         largeDetected := s.largeDetected || p.seg.len > s.mss)
  }

  function Run(s: Stats, ps: seq<Packet>): Stats {
    if ps == [] then s else Step(Run(s, ps[..|ps| - 1]), ps[|ps| - 1])
  }

  /** Data passed to and from the CSAP callback. */
  class PktsInfo {
    const mss: uint32
    var pktsNum: uint32
    var firstSeqn: uint32
    var lastSeqn: uint32
    var totalLen: uint32
    var largePktsDetected: bool
    var failed: bool
    var segs: seq<Seg>

    ghost function Value(): Stats
      reads this
    {
      Stats(mss, pktsNum, Range(firstSeqn, lastSeqn, totalLen), largePktsDetected, failed, segs)
    }

    constructor (mss: uint32)
      ensures Value() == InitStats(mss)
    {
      this.mss := mss;
      pktsNum, firstSeqn, lastSeqn, totalLen := 0, 0, 0, 0;
      largePktsDetected, failed, segs := false, false, [];
    }

    method ProcessPkts(pkt: Packet)
      modifies this
      ensures Value() == Step(old(Value()), pkt)
    {
      pktsNum := Add32(pktsNum, 1);
      if !pkt.Data? {
        failed := true;
        return;
      }
      var seqn, pldLen := pkt.seg.seqn, pkt.seg.len;
      if pktsNum == 1 {
        firstSeqn := seqn;
        lastSeqn := seqn;
        totalLen := pldLen;
      } else {
        if Compare(seqn, lastSeqn) > 0 {
          lastSeqn := seqn;
        }
        if Compare(seqn, firstSeqn) < 0 {
          totalLen := Add32(totalLen, Sub32(firstSeqn, seqn));
          firstSeqn := seqn;
        }
        var total := Add32(Sub32(seqn, firstSeqn), pldLen);
        if total > totalLen {
          totalLen := total;
        }
      }
      segs := segs + [Seg(seqn, pldLen)];
      if pldLen > mss {
        largePktsDetected := true;
      }
    }

    /** The CSAP hands the captured packets to the callback one by one. */
    method Capture(pkts: seq<Packet>)
      modifies this
      ensures Value() == Run(old(Value()), pkts)
    {
      for i := 0 to |pkts|
        invariant Value() == Run(old(Value()), pkts[..i])
      {
        ProcessPkts(pkts[i]);
        assert pkts[..i + 1][..i] == pkts[..i];
      }
      assert pkts[..|pkts|] == pkts;
    }
  }

  // ---------------------------------------------------------------- the checks

  /** The capture a verdict is about: that of the sender (IUT) or that of the receiver (Tester). */
  datatype Host = Iut | Tester

  datatype Verdict =
    | Pass | CaptureFailed(host: Host) | NothingCaptured(host: Host) | WrongByteCount(host: Host)
    | TsoOnWithoutLarge | TsoOffWithLarge | LargeOnTester | SplitMismatch

  method CheckCsapGen(info: PktsInfo, sent: uint32, host: Host) returns (v: Verdict)
    ensures v == Pass <==> !info.failed && info.pktsNum != 0 && info.totalLen == sent
    ensures v == CaptureFailed(host) <==> info.failed
    ensures v == NothingCaptured(host) <==> !info.failed && info.pktsNum == 0
    ensures v == WrongByteCount(host) <==> !info.failed && info.pktsNum != 0 && info.totalLen != sent
  {
    if info.failed { return CaptureFailed(host); }
    if info.pktsNum == 0 { return NothingCaptured(host); }
    if info.totalLen != sent { return WrongByteCount(host); }
    return Pass;
  }

  /** The offset after one more turn of the splitting loop, for any MSS. */
  function NextOffset(off: uint32, len: uint32, mss: uint32): (r: uint32)
    requires off <= len
    ensures off <= r <= len
  {
    off + Min(len - off, mss)
  }

  /** The offset after n turns of the loop, whether or not it would go on so long. */
  function OffsetAfter(n: nat, len: uint32, mss: uint32): (r: uint32)
    ensures r <= len
  {
    if n == 0 then 0 else NextOffset(OffsetAfter(n - 1, len, mss), len, mss)
  }

  /** The loop leaves a segment after exactly n turns. */
  predicate LeavesAfter(n: nat, len: uint32, mss: uint32) {
    OffsetAfter(n, len, mss) == len && forall k: nat :: k < n ==> OffsetAfter(k, len, mss) < len
  }

  /** `turns` records how many turns of the inner loop each segment took. */
  method SplitPktsByMss(txSegs: seq<Seg>, mss: uint32) returns (expected: seq<Seg>, ghost turns: seq<nat>)
    requires mss > 0
    ensures expected == SplitAll(txSegs, mss)
    ensures |turns| == |txSegs| && forall i :: 0 <= i < |txSegs| ==> LeavesAfter(turns[i], txSegs[i].len, mss)
  {
    expected, turns := [], [];
    for i := 0 to |txSegs|
      invariant expected == SplitAll(txSegs[..i], mss)
      invariant |turns| == i && forall j :: 0 <= j < i ==> LeavesAfter(turns[j], txSegs[j].len, mss)
    {
      var info := txSegs[i];
      var chunks, n := SplitPkt(info, mss);
      expected, turns := expected + chunks, turns + [n];
      assert txSegs[..i + 1][..i] == txSegs[..i];
    }
    assert txSegs[..|txSegs|] == txSegs;
  }

  /** What is left to split of a segment. */
  function Rest(s: Seg, off: uint32): Seg
    requires off <= s.len
  {
    Seg(Add32(s.seqn, off), s.len - off)
  }

  lemma SplitTurn(chunks: seq<Seg>, s: Seg, off: uint32, mss: uint32)
    requires off < s.len && mss > 0
    ensures var len := Min(mss, s.len - off);
      chunks + [Seg(Add32(s.seqn, off), len)] + Split(Rest(s, off + len), mss) == chunks + Split(Rest(s, off), mss)
  {
    var len := Min(mss, s.len - off);
    assert Split(Rest(s, off), mss) == [Seg(Add32(s.seqn, off), len)] + Split(Rest(s, off + len), mss);
  }

  /** The inner loop: the chunks of one segment. */
  method SplitPkt(info: Seg, mss: uint32) returns (chunks: seq<Seg>, ghost n: nat)
    requires mss > 0
    ensures chunks == Split(info, mss) && LeavesAfter(n, info.len, mss)
  {
    chunks, n := [], 0;
    var off: uint32 := 0;
    while off < info.len
      invariant off == OffsetAfter(n, info.len, mss)
      invariant forall k: nat :: k < n ==> OffsetAfter(k, info.len, mss) < info.len
      invariant chunks + Split(Rest(info, off), mss) == Split(info, mss)
      decreases info.len - off
    {
      SplitTurn(chunks, info, off, mss);
      var curLen: uint32 := info.len - off;
      if curLen > mss {
        curLen := mss;
      }
      chunks := chunks + [Seg(Add32(info.seqn, off), curLen)];
      off := off + curLen;
      n := n + 1;
    }
  }

  lemma {:induction false} OffsetGrows(n: nat, len: uint32, mss: uint32)
    ensures mss > 0 ==> OffsetAfter(n, len, mss) >= Min(n, len)
    ensures mss == 0 ==> OffsetAfter(n, len, mss) == 0
  {
    if n > 0 { OffsetGrows(n - 1, len, mss); }
  }

  lemma FirstReached(n: nat, len: uint32, mss: uint32) returns (m: nat)
    requires OffsetAfter(n, len, mss) == len
    ensures LeavesAfter(m, len, mss)
  {
    if k: nat :| k < n && OffsetAfter(k, len, mss) == len {
      m := FirstReached(k, len, mss);
    } else {
      m := n;
    }
  }

  /** The loop leaves a segment at all if and only if the MSS is not zero or the segment is empty. */
  lemma SplitLoopEnds(len: uint32, mss: uint32)
    ensures (exists n: nat :: LeavesAfter(n, len, mss)) <==> mss > 0 || len == 0
  {
    if n: nat :| LeavesAfter(n, len, mss) {
      OffsetGrows(n, len, mss);
    }
    if mss > 0 || len == 0 {
      OffsetGrows(len, len, mss);
      var n := FirstReached(len, len, mss);
    }
  }

  method CheckRxPkts(rxSegs: seq<Seg>, expected: seq<Seg>) returns (ok: bool)
    ensures ok <==> rxSegs == expected
  {
    ok := |rxSegs| == |expected|;
    var checkNum := Min(|expected|, |rxSegs|);
    var i := 0;
    while i < checkNum
      invariant 0 <= i <= checkNum
      invariant ok <==> |rxSegs| == |expected| && rxSegs[..i] == expected[..i]
    {
      var exp, got := expected[i], rxSegs[i];
      if Compare(got.seqn, exp.seqn) != 0 || got.len != exp.len {
        ok := false;
      }
      assert Compare(got.seqn, exp.seqn) == 0 <==> got.seqn == exp.seqn;
      assert rxSegs[..i + 1] == rxSegs[..i] + [got] && expected[..i + 1] == expected[..i] + [exp];
      i := i + 1;
    }
    if |rxSegs| == |expected| {
      assert rxSegs[..i] == rxSegs && expected[..i] == expected;
    }
  }

  predicate GenericOk(s: Stats, sent: uint32) {
    !s.failed && s.pktsNum != 0 && s.range.totalLen == sent
  }

  /** Everything the checker demands of the two captures. */
  predicate Accepts(tx: seq<Packet>, rx: seq<Packet>, sent: uint32, mss: uint32, tsoOn: bool)
    requires mss > 0
  {
    StatsMatch(Run(InitStats(mss), tx), Run(InitStats(mss), rx), sent, mss, tsoOn)
  }

  predicate StatsMatch(t: Stats, r: Stats, sent: uint32, mss: uint32, tsoOn: bool)
    requires mss > 0
  {
    && GenericOk(t, sent) && t.largeDetected == tsoOn
    && GenericOk(r, sent) && !r.largeDetected && r.segs == SplitAll(t.segs, mss)
  }

  /** The sender's capture is complete and has large packets exactly when TSO is on. */
  predicate TxOk(t: Stats, sent: uint32, tsoOn: bool) {
    GenericOk(t, sent) && t.largeDetected == tsoOn
  }

  /** When the sender's capture decides, and how. */
  predicate TxVerdict(v: Verdict, t: Stats, sent: uint32, tsoOn: bool) {
    match v
    case CaptureFailed(Iut) => t.failed
    case NothingCaptured(Iut) => !t.failed && t.pktsNum == 0
    case WrongByteCount(Iut) => !t.failed && t.pktsNum != 0 && t.range.totalLen != sent
    case TsoOnWithoutLarge => GenericOk(t, sent) && tsoOn && !t.largeDetected
    case TsoOffWithLarge => GenericOk(t, sent) && !tsoOn && t.largeDetected
    case _ => false
  }

  /** What the receiver's capture comes to, when these segments are expected. */
  predicate RxVerdict(v: Verdict, r: Stats, sent: uint32, expected: seq<Seg>) {
    match v
    case CaptureFailed(Tester) => r.failed
    case NothingCaptured(Tester) => !r.failed && r.pktsNum == 0
    case WrongByteCount(Tester) => !r.failed && r.pktsNum != 0 && r.range.totalLen != sent
    case LargeOnTester => GenericOk(r, sent) && r.largeDetected
    case SplitMismatch => GenericOk(r, sent) && !r.largeDetected && r.segs != expected
    case Pass => GenericOk(r, sent) && !r.largeDetected && r.segs == expected
    case _ => false
  }

  /** When each verdict is given. */
  predicate VerdictOf(v: Verdict, t: Stats, r: Stats, sent: uint32, mss: uint32, tsoOn: bool)
    requires mss > 0
  {
    if TxOk(t, sent, tsoOn) then RxVerdict(v, r, sent, SplitAll(t.segs, mss)) else TxVerdict(v, t, sent, tsoOn)
  }

  /** So the verdict is determined: two that fit are the same. */
  lemma VerdictUnique(v: Verdict, v': Verdict, t: Stats, r: Stats, sent: uint32, mss: uint32, tsoOn: bool)
    requires mss > 0 && VerdictOf(v, t, r, sent, mss, tsoOn) && VerdictOf(v', t, r, sent, mss, tsoOn)
    ensures v == v'
  {
  }

  method CheckTx(info: PktsInfo, sent: uint32, tsoOn: bool) returns (v: Verdict)
    ensures v == Pass <==> TxOk(info.Value(), sent, tsoOn)
    ensures v != Pass ==> TxVerdict(v, info.Value(), sent, tsoOn)
  {
    v := CheckCsapGen(info, sent, Iut);
    if v != Pass { return; }
    if tsoOn && !info.largePktsDetected { return TsoOnWithoutLarge; }
    if !tsoOn && info.largePktsDetected { return TsoOffWithLarge; }
  }

  method CheckRx(info: PktsInfo, sent: uint32, txSegs: seq<Seg>, mss: uint32) returns (v: Verdict)
    requires mss > 0
    ensures RxVerdict(v, info.Value(), sent, SplitAll(txSegs, mss))
  {
    v := CheckCsapGen(info, sent, Tester);
    if v != Pass { return; }
    if info.largePktsDetected { return LargeOnTester; }
    var expected, _ := SplitPktsByMss(txSegs, mss);
    var same := CheckRxPkts(info.segs, expected);
    v := if same then Pass else SplitMismatch;
  }

  method CheckCapturedPkts(tx: seq<Packet>, rx: seq<Packet>, sent: uint32, mss: uint32, tsoOn: bool)
    returns (v: Verdict)
    requires mss > 0
    ensures VerdictOf(v, Run(InitStats(mss), tx), Run(InitStats(mss), rx), sent, mss, tsoOn)
    ensures v == Pass <==> Accepts(tx, rx, sent, mss, tsoOn)
  {
    var txStats := new PktsInfo(mss);
    txStats.Capture(tx);
    v := CheckTx(txStats, sent, tsoOn);
    if v != Pass { return; }
    var txSegs := txStats.segs;
    var rxStats := new PktsInfo(mss);
    rxStats.Capture(rx);
    v := CheckRx(rxStats, sent, txSegs, mss);
  }

  // ---------------------------------------------------------------- span tracking

  /** The smallest start, the greatest start and the greatest end of a set of spans. */
  ghost predicate IsExtent(ls: seq<Span>, first: int, last: int, end: int) {
    && (exists l :: l in ls && l.start == first) && (forall l :: l in ls ==> first <= l.start)
    && (exists l :: l in ls && l.start == last) && (forall l :: l in ls ==> l.start <= last)
    && (exists l :: l in ls && l.start + l.len == end) && (forall l :: l in ls ==> l.start + l.len <= end)
  }

  ghost predicate HasLarge(ls: seq<Span>, mss: uint32) {
    exists l :: l in ls && l.len > mss
  }

  lemma ExtentExtend(ls: seq<Span>, l: Span, first: int, last: int, end: int)
    requires IsExtent(ls, first, last, end)
    ensures IsExtent(ls + [l], Min(first, l.start), Max(last, l.start), Max(end, l.start + l.len))
  {
    var ms := ls + [l];
    assert l in ms;
    assert forall m :: m in ls ==> m in ms;
    assert forall m :: m in ms ==> m in ls || m == l;
  }

  function Max(a: int, b: int): int {
    if a >= b then a else b
  }

  lemma ExtendLifted(s: Range, l: Span, first: int, last: int, end: int, lo: int)
    requires lo <= first <= last <= end < lo + TWO31
    requires lo <= l.start && l.start + l.len < lo + TWO31
    requires s.firstSeqn == Wrap(first) && s.lastSeqn == Wrap(last) && s.totalLen == end - first
    ensures var t := Extend(s, Wire(l));
      && t.firstSeqn == Wrap(Min(first, l.start)) && t.lastSeqn == Wrap(Max(last, l.start))
      && t.totalLen == Max(end, l.start + l.len) - Min(first, l.start)
  {
    var q := Wrap(l.start);
    assert Compare(q, s.lastSeqn) > 0 <==> l.start > last by { CompareLifted(l.start, last); }
    assert Compare(q, s.firstSeqn) < 0 <==> l.start < first by { CompareLifted(l.start, first); }
    if l.start < first {
      assert Sub32(s.firstSeqn, q) == first - l.start by { WrapDistance(first, l.start); }
    } else {
      assert Sub32(q, s.firstSeqn) == l.start - first by { WrapDistance(l.start, first); }
    }
  }

  lemma SpanStep(s: Stats, l: Span, first: int, last: int, end: int, lo: int)
    requires lo <= first <= last <= end < lo + TWO31
    requires lo <= l.start && l.start + l.len < lo + TWO31
    requires s.range == Range(Wrap(first), Wrap(last), end - first)
    requires 0 < s.pktsNum < TWO32 - 1
    ensures var t := Step(s, Data(Wire(l))).range;
      && t.firstSeqn == Wrap(Min(first, l.start)) && t.lastSeqn == Wrap(Max(last, l.start))
      && t.totalLen == Max(end, l.start + l.len) - Min(first, l.start)
  {
    ExtendLifted(s.range, l, first, last, end, lo);
  }

  lemma RunSnoc(s0: Stats, ps: seq<Packet>, p: Packet)
    ensures Run(s0, ps + [p]) == Step(Run(s0, ps), p)
  {
    assert (ps + [p])[..|ps|] == ps;
  }

  lemma RunAppend(s0: Stats, ls: seq<Span>, l: Span)
    ensures Run(s0, Packets(ls + [l])) == Step(Run(s0, Packets(ls)), Data(Wire(l)))
    ensures Wires(ls + [l]) == Wires(ls) + [Wire(l)]
  {
    assert Packets(ls + [l]) == Packets(ls) + [Data(Wire(l))];
    RunSnoc(s0, Packets(ls), Data(Wire(l)));
  }

  lemma LargeAppend(ls: seq<Span>, l: Span, mss: uint32)
    ensures HasLarge(ls + [l], mss) <==> HasLarge(ls, mss) || l.len > mss
  {
    assert l in ls + [l];
    assert forall m :: m in ls + [l] <==> m in ls || m == l;
  }

  lemma StepAccumulates(s: Stats, l: Span)
    requires s.pktsNum < TWO32 - 1
    ensures var t := Step(s, Data(Wire(l)));
      && t.pktsNum == s.pktsNum + 1 && t.failed == s.failed && t.mss == s.mss
      && t.segs == s.segs + [Wire(l)] && t.largeDetected == (s.largeDetected || l.len > s.mss)
  {
  }

  /** The fields that only accumulate. */
  lemma {:induction false} Accumulated(s0: Stats, ls: seq<Span>)
    requires s0.pktsNum == 0 && |ls| < TWO32
    ensures var s := Run(s0, Packets(ls));
      && s.pktsNum == |ls| && s.failed == s0.failed && s.mss == s0.mss
      && s.segs == s0.segs + Wires(ls)
      && (s.largeDetected <==> s0.largeDetected || HasLarge(ls, s0.mss))
  {
    if ls != [] {
      var init, l := ls[..|ls| - 1], ls[|ls| - 1];
      Accumulated(s0, init);
      assert ls == init + [l];
      RunAppend(s0, init, l);
      StepAccumulates(Run(s0, Packets(init)), l);
      LargeAppend(init, l, s0.mss);
    }
  }

  lemma {:induction false} SpanTracked(s0: Stats, ls: seq<Span>, lo: int) returns (first: int, last: int, end: int)
    requires s0.pktsNum == 0 && 0 < |ls| < TWO32 && InWindow(ls, lo)
    ensures IsExtent(ls, first, last, end)
    ensures lo <= first <= last <= end < lo + TWO31
    ensures Run(s0, Packets(ls)).range == Range(Wrap(first), Wrap(last), end - first)
  {
    var init, l := ls[..|ls| - 1], ls[|ls| - 1];
    assert ls == init + [l];
    assert l in ls;
    RunAppend(s0, init, l);
    if init == [] {
      first, last, end := l.start, l.start, l.start + l.len;
      assert ls == [l];
    } else {
      first, last, end := SpanTracked(s0, init, lo);
      assert 0 < Run(s0, Packets(init)).pktsNum < TWO32 - 1 by { Accumulated(s0, init); }
      SpanStep(Run(s0, Packets(init)), l, first, last, end, lo);
      ExtentExtend(init, l, first, last, end);
      first, last, end := Min(first, l.start), Max(last, l.start), Max(end, l.start + l.len);
    }
  }

  lemma ExtentUnique(ls: seq<Span>, first: int, last: int, end: int, first': int, last': int, end': int)
    requires IsExtent(ls, first, last, end) && IsExtent(ls, first', last', end')
    ensures first == first' && last == last' && end == end'
  {
  }

  /**
   * Span tracking refines (greatest end - smallest start): for packets captured in any order inside a window below
   * 2^31, wherever the 32-bit wrap falls.
   */
  lemma SpanRefined(mss: uint32, ls: seq<Span>, lo: int, first: int, last: int, end: int)
    requires |ls| < TWO32 && InWindow(ls, lo) && IsExtent(ls, first, last, end)
    ensures var s := Run(InitStats(mss), Packets(ls));
      && s.range == Range(Wrap(first), Wrap(last), end - first)
      && s.segs == Wires(ls) && !s.failed && s.pktsNum == |ls|
      && (s.largeDetected <==> HasLarge(ls, mss))
  {
    var first', last', end' := SpanTracked(InitStats(mss), ls, lo);
    ExtentUnique(ls, first, last, end, first', last', end');
    Accumulated(InitStats(mss), ls);
    assert [] + Wires(ls) == Wires(ls);
  }

  /** A packet that cannot be read makes the capture failed, and so the checks, whatever else was captured. */
  lemma {:induction false} UnreadableFails(s0: Stats, ps: seq<Packet>)
    ensures Run(s0, ps).failed <==> s0.failed || exists i :: 0 <= i < |ps| && !ps[i].Data?
  {
    if ps != [] {
      var n := |ps| - 1;
      UnreadableFails(s0, ps[..n]);
      assert forall i :: 0 <= i < n ==> ps[..n][i] == ps[i];
    }
  }

  /** The byte count compared with the number of bytes sent does not depend on the order of capture. */
  lemma SpanOrderIndependent(mss: uint32, ls: seq<Span>, ms: seq<Span>, lo: int)
    requires 0 < |ls| < TWO32 && InWindow(ls, lo) && multiset(ls) == multiset(ms)
    ensures var s, t := Run(InitStats(mss), Packets(ls)), Run(InitStats(mss), Packets(ms));
      s.range == t.range && s.largeDetected == t.largeDetected
  {
    SameMembers(ls, ms);
    var first, last, end := SpanTracked(InitStats(mss), ls, lo);
    assert IsExtent(ms, first, last, end);
    SpanRefined(mss, ls, lo, first, last, end);
    SpanRefined(mss, ms, lo, first, last, end);
  }

  // ---------------------------------------------------------------- end to end

  lemma TilesExtent(ls: seq<Span>, a: int, b: int)
    requires ls != [] && Tiles(ls, a, b)
    ensures IsExtent(ls, a, ls[|ls| - 1].start, b)
  {
    TilesOrdered(ls, a, b);
    assert ls[0] in ls && ls[|ls| - 1] in ls;
  }

  lemma TilesWindow(ls: seq<Span>, a: int, b: int)
    requires Tiles(ls, a, b) && b - a < TWO31
    ensures InWindow(ls, a)
  {
    TilesOrdered(ls, a, b);
  }

  /** What the checker sees of segments that tile the bytes [a, a + sent). */
  lemma TiledStats(mss: uint32, ls: seq<Span>, a: int, sent: uint32)
    requires 0 < |ls| < TWO32 && sent < TWO31 && Tiles(ls, a, a + sent)
    ensures var s := Run(InitStats(mss), Packets(ls));
      GenericOk(s, sent) && s.segs == Wires(ls) && (s.largeDetected <==> HasLarge(ls, mss))
  {
    TilesExtent(ls, a, a + sent);
    TilesWindow(ls, a, a + sent);
    SpanRefined(mss, ls, a, a, ls[|ls| - 1].start, a + sent);
  }

  lemma {:induction false} RunSegs(s: Stats, segs: seq<Seg>)
    ensures Run(s, Captured(segs)).segs == s.segs + segs
  {
    if segs != [] {
      var init := segs[..|segs| - 1];
      RunSegs(s, init);
      assert Captured(segs)[..|segs| - 1] == Captured(init);
      assert segs == init + [segs[|segs| - 1]];
    }
  }

  function Captured(segs: seq<Seg>): seq<Packet> {
    seq(|segs|, i requires 0 <= i < |segs| => Data(segs[i]))
  }

  /**
   * For Tx segments tiling the bytes sent, the verdict is exact: it passes if and only if the Rx capture is the MSS
   * split of the Tx capture and large packets were seen exactly when TSO is on.
   */
  lemma VerdictExact(tx: seq<Span>, rx: seq<Seg>, a: int, sent: uint32, mss: uint32, tsoOn: bool)
    requires mss > 0 && 0 < sent < TWO31 && |tx| < TWO32 && Tiles(tx, a, a + sent)
    ensures Accepts(Packets(tx), Captured(rx), sent, mss, tsoOn)
      <==> rx == SplitAll(Wires(tx), mss) && (tsoOn <==> HasLarge(tx, mss))
  {
    assert tx != [];
    TiledStats(mss, tx, a, sent);
    RunSegs(InitStats(mss), rx);
    assert [] + rx == rx;
    if rx == SplitAll(Wires(tx), mss) {
      var ms := SplitAllTiles(tx, mss, a, a + sent);
      assert ms != [];
      assert Captured(rx) == Packets(ms);
      TiledLength(ms, a, a + sent);
      TiledStats(mss, ms, a, sent);
    }
  }

  /** Non-empty segments that tile n bytes are at most n. */
  lemma {:induction false} TiledLength(ls: seq<Span>, a: int, b: int)
    requires Tiles(ls, a, b) && forall l :: l in ls ==> l.len >= 1
    ensures |ls| <= b - a
  {
    if ls != [] {
      assert ls[|ls| - 1] in ls;
      TiledLength(ls[..|ls| - 1], a, ls[|ls| - 1].start);
    }
  }

  /**
   * End to end: when the checker passes and the Tx segments tile the bytes sent, the Rx segments are, in order, a
   * tiling of the same bytes by segments of 1 to mss bytes.
   */
  lemma PassMeansSegmented(tx: seq<Span>, rx: seq<Seg>, a: int, sent: uint32, mss: uint32, tsoOn: bool)
    returns (ms: seq<Span>)
    requires mss > 0 && 0 < sent < TWO31 && |tx| < TWO32 && Tiles(tx, a, a + sent)
    requires Accepts(Packets(tx), Captured(rx), sent, mss, tsoOn)
    ensures Wires(ms) == rx && Tiles(ms, a, a + sent)
    ensures forall m :: m in ms ==> 1 <= m.len <= mss
    ensures BytesOf(rx) == BytesOf(Wires(tx))
  {
    VerdictExact(tx, rx, a, sent, mss, tsoOn);
    ms := SplitAllTiles(tx, mss, a, a + sent);
    SplitAllBytes(Wires(tx), mss);
  }

  /**
   * The test says that all packets captured on the receiver but the last must be of MSS size. What passes has this
   * shape if and only if every transmitted segment but the last one with data is a multiple of the MSS long.
   */
  lemma FullSizeOnReceiver(tx: seq<Span>, rx: seq<Seg>, a: int, sent: uint32, mss: uint32, tsoOn: bool)
    requires mss > 0 && 0 < sent < TWO31 && |tx| < TWO32 && Tiles(tx, a, a + sent)
    requires Accepts(Packets(tx), Captured(rx), sent, mss, tsoOn)
    ensures FullButLast(rx, mss) <==>
      forall i :: 0 <= i < |tx| && i != LastWithData(Wires(tx)) ==> Divisible(tx[i].len, mss)
  {
    VerdictExact(tx, rx, a, sent, mss, tsoOn);
    FullButLastIff(Wires(tx), mss);
    assert forall i :: 0 <= i < |tx| ==> Wires(tx)[i].len == tx[i].len;
  }

  /** Two segments of 15 bytes over an MSS of 10 pass with a short packet in the middle. */
  lemma ShortPacketInTheMiddle()
    ensures var tx := [Span(0, 15), Span(15, 15)];
      var rx := [Seg(0, 10), Seg(10, 5), Seg(15, 10), Seg(25, 5)];
      Accepts(Packets(tx), Captured(rx), 30, 10, true) && !FullButLast(rx, 10)
  {
    var tx := [Span(0, 15), Span(15, 15)];
    var rx := [Seg(0, 10), Seg(10, 5), Seg(15, 10), Seg(25, 5)];
    assert tx[..1] == [Span(0, 15)] && tx[..1][..0] == [];
    assert Tiles(tx, 0, 30);
    assert tx[0].len > 10 && tx[0] in tx;
    var w := Wires(tx);
    assert w == [Seg(0, 15), Seg(15, 15)];
    assert w[..1] == [Seg(0, 15)] && w[..1][..0] == [];
    assert Split(Seg(0, 15), 10) == [Seg(0, 10)] + [Seg(10, 5)];
    assert Split(Seg(15, 15), 10) == [Seg(15, 10)] + [Seg(25, 5)];
    assert SplitAll(w[..1], 10) == SplitAll([], 10) + Split(Seg(0, 15), 10);
    assert SplitAll(w, 10) == rx;
    VerdictExact(tx, rx, 0, 30, 10, true);
    assert rx[1].len != 10;
  }
}
