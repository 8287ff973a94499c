/** The checker of TCP packet sizes against the MTU: net-drv-ts/basic/mtu_tcp.c. */
module MtuTcp {
  import opened Common
  import opened SeqNum
  import opened Segments

  /** A sequence number, or -1 when there is none. */
  type MaybeSeqn = x: int | -1 <= x < TWO32

  /** The fields of `cb_args` as one value. */
  datatype State = State(
    maxPldSize: int, pktsNum: int, firstSmall: MaybeSeqn, lastSeqn: uint32, tooBig: bool, failed: bool)

  function Measure(s: State, seg: Seg): State {
    var last := if s.pktsNum == 1 || Compare(s.lastSeqn, seg.seqn) < 0 then seg.seqn else s.lastSeqn;
    var len := ToInt32(seg.len);
    var small := len < s.maxPldSize && (s.firstSmall < 0 || Compare(seg.seqn, s.firstSmall) < 0);
    s.(lastSeqn := last,
       firstSmall := if small then seg.seqn else s.firstSmall,
       tooBig := s.tooBig || len > s.maxPldSize)
  }

  function Step(s: State, p: Packet): State {
    var s := s.(firstSmall := if s.pktsNum == 0 then -1 else s.firstSmall, pktsNum := s.pktsNum + 1);
    if p.Data? then Measure(s, p.seg) else s.(failed := true)
  }

  function Run(s: State, ps: seq<Packet>): State {
    if ps == [] then s else Step(Run(s, ps[..|ps| - 1]), ps[|ps| - 1])
  }

  predicate Passes(s: State) {
    !s.failed && s.pktsNum != 0 && !s.tooBig && (s.firstSmall < 0 || s.firstSmall == s.lastSeqn)
  }

  datatype Verdict = Pass | CaptureFailed | NothingCaptured | TooBigPacket | SmallPacketNotLast

  /** Arguments of the CSAP callback. */
  class CbArgs {
    const maxPldSize: int
    var pktsNum: int
    var firstSmallPktSeqn: MaybeSeqn
    var lastSeqn: uint32
    var tooBigPkt: bool
    var failed: bool

    ghost function Value(): State
      reads this
    {
      State(maxPldSize, pktsNum, firstSmallPktSeqn, lastSeqn, tooBigPkt, failed)
    }

    /** The structure is zeroed before the send loop. */
    constructor (maxPldSize: int)
      ensures Value() == State(maxPldSize, 0, 0, 0, false, false)
    {
      this.maxPldSize := maxPldSize;
      pktsNum, firstSmallPktSeqn, lastSeqn, tooBigPkt, failed := 0, 0, 0, false, false;
    }

    method ProcessTcp(pkt: Packet)
      modifies this
      ensures Value() == Step(old(Value()), pkt)
    {
      if pktsNum == 0 {
        firstSmallPktSeqn := -1;
      }
      pktsNum := pktsNum + 1;
      if !pkt.Data? {
        failed := true;
        return;
      }
      var seqn, pldLen := pkt.seg.seqn, ToInt32(pkt.seg.len);
      if pktsNum == 1 || Compare(lastSeqn, seqn) < 0 {
        lastSeqn := seqn;
      }
      if pldLen < maxPldSize {
        if firstSmallPktSeqn < 0 || Compare(seqn, firstSmallPktSeqn) < 0 {
          firstSmallPktSeqn := seqn;
        }
      } else if pldLen > maxPldSize {
        tooBigPkt := true;
      }
    }

    /** One pass of the send loop: only the packet counter is reset before the capture is examined. */
    method CheckIteration(pkts: seq<Packet>) returns (v: Verdict)
      modifies this
      ensures Value() == Run(old(Value()).(pktsNum := 0), pkts)
      ensures v == Pass <==> Passes(Value())
      ensures v == CaptureFailed <==> failed
      ensures v == NothingCaptured <==> !failed && pktsNum == 0
      ensures v == TooBigPacket <==> !failed && pktsNum != 0 && tooBigPkt
    {
      pktsNum := 0;
      ghost var start := Value();
      for i := 0 to |pkts|
        invariant Value() == Run(start, pkts[..i])
      {
        ProcessTcp(pkts[i]);
        assert pkts[..i + 1][..i] == pkts[..i];
      }
      assert pkts[..|pkts|] == pkts;
      if failed { return CaptureFailed; }
      if pktsNum == 0 { return NothingCaptured; }
      if tooBigPkt { return TooBigPacket; }
      if firstSmallPktSeqn >= 0 && firstSmallPktSeqn != lastSeqn { return SmallPacketNotLast; }
      return Pass;
    }
  }

  // ---------------------------------------------------------------- what one iteration accepts

  ghost predicate IsLast(ls: seq<Span>, last: int) {
    (exists l :: l in ls && l.start == last) && forall l :: l in ls ==> l.start <= last
  }

  ghost predicate IsFirstSmall(ls: seq<Span>, max: int, first: Option<int>) {
    match first
    case None => forall l :: l in ls ==> l.len >= max
    case Some(f) =>
      (exists l :: l in ls && l.len < max && l.start == f) && forall l :: l in ls && l.len < max ==> f <= l.start
  }

  ghost predicate HasBig(ls: seq<Span>, max: int) {
    exists l :: l in ls && l.len > max
  }

  function SeqnOf(x: Option<int>): MaybeSeqn {
    if x.None? then -1 else Wrap(x.value)
  }

  function UpdateFirst(first: Option<int>, l: Span, max: int): Option<int> {
    if l.len < max && (first.None? || l.start < first.value) then Some(l.start) else first
  }

  lemma MembersExtend(ls: seq<Span>, l: Span, last: int, first: Option<int>, max: int)
    requires IsLast(ls, last) && IsFirstSmall(ls, max, first)
    ensures IsLast(ls + [l], if l.start > last then l.start else last)
    ensures IsFirstSmall(ls + [l], max, UpdateFirst(first, l, max))
    ensures HasBig(ls + [l], max) <==> HasBig(ls, max) || l.len > max
  {
    var ms := ls + [l];
    assert l in ms;
    assert forall m :: m in ls ==> m in ms;
    assert forall m :: m in ms ==> m in ls || m == l;
  }

  lemma StepLifted(s: State, l: Span, last: int, first: Option<int>, lo: int)
    requires lo <= last < lo + TWO31 && (first.Some? ==> lo <= first.value < lo + TWO31)
    requires lo <= l.start && l.start + l.len < lo + TWO31
    requires s.pktsNum > 0 && s.lastSeqn == Wrap(last) && s.firstSmall == SeqnOf(first)
    ensures var t := Step(s, Data(Wire(l)));
      && t.lastSeqn == Wrap(if l.start > last then l.start else last)
      && t.firstSmall == SeqnOf(UpdateFirst(first, l, s.maxPldSize))
      && t.tooBig == (s.tooBig || l.len > s.maxPldSize)
      && t.failed == s.failed && t.pktsNum == s.pktsNum + 1 && t.maxPldSize == s.maxPldSize
  {
    assert Compare(s.lastSeqn, Wrap(l.start)) < 0 <==> last < l.start by { CompareLifted(last, l.start); }
    if first.Some? {
      assert Compare(Wrap(l.start), s.firstSmall) < 0 <==> l.start < first.value by {
        CompareLifted(l.start, first.value);
      }
    }
  }

  lemma FirstLifted(s: State, l: Span)
    requires s.pktsNum == 0 && l.len < TWO31
    ensures var t := Step(s, Data(Wire(l)));
      t == s.(lastSeqn := Wrap(l.start), firstSmall := SeqnOf(UpdateFirst(None, l, s.maxPldSize)), pktsNum := 1,
              tooBig := s.tooBig || l.len > s.maxPldSize)
    ensures IsLast([l], l.start) && IsFirstSmall([l], s.maxPldSize, UpdateFirst(None, l, s.maxPldSize))
    ensures HasBig([l], s.maxPldSize) <==> l.len > s.maxPldSize
  {
    assert l in [l];
  }

  lemma RunAppend(s0: State, ls: seq<Span>, l: Span)
    ensures Run(s0, Packets(ls + [l])) == Step(Run(s0, Packets(ls)), Data(Wire(l)))
  {
    assert Packets(ls + [l])[..|ls|] == Packets(ls);
  }

  lemma {:induction false} Tracked(s0: State, ls: seq<Span>, lo: int) returns (last: int, first: Option<int>)
    requires s0.pktsNum == 0 && ls != [] && InWindow(ls, lo)
    ensures IsLast(ls, last) && IsFirstSmall(ls, s0.maxPldSize, first)
    ensures lo <= last < lo + TWO31 && (first.Some? ==> lo <= first.value < lo + TWO31)
    ensures var s := Run(s0, Packets(ls));
      && s.pktsNum == |ls| && s.lastSeqn == Wrap(last) && s.firstSmall == SeqnOf(first)
      && s.failed == s0.failed && s.maxPldSize == s0.maxPldSize
      && (s.tooBig <==> s0.tooBig || HasBig(ls, s0.maxPldSize))
  {
    var init, l := ls[..|ls| - 1], ls[|ls| - 1];
    assert ls == init + [l];
    assert l in ls;
    RunAppend(s0, init, l);
    if init == [] {
      assert ls == [l];
      FirstLifted(s0, l);
      last, first := l.start, UpdateFirst(None, l, s0.maxPldSize);
    } else {
      last, first := Tracked(s0, init, lo);
      MembersExtend(init, l, last, first, s0.maxPldSize);
      StepLifted(Run(s0, Packets(init)), l, last, first, lo);
      last, first := if l.start > last then l.start else last, UpdateFirst(first, l, s0.maxPldSize);
    }
  }

  /** No packet exceeds the maximum payload, and every packet with a later one in the stream carries exactly it. */
  ghost predicate FullExceptLast(ls: seq<Span>, max: int) {
    && (forall l :: l in ls ==> l.len <= max)
    && (forall l, m :: l in ls && m in ls && l.start < m.start ==> l.len == max)
  }

  /**
   * The verdict is exact for captures inside a window below 2^31, in any order, whatever values earlier iterations
   * left in the structure.
   */
  lemma VerdictExact(s0: State, ls: seq<Span>, lo: int)
    requires !s0.failed && !s0.tooBig && InWindow(ls, lo)
    ensures Passes(Run(s0.(pktsNum := 0), Packets(ls))) <==> ls != [] && FullExceptLast(ls, s0.maxPldSize)
  {
    if ls != [] {
      var max := s0.maxPldSize;
      var last, first := Tracked(s0.(pktsNum := 0), ls, lo);
      var k :| k in ls && k.start == last;
      if first.Some? {
        WrapInjective(first.value, last);
        var f :| f in ls && f.len < max && f.start == first.value;
        if FullExceptLast(ls, max) {
          assert !(f.start < k.start);
        }
      }
    }
  }

  /** A packet that cannot be read makes the iteration fail, and all later ones. */
  lemma {:induction false} UnreadableFails(s0: State, ps: seq<Packet>)
    ensures Run(s0, ps).failed <==> s0.failed || exists i :: 0 <= i < |ps| && !ps[i].Data?
  {
    if ps != [] {
      var n := |ps| - 1;
      UnreadableFails(s0, ps[..n]);
      assert forall i :: 0 <= i < n ==> ps[..n][i] == ps[i];
    }
  }

  lemma VerdictOrderIndependent(s0: State, ls: seq<Span>, ms: seq<Span>, lo: int)
    requires !s0.failed && !s0.tooBig && InWindow(ls, lo) && multiset(ls) == multiset(ms)
    ensures Passes(Run(s0.(pktsNum := 0), Packets(ls))) == Passes(Run(s0.(pktsNum := 0), Packets(ms)))
  {
    SameMembers(ls, ms);
    VerdictExact(s0, ls, lo);
    VerdictExact(s0, ms, lo);
    assert FullExceptLast(ls, s0.maxPldSize) <==> FullExceptLast(ms, s0.maxPldSize);
  }

  lemma SegmentationFull(l: Span, max: uint32)
    requires 0 < max && 0 < l.len < TWO31
    ensures InWindow(SplitSpan(l, max), l.start) && FullExceptLast(SplitSpan(l, max), max)
  {
    var ms := SplitSpan(l, max);
    SplitSpanTiles(l, max);
    TilesOrdered(ms, l.start, l.start + l.len);
    forall k, m | k in ms && m in ms && k.start < m.start
      ensures k.len == max
    {
      var i :| 0 <= i < |ms| && ms[i] == k;
      var j :| 0 <= j < |ms| && ms[j] == m;
      assert i < j;
    }
  }

  /** Any reordering of the maximal segmentation of any send of at least one byte passes. */
  lemma FullSegmentationPasses(s0: State, a: int, sent: uint32, ls: seq<Span>)
    requires !s0.failed && !s0.tooBig && 0 < s0.maxPldSize < TWO31 && 0 < sent < TWO31
    requires multiset(ls) == multiset(SplitSpan(Span(a, sent), s0.maxPldSize))
    ensures Passes(Run(s0.(pktsNum := 0), Packets(ls)))
  {
    var ms := SplitSpan(Span(a, sent), s0.maxPldSize);
    SegmentationFull(Span(a, sent), s0.maxPldSize);
    VerdictExact(s0, ms, a);
    VerdictOrderIndependent(s0, ms, ls, a);
  }

  /**
   * For any capture at all, the verdict of an iteration is the same whatever packet counter, last sequence number and
   * small-packet sequence number earlier iterations left.
   */
  lemma {:induction false} LeftoverIrrelevant(s: State, t: State, ps: seq<Packet>)
    requires s.maxPldSize == t.maxPldSize && s.failed == t.failed && s.tooBig == t.tooBig
    ensures var s', t' := Run(s.(pktsNum := 0), ps), Run(t.(pktsNum := 0), ps);
      && s'.pktsNum == t'.pktsNum == |ps| && s'.failed == t'.failed && s'.tooBig == t'.tooBig
      && s'.maxPldSize == t'.maxPldSize
      && (ps != [] ==> s'.firstSmall == t'.firstSmall && (s'.failed || s'.lastSeqn == t'.lastSeqn))
      && Passes(s') == Passes(t')
  {
    if ps != [] {
      LeftoverIrrelevant(s, t, ps[..|ps| - 1]);
    }
  }
}
