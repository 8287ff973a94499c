/** The checker of IP packet sizes of UDP datagrams against the MTU: net-drv-ts/basic/mtu_udp.c. */
module MtuUdp {
  import opened Common

  const IP4_HDR_LEN: int := 20
  const IP6_HDR_LEN: int := 40
  const UDP_HDR_LEN: int := 8
  const IP6_FRAG_HDR_LEN: int := 8
  const IPPROTO_ICMPV6: int := 58

  /** A captured packet: the length field of its IP header, when it can be read, and the IPv6 next header. */
  datatype Packet = Unreadable | Ip(lengthField: int, nextHdr: int)

  /** The fields of `cb_args` as one value. */
  datatype State = State(
    ipv4: bool, maxPldSize: int, maxFragSize: int, pktsNum: int, firstSmall: int, tooBig: bool, failed: bool)

  /** ICMPv6 packets on the link are not part of the test traffic. */
  predicate Skipped(ipv4: bool, p: Packet) {
    p.Ip? && !ipv4 && p.nextHdr == IPPROTO_ICMPV6
  }

  /** Size of the IP packet: the IPv6 length field does not include the fixed header. */
  function PacketSize(ipv4: bool, p: Packet): int
    requires p.Ip?
  {
    if ipv4 then p.lengthField else p.lengthField + IP6_HDR_LEN
  }

  function Measure(s: State, size: int): State {
    if size < s.maxPldSize then
      if s.maxFragSize > 0 && size == s.maxFragSize then s
      else s.(firstSmall := if s.firstSmall < 0 then s.pktsNum else s.firstSmall)
    else
      s.(tooBig := s.tooBig || size > s.maxPldSize)
  }

  function Step(s: State, p: Packet): State {
    var s := if s.pktsNum == 0 then s.(firstSmall := -1) else s;
    if Skipped(s.ipv4, p) then s
    else
      var s := s.(pktsNum := s.pktsNum + 1);
      if p.Unreadable? then s.(failed := true) else Measure(s, PacketSize(s.ipv4, p))
  }

  function Run(s: State, ps: seq<Packet>): State {
    if ps == [] then s else Step(Run(s, ps[..|ps| - 1]), ps[|ps| - 1])
  }

  predicate Passes(s: State) {
    !s.failed && s.pktsNum != 0 && !s.tooBig && (s.firstSmall < 0 || s.firstSmall == s.pktsNum)
  }

  datatype Verdict = Pass | CaptureFailed | NothingCaptured | TooBigPacket | SmallPacketNotLast

  /** Arguments of the CSAP callback. */
  class CbArgs {
    const ipv4: bool
    const maxPldSize: int
    const maxFragSize: int
    var pktsNum: int
    var firstSmallPkt: int
    var tooBigPkt: bool
    var failed: bool

    ghost function Value(): State
      reads this
    {
      State(ipv4, maxPldSize, maxFragSize, pktsNum, firstSmallPkt, tooBigPkt, failed)
    }

    /** Set up before the send loop; an intermediate fragment size is set only when fragmentation is expected. */
    constructor (ipv4: bool, mtu: int, fragmented: bool)
      ensures Value() == State(ipv4, mtu, if fragmented then MaxFragSize(ipv4, mtu) else 0, 0, 0, false, false)
    {
      this.ipv4, maxPldSize := ipv4, mtu;
      maxFragSize := if fragmented then MaxFragSize(ipv4, mtu) else 0;
      pktsNum, firstSmallPkt, tooBigPkt, failed := 0, 0, false, false;
    }

    method ProcessEth(pkt: Packet)
      modifies this
      ensures Value() == Step(old(Value()), pkt)
    {
      if pktsNum == 0 {
        firstSmallPkt := -1;
      }
      pktsNum := pktsNum + 1;
      if pkt.Unreadable? {
        failed := true;
        return;
      }
      var pldLen := if ipv4 then pkt.lengthField else pkt.lengthField + IP6_HDR_LEN;
      if !ipv4 && pkt.nextHdr == IPPROTO_ICMPV6 {
        pktsNum := pktsNum - 1;
        return;
      }
      if pldLen < maxPldSize {
        if !(maxFragSize > 0 && pldLen == maxFragSize) && firstSmallPkt < 0 {
          firstSmallPkt := pktsNum;
        }
      } else if pldLen > maxPldSize {
        tooBigPkt := true;
      }
    }

    /** One pass of the send loop: only the packet counter is reset before the capture is examined. */
    method CheckIteration(pkts: seq<Packet>) returns (v: Verdict)
      modifies this
      ensures Value() == Run(old(Value()).(pktsNum := 0), pkts)
      ensures v == Pass <==> Passes(Value())
      ensures v == CaptureFailed <==> failed
      ensures v == NothingCaptured <==> !failed && pktsNum == 0
      ensures v == TooBigPacket <==> !failed && pktsNum != 0 && tooBigPkt
    {
      pktsNum := 0;
      ghost var start := Value();
      for i := 0 to |pkts|
        invariant Value() == Run(start, pkts[..i])
      {
        ProcessEth(pkts[i]);
        assert pkts[..i + 1][..i] == pkts[..i];
      }
      assert pkts[..|pkts|] == pkts;
      if failed { return CaptureFailed; }
      if pktsNum == 0 { return NothingCaptured; }
      if tooBigPkt { return TooBigPacket; }
      if firstSmallPkt >= 0 && firstSmallPkt != pktsNum { return SmallPacketNotLast; }
      return Pass;
    }
  }

  // ---------------------------------------------------------------- what one iteration accepts

  /** Sizes of the packets that are not skipped, in order of capture. */
  function Sizes(ipv4: bool, ps: seq<Packet>): seq<int>
    requires forall p :: p in ps ==> p.Ip?
  {
    if ps == [] then []
    else
      var init := Sizes(ipv4, ps[..|ps| - 1]);
      var p := ps[|ps| - 1];
      if Skipped(ipv4, p) then init else init + [PacketSize(ipv4, p)]
  }

  predicate Large(size: int, mtu: int, frag: int) {
    size == mtu || (0 < frag == size)
  }

  /** No packet above the MTU, and all but the last of MTU size or of the maximal intermediate fragment size. */
  predicate ProperTrain(sizes: seq<int>, mtu: int, frag: int) {
    && (forall i :: 0 <= i < |sizes| ==> sizes[i] <= mtu)
    && (forall i :: 0 <= i < |sizes| - 1 ==> Large(sizes[i], mtu, frag))
  }

  /** The recorded number is that of the first small packet, counting from 1. */
  predicate IsFirstSmall(first: int, sizes: seq<int>, mtu: int, frag: int) {
    if first < 0 then forall i :: 0 <= i < |sizes| ==> sizes[i] >= mtu || Large(sizes[i], mtu, frag)
    else
      && 1 <= first <= |sizes|
      && sizes[first - 1] < mtu && !Large(sizes[first - 1], mtu, frag)
      && forall i :: 0 <= i < first - 1 ==> sizes[i] >= mtu || Large(sizes[i], mtu, frag)
  }

  predicate TooBig(sizes: seq<int>, mtu: int) {
    exists i :: 0 <= i < |sizes| && sizes[i] > mtu
  }

  lemma MeasureTracked(s: State, sizes: seq<int>, size: int)
    requires s.pktsNum == |sizes| + 1
    requires if sizes == [] then s.firstSmall == -1 else IsFirstSmall(s.firstSmall, sizes, s.maxPldSize, s.maxFragSize)
    ensures var t, sizes' := Measure(s, size), sizes + [size];
      && IsFirstSmall(t.firstSmall, sizes', s.maxPldSize, s.maxFragSize)
      && t.tooBig == (s.tooBig || size > s.maxPldSize)
      && t == s.(firstSmall := t.firstSmall, tooBig := t.tooBig)
  {
    var sizes' := sizes + [size];
    assert forall i :: 0 <= i < |sizes| ==> sizes'[i] == sizes[i];
  }

  lemma TooBigAppend(sizes: seq<int>, size: int, mtu: int)
    ensures TooBig(sizes + [size], mtu) <==> TooBig(sizes, mtu) || size > mtu
  {
    var sizes' := sizes + [size];
    assert forall i :: 0 <= i < |sizes| ==> sizes'[i] == sizes[i];
    assert sizes'[|sizes|] == size;
  }

  lemma {:induction false} Tracked(s0: State, ps: seq<Packet>)
    requires s0.pktsNum == 0 && forall p :: p in ps ==> p.Ip?
    ensures var s, sizes := Run(s0, ps), Sizes(s0.ipv4, ps);
      && s.ipv4 == s0.ipv4 && s.maxPldSize == s0.maxPldSize && s.maxFragSize == s0.maxFragSize
      && s.pktsNum == |sizes| && s.failed == s0.failed
      && (s.tooBig <==> s0.tooBig || TooBig(sizes, s0.maxPldSize))
      && (sizes != [] ==> IsFirstSmall(s.firstSmall, sizes, s0.maxPldSize, s0.maxFragSize))
  {
    if ps != [] {
      var init, p := ps[..|ps| - 1], ps[|ps| - 1];
      Tracked(s0, init);
      if !Skipped(s0.ipv4, p) {
        var s, sizes, size := Run(s0, init), Sizes(s0.ipv4, init), PacketSize(s0.ipv4, p);
        var s' := (if s.pktsNum == 0 then s.(firstSmall := -1) else s).(pktsNum := s.pktsNum + 1);
        MeasureTracked(s', sizes, size);
        TooBigAppend(sizes, size, s0.maxPldSize);
      }
    }
  }

  /**
   * The verdict is exact, whatever earlier iterations left: the packets that are not ICMPv6 form a non-empty proper
   * train.
   */
  lemma VerdictExact(s0: State, ps: seq<Packet>)
    requires !s0.failed && !s0.tooBig && forall p :: p in ps ==> p.Ip?
    ensures Passes(Run(s0.(pktsNum := 0), ps)) <==>
      Sizes(s0.ipv4, ps) != [] && ProperTrain(Sizes(s0.ipv4, ps), s0.maxPldSize, s0.maxFragSize)
  {
    Tracked(s0.(pktsNum := 0), ps);
  }

  /** A packet whose length cannot be read fails the iteration, and all later ones; nothing else does. */
  lemma {:induction false} UnreadableFails(s0: State, ps: seq<Packet>)
    ensures Run(s0, ps).failed <==> s0.failed || Unreadable in ps
  {
    if ps != [] {
      var n := |ps| - 1;
      UnreadableFails(s0, ps[..n]);
      assert ps == ps[..n] + [ps[n]];
    }
  }

  // ---------------------------------------------------------------- IP fragmentation

  function HdrLen(ipv4: bool): int {
    if ipv4 then IP4_HDR_LEN else IP6_HDR_LEN
  }

  /** The size the test expects of every intermediate fragment. */
  function MaxFragSize(ipv4: bool, mtu: int): int {
    (mtu - HdrLen(ipv4)) / 8 * 8 + HdrLen(ipv4)
  }

  /** Headers in front of the data of a fragment: IPv6 adds a fragment header (section 4.5 of RFC 8200). */
  function FragHdrLen(ipv4: bool): int {
    if ipv4 then IP4_HDR_LEN else IP6_HDR_LEN + IP6_FRAG_HDR_LEN
  }

  /**
   * Maximal fragmentation of data that must fit in pieces of at most cap bytes (section 3.2 of RFC 791): while the
   * data does not fit, the largest multiple of 8 bytes is cut off.
   */
  function FragmentData(total: nat, cap: nat): seq<nat>
    requires cap >= 8
    decreases total
  {
    if total <= cap then [total] else [cap / 8 * 8] + FragmentData(total - cap / 8 * 8, cap)
  }

  lemma {:induction false} SumCons(x: int, xs: seq<int>)
    ensures Sum([x] + xs) == x + Sum(xs)
  {
    if xs == [] {
      assert [x] + xs == [x];
      assert [x][..0] == [];
    } else {
      SumCons(x, xs[..|xs| - 1]);
      assert ([x] + xs)[..|xs|] == [x] + xs[..|xs| - 1];
    }
  }

  /** Sizes of the IP packets that carry a datagram of `payload` bytes over UDP. */
  function IpPackets(ipv4: bool, mtu: int, payload: nat): seq<int>
    requires mtu - FragHdrLen(ipv4) >= 8
  {
    var total := payload + UDP_HDR_LEN;
    if total + HdrLen(ipv4) <= mtu then [total + HdrLen(ipv4)]
    else
      var data := FragmentData(total, mtu - FragHdrLen(ipv4));
      seq<int>(|data|, i requires 0 <= i < |data| => data[i] + FragHdrLen(ipv4))
  }

  /** The pieces make up the datagram; all but the last are the largest multiple of 8 bytes that fits. */
  lemma {:induction false} FragmentsExact(total: nat, cap: nat)
    requires cap >= 8
    ensures var d := FragmentData(total, cap);
      && Sum(d) == total && d != [] && d[|d| - 1] <= cap && (total > 0 ==> d[|d| - 1] > 0)
      && (forall i :: 0 <= i < |d| - 1 ==> d[i] == cap / 8 * 8)
    decreases total
  {
    var d := FragmentData(total, cap);
    if total <= cap {
      assert d[..0] == [];
    } else {
      var rest := FragmentData(total - cap / 8 * 8, cap);
      FragmentsExact(total - cap / 8 * 8, cap);
      SumCons(cap / 8 * 8, rest);
      assert forall i :: 0 < i < |d| ==> d[i] == rest[i - 1];
    }
  }

  /** One formula covers both IP versions: the IPv6 fragment header is 8 bytes long itself. */
  lemma OneFormula(ipv4: bool, mtu: int)
    ensures (mtu - FragHdrLen(ipv4)) / 8 * 8 + FragHdrLen(ipv4) == MaxFragSize(ipv4, mtu)
  {
  }

  /** The capture of such a train, with any ICMPv6 packets in between. */
  ghost predicate Captures(ipv4: bool, ps: seq<Packet>, sizes: seq<int>) {
    (forall p :: p in ps ==> p.Ip?) && Sizes(ipv4, ps) == sizes
  }

  /** The packets of a fragmented datagram: at least two, and all but the last of the maximal fragment size. */
  lemma FragmentSizes(ipv4: bool, mtu: int, payload: nat)
    requires mtu - FragHdrLen(ipv4) >= 8 && payload > mtu - HdrLen(ipv4) - UDP_HDR_LEN
    ensures var sizes, frag := IpPackets(ipv4, mtu, payload), MaxFragSize(ipv4, mtu);
      && |sizes| >= 2 && 0 < frag <= mtu && sizes[|sizes| - 1] <= mtu
      && forall i :: 0 <= i < |sizes| - 1 ==> sizes[i] == frag
  {
    FragmentsExact(payload + UDP_HDR_LEN, mtu - FragHdrLen(ipv4));
    OneFormula(ipv4, mtu);
  }

  /**
   * For every MTU that leaves room for fragment data and every datagram length, the packets of a maximal fragmentation
   * pass; the intermediate fragment size is set exactly when the payload does not fit in one packet.
   */
  lemma FragmentationAccepted(s0: State, ps: seq<Packet>, mtu: int, payload: nat)
    requires mtu - FragHdrLen(s0.ipv4) >= 8
    requires !s0.failed && !s0.tooBig && s0.maxPldSize == mtu
    requires s0.maxFragSize == if payload > mtu - HdrLen(s0.ipv4) - UDP_HDR_LEN then MaxFragSize(s0.ipv4, mtu) else 0
    requires Captures(s0.ipv4, ps, IpPackets(s0.ipv4, mtu, payload))
    ensures Passes(Run(s0.(pktsNum := 0), ps))
  {
    VerdictExact(s0, ps);
    if payload > mtu - HdrLen(s0.ipv4) - UDP_HDR_LEN {
      FragmentSizes(s0.ipv4, mtu, payload);
    }
  }

  /**
   * The fragment size is what makes the test accept fragmentation: with it left at zero, as for datagrams that fit,
   * a fragmented datagram passes only if the largest fragment happens to fill the MTU.
   */
  lemma FragmentSizeNeeded(s0: State, ps: seq<Packet>, mtu: int, payload: nat)
    requires mtu - FragHdrLen(s0.ipv4) >= 8
    requires !s0.failed && !s0.tooBig && s0.maxPldSize == mtu && s0.maxFragSize == 0
    requires payload > mtu - HdrLen(s0.ipv4) - UDP_HDR_LEN
    requires Captures(s0.ipv4, ps, IpPackets(s0.ipv4, mtu, payload))
    ensures Passes(Run(s0.(pktsNum := 0), ps)) <==> (mtu - HdrLen(s0.ipv4)) % 8 == 0
  {
    VerdictExact(s0, ps);
    FragmentSizes(s0.ipv4, mtu, payload);
    var sizes := IpPackets(s0.ipv4, mtu, payload);
    assert sizes[0] == MaxFragSize(s0.ipv4, mtu);
    assert sizes[0] == mtu <==> (mtu - HdrLen(s0.ipv4)) % 8 == 0;
    assert ProperTrain(sizes, mtu, 0) <==> sizes[0] == mtu;
  }

  // ---------------------------------------------------------------- by the fields of the packets

  /** The packets without the ICMPv6 ones (next header 58 of an IPv6 packet). */
  function Traffic(ipv4: bool, ps: seq<Packet>): (r: seq<Packet>)
    ensures |r| <= |ps|
    ensures (forall p :: p in ps ==> p.Ip?) ==> forall p :: p in r ==> p.Ip?
  {
    if ps == [] then []
    else
      var init, p := Traffic(ipv4, ps[..|ps| - 1]), ps[|ps| - 1];
      if p.Ip? && !ipv4 && p.nextHdr == 58 then init else init + [p]
  }

  /** The size of a packet is its length field, without the 40 bytes of the header for IPv6. */
  lemma {:induction false} SizesByFields(ipv4: bool, ps: seq<Packet>)
    requires forall p :: p in ps ==> p.Ip?
    ensures |Sizes(ipv4, ps)| == |Traffic(ipv4, ps)|
    ensures forall i :: 0 <= i < |Traffic(ipv4, ps)| ==>
      Sizes(ipv4, ps)[i] == Traffic(ipv4, ps)[i].lengthField + if ipv4 then 0 else 40
  {
    if ps != [] {
      SizesByFields(ipv4, ps[..|ps| - 1]);
    }
  }

  /** The fragments of a datagram of so many bytes: data in pieces of at most cap bytes, all but the last maximal. */
  predicate FragmentsOf(data: seq<nat>, total: int, cap: int) {
    && data != [] && Sum(data) == total && 1 <= data[|data| - 1] <= cap
    && forall i :: 0 <= i < |data| - 1 ==> data[i] % 8 == 0 && data[i] <= cap < data[i] + 8
  }

  /**
   * The length fields of the captured packets of a UDP datagram. Over IPv4 a field counts the data and 20 bytes of
   * header; over IPv6 the data, and 8 bytes of fragment header when the datagram is fragmented. A datagram is
   * fragmented when it does not fit the MTU with its headers, 20 or 40 bytes of IP and 8 of UDP.
   */
  ghost predicate CarriesDatagram(ipv4: bool, ps: seq<Packet>, mtu: int, payload: nat) {
    && (forall p :: p in ps ==> p.Ip?)
    && var t := Traffic(ipv4, ps);
      if payload + 8 + (if ipv4 then 20 else 40) <= mtu then
        |t| == 1 && t[0].lengthField == payload + 8 + if ipv4 then 20 else 0
      else
        exists data: seq<nat> ::
          && FragmentsOf(data, payload + 8, mtu - if ipv4 then 20 else 48)
          && |t| == |data| && forall i :: 0 <= i < |t| ==> t[i].lengthField == data[i] + if ipv4 then 20 else 8
  }

  lemma EightAligned(ipv4: bool, mtu: int, x: nat)
    requires var cap := mtu - if ipv4 then 20 else 48; 8 <= cap && x % 8 == 0 && x <= cap < x + 8
    ensures x + (if ipv4 then 20 else 48) == MaxFragSize(ipv4, mtu) && 0 < MaxFragSize(ipv4, mtu) <= mtu
  {
  }

  /** All fragments but the last have the intermediate fragment size, and the last is not too big. */
  lemma FragmentTrain(ipv4: bool, mtu: int, data: seq<nat>, sizes: seq<int>)
    requires var cap := mtu - if ipv4 then 20 else 48; 8 <= cap && FragmentsOf(data, Sum(data), cap)
    requires |sizes| == |data| && forall i :: 0 <= i < |sizes| ==> sizes[i] == data[i] + if ipv4 then 20 else 48
    ensures sizes != [] && ProperTrain(sizes, mtu, MaxFragSize(ipv4, mtu))
  {
    forall i | 0 <= i < |sizes| - 1 ensures sizes[i] == MaxFragSize(ipv4, mtu) && 0 < sizes[i] <= mtu {
      EightAligned(ipv4, mtu, data[i]);
    }
  }

  /** Maximal fragmentation is such a division, so there are fragments of every datagram. */
  lemma MaximalFragments(total: nat, cap: nat)
    requires cap >= 8 && total > 0
    ensures FragmentsOf(FragmentData(total, cap), total, cap)
  {
    FragmentsExact(total, cap);
  }

  /**
   * In terms of the packets themselves: every datagram passes, whole or in maximal fragments, over IPv4 and IPv6, for
   * every MTU with room for 8 bytes of fragment data and any ICMPv6 packets in between, when the test is set up for it.
   */
  lemma DatagramAccepted(s0: State, ps: seq<Packet>, mtu: int, payload: nat)
    requires mtu >= if s0.ipv4 then 28 else 56
    requires !s0.failed && !s0.tooBig && s0.maxPldSize == mtu
    requires s0.maxFragSize ==
      if payload + 8 + (if s0.ipv4 then 20 else 40) > mtu then MaxFragSize(s0.ipv4, mtu) else 0
    requires CarriesDatagram(s0.ipv4, ps, mtu, payload)
    ensures Passes(Run(s0.(pktsNum := 0), ps))
  {
    VerdictExact(s0, ps);
    SizesByFields(s0.ipv4, ps);
    var t := Traffic(s0.ipv4, ps);
    if payload + 8 + (if s0.ipv4 then 20 else 40) > mtu {
      var data: seq<nat> :|
        && FragmentsOf(data, payload + 8, mtu - if s0.ipv4 then 20 else 48)
        && |t| == |data| && forall i :: 0 <= i < |t| ==> t[i].lengthField == data[i] + if s0.ipv4 then 20 else 8;
      FragmentTrain(s0.ipv4, mtu, data, Sizes(s0.ipv4, ps));
    }
  }

  /** A packet above the MTU fails the iteration; an IPv6 length field may be 40 bytes below it. */
  lemma OversizedCaught(s0: State, ps: seq<Packet>, i: nat)
    requires !s0.failed && forall p :: p in ps ==> p.Ip?
    requires i < |Traffic(s0.ipv4, ps)|
    requires Traffic(s0.ipv4, ps)[i].lengthField > if s0.ipv4 then s0.maxPldSize else s0.maxPldSize - 40
    ensures var s := Run(s0.(pktsNum := 0), ps); !s.failed && s.pktsNum != 0 && s.tooBig
  {
    Tracked(s0.(pktsNum := 0), ps);
    SizesByFields(s0.ipv4, ps);
    assert TooBig(Sizes(s0.ipv4, ps), s0.maxPldSize);
  }
}
