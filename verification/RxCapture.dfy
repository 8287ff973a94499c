/**
 * The part of the packet callbacks common to both receive coalescing tests: reading captured packets and recording
 * which transmitted packets were sent too late (process_tx_pkts() and the head of process_rx_pkts()).
 */
module RxCapture {
  import opened Common
  import opened PacketGroups
  import opened PacketId

  /** A captured packet; its timestamp or its payload may be unavailable. */
  datatype Packet = Packet(ts: Option<int>, payload: Option<seq<byte>>)

  function Parse(host: HostOrder, p: Packet): Option<Arrival> {
    if p.ts.None? || p.payload.None? then None
    else
      var id := Decode(host, p.payload.value);
      if id.None? then None else Some(Arrival(p.ts.value, id.value))
  }

  /** How a host reads packets. */
  type Reader = Packet -> Option<Arrival>

  const NOTHING_CAPTURED: Capture := Capture([], 0, 0, 0, 0, false)

  function ReaderOf(host: HostOrder): Reader {
    p => Parse(host, p)
  }

  /** A packet is read if and only if it has a timestamp and a payload with a number, and then gives these two. */
  lemma ReadExact(host: HostOrder, p: Packet, a: Arrival)
    ensures ReaderOf(host)(p) == Some(a)
      <==> p.ts == Some(a.ts) && p.payload.Some? && Decode(host, p.payload.value) == Some(a.id)
  {
  }

  /** The common fields of `test_cb_args` as one value. */
  datatype Capture = Capture(
    delayedPktIds: seq<uint64>, curDelayedIdx: nat, prevTs: int, nPkts: uint32, curPktId: uint64, failed: bool)

  /** Counting and reading one packet: its timestamp if it was read. */
  function Receive(c: Capture, read: Reader, p: Packet): (Capture, Option<int>) {
    var c := c.(nPkts := Add32(c.nPkts, 1));
    if c.failed then (c, None)
    else
      var a := read(p);
      if a.None? then (c.(failed := true), None) else (c.(curPktId := a.value.id), Some(a.value.ts))
  }

  /** A gap of more than this many microseconds makes a transmitted packet a late one; computed in 32 bits. */
  function LateThreshold(sendDelay: uint32): uint32 {
    Wrap(sendDelay * 5)
  }

  /** Without wrapping as long as the delay is below 2^32 / 5. */
  lemma FiveDelays(sendDelay: uint32)
    ensures LateThreshold(sendDelay) == Wrap(5 * sendDelay)
    ensures 5 * sendDelay < TWO32 ==> LateThreshold(sendDelay) == 5 * sendDelay
  {
  }

  function TxStep(c: Capture, read: Reader, thr: uint32, p: Packet): Capture {
    var (c, ts) := Receive(c, read, p);
    if ts.None? then c
    else
      var late := c.nPkts != 1 && ts.value - c.prevTs > thr;
      c.(prevTs := ts.value, delayedPktIds := c.delayedPktIds + if late then [c.curPktId] else [])
  }

  function TxRun(c: Capture, read: Reader, thr: uint32, pkts: seq<Packet>): Capture {
    if pkts == [] then c else TxStep(TxRun(c, read, thr, pkts[..|pkts| - 1]), read, thr, pkts[|pkts| - 1])
  }

  class CaptureArgs {
    const host: HostOrder
    const pktSendDelay: uint32
    var delayedPktIds: seq<uint64>
    var curDelayedIdx: nat
    var prevTs: int
    var nPkts: uint32
    var curPktId: uint64
    var failed: bool

    ghost function Value(): Capture
      reads this
    {
      Capture(delayedPktIds, curDelayedIdx, prevTs, nPkts, curPktId, failed)
    }

    constructor (host: HostOrder, pktSendDelay: uint32)
      ensures Value() == Capture([], 0, 0, 0, 0, false)
      ensures this.host == host && this.pktSendDelay == pktSendDelay
    {
      this.host, this.pktSendDelay := host, pktSendDelay;
      delayedPktIds, curDelayedIdx, prevTs, nPkts, curPktId, failed := [], 0, 0, 0, 0, false;
    }

    method ReadPacket(pkt: Packet) returns (ts: Option<int>)
      modifies this
      ensures (Value(), ts) == Receive(old(Value()), ReaderOf(host), pkt)
    {
      nPkts := Add32(nPkts, 1);
      if failed { return None; }
      if pkt.ts.None? {
        failed := true;
        return None;
      }
      var id := GetPktId(host, pkt.payload);
      if id.None? {
        failed := true;
        return None;
      }
      curPktId := id.value;
      return pkt.ts;
    }

    method ProcessTxPkts(pkt: Packet)
      modifies this
      ensures Value() == TxStep(old(Value()), ReaderOf(host), LateThreshold(pktSendDelay), pkt)
    {
      var ts := ReadPacket(pkt);
      if ts.None? { return; }
      if nPkts == 1 {
        prevTs := ts.value;
      } else {
        if ts.value - prevTs > LateThreshold(pktSendDelay) {
          delayedPktIds := delayedPktIds + [curPktId];
        }
        prevTs := ts.value;
      }
    }

    /** The transmit pass: the callback gets the captured packets one by one. */
    method TransmitAll(pkts: seq<Packet>)
      modifies this
      ensures Value() == TxRun(old(Value()), ReaderOf(host), LateThreshold(pktSendDelay), pkts)
    {
      for i := 0 to |pkts|
        invariant Value() == TxRun(old(Value()), ReaderOf(host), LateThreshold(pktSendDelay), pkts[..i])
      {
        ProcessTxPkts(pkts[i]);
        assert pkts[..i + 1][..i] == pkts[..i];
      }
      assert pkts[..|pkts|] == pkts;
    }
  }

  // ---------------------------------------------------------------- what the transmit pass records

  /** All the packets can be read, and this is what they say. */
  ghost predicate Reads(read: Reader, pkts: seq<Packet>, ps: seq<Arrival>) {
    |pkts| == |ps| && forall i :: 0 <= i < |ps| ==> read(pkts[i]) == Some(ps[i])
  }

  predicate AllReadable(read: Reader, pkts: seq<Packet>) {
    forall i :: 0 <= i < |pkts| ==> read(pkts[i]).Some?
  }

  /** What packets say that can all be read. */
  function Arrivals(read: Reader, pkts: seq<Packet>): seq<Arrival>
    requires AllReadable(read, pkts)
  {
    seq(|pkts|, i requires 0 <= i < |pkts| => read(pkts[i]).value)
  }

  lemma ArrivalsAreRead(read: Reader, pkts: seq<Packet>)
    requires AllReadable(read, pkts)
    ensures Reads(read, pkts, Arrivals(read, pkts))
  {
  }

  lemma ReadableSplit(read: Reader, pkts: seq<Packet>)
    requires pkts != []
    ensures var n := |pkts| - 1; AllReadable(read, pkts) <==> AllReadable(read, pkts[..n]) && read(pkts[n]).Some?
  {
    var n := |pkts| - 1;
    assert forall i :: 0 <= i < n ==> pkts[..n][i] == pkts[i];
  }

  lemma ReadsPrefix(read: Reader, pkts: seq<Packet>, ps: seq<Arrival>)
    requires Reads(read, pkts, ps) && ps != []
    ensures var n := |ps| - 1; Reads(read, pkts[..n], ps[..n]) && read(pkts[n]) == Some(ps[n])
  {
  }

  lemma TxStepReads(c: Capture, read: Reader, thr: uint32, p: Packet, a: Arrival)
    requires !c.failed && read(p) == Some(a) && c.nPkts < TWO32 - 1
    ensures TxStep(c, read, thr, p) == c.(
      nPkts := c.nPkts + 1, curPktId := a.id, prevTs := a.ts,
      delayedPktIds := c.delayedPktIds + if c.nPkts > 0 && a.ts - c.prevTs > thr then [a.id] else [])
  {
  }

  lemma LateAppend(ps: seq<Arrival>, thr: int)
    requires ps != []
    ensures var n := |ps| - 1;
      CloseIds(ps, thr) == CloseIds(ps[..n], thr) + if n > 0 && ps[n].ts - ps[n - 1].ts > thr then [ps[n].id] else []
  {
  }

  /** The late packets are exactly those after a gap above the threshold, in order. */
  lemma {:induction false} TxRecordsLate(c0: Capture, read: Reader, thr: uint32, pkts: seq<Packet>, ps: seq<Arrival>)
    requires c0.nPkts == 0 && !c0.failed && Reads(read, pkts, ps) && |ps| < TWO32
    ensures var c := TxRun(c0, read, thr, pkts);
      && c.nPkts == |ps| && !c.failed && c.curDelayedIdx == c0.curDelayedIdx
      && c.delayedPktIds == c0.delayedPktIds + CloseIds(ps, thr)
      && (ps != [] ==> c.prevTs == ps[|ps| - 1].ts)
  {
    if ps != [] {
      var n := |ps| - 1;
      ReadsPrefix(read, pkts, ps);
      TxRecordsLate(c0, read, thr, pkts[..n], ps[..n]);
      var c := TxRun(c0, read, thr, pkts[..n]);
      TxStepReads(c, read, thr, pkts[n], ps[n]);
      LateAppend(ps, thr);
    }
  }

  /** The pass counts every packet, and fails if and only if some packet cannot be read. */
  lemma {:induction false} UnreadableFails(c0: Capture, read: Reader, thr: uint32, pkts: seq<Packet>)
    ensures TxRun(c0, read, thr, pkts).failed <==> c0.failed || !AllReadable(read, pkts)
    ensures c0.nPkts == 0 && |pkts| < TWO32 ==> TxRun(c0, read, thr, pkts).nPkts == |pkts|
  {
    if pkts != [] {
      UnreadableFails(c0, read, thr, pkts[..|pkts| - 1]);
      ReadableSplit(read, pkts);
    }
  }
}
