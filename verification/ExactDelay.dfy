/**
 * Sending packets with an exact delay and receiving them: send_pkts_exact_delay() and recv_pkts_exact_delay() of
 * talib_net_drv_ts/rpc.c. The clock, the socket calls and the channel are arbitrary inputs.
 */
module ExactDelay {
  import opened Common
  import opened PacketId

  /** sizeof() of the packed payload structure. */
  const PAYLOAD_LEN: int := 9

  // ---------------------------------------------------------------- the sender

  /**
   * A packet handed to the socket: its number, its payload, and when it left in microseconds after the start,
   * according to which call of gettimeofday().
   */
  datatype Sent = Sent(id: uint64, payload: seq<byte>, time: int, call: nat)

  /** The clock, whatever it shows otherwise, at some call is past the time to run and one more delay. */
  ghost predicate Passes(clock: nat -> int, last: nat, delay: nat, time2run: nat) {
    clock(last) - clock(0) > (time2run + 1) * 1000 + delay
  }

  /** What a host puts into the packet with a number. */
  type Encoder = uint64 -> seq<byte>

  function EncoderOf(host: HostOrder): Encoder {
    id => Payload(host, id)
  }

  /** The 64-bit packet counter wraps around. */
  function Next(id: uint64): uint64 {
    if id == TWO64 - 1 then 0 else id + 1
  }

  /** Packets are numbered from 0 on, as long as the counter does not wrap around, and carry their numbers. */
  predicate Numbered(encode: Encoder, sent: seq<Sent>) {
    forall k :: 0 <= k < |sent| ==> sent[k].payload == encode(sent[k].id) && (k < TWO64 ==> sent[k].id == k)
  }

  /** Packets leave after the start and within the time to run, in milliseconds. */
  predicate WithinTime(sent: seq<Sent>, time2run: nat) {
    forall k :: 0 <= k < |sent| ==> 0 < sent[k].time && sent[k].time / 1000 <= time2run
  }

  /** Every packet leaves after its own sending moment: packet 0 after one delay, packet 1 after two, and so on. */
  predicate AfterMoments(sent: seq<Sent>, delay: nat) {
    forall k :: 0 <= k < |sent| ==> (k + 1) * delay < sent[k].time
  }

  /** No two packets leave in the same interval [j * delay, (j + 1) * delay). */
  predicate OnePerInterval(sent: seq<Sent>, delay: nat) {
    delay > 0 ==> forall j, k :: 0 <= j < k < |sent| ==> sent[j].time / delay < sent[k].time / delay
  }

  lemma DivBounds(x: int, d: int)
    requires d > 0
    ensures x / d * d <= x < (x / d + 1) * d
  {
    assert x == x / d * d + x % d;
    assert (x / d + 1) * d == x / d * d + d;
  }

  lemma DivAtLeast(x: int, d: int, q: int)
    requires d > 0 && x >= q * d
    ensures x / d >= q
  {
    DivBounds(x, d);
    if x / d < q {
      MulMonotone(x / d + 1, q, d);
    }
  }

  lemma MulMonotone(a: int, b: int, d: int)
    requires a <= b && d >= 0
    ensures a * d <= b * d
  {
  }

  /** The next sending moment after time t is more than the moments of all the packets sent so far. */
  function NextMoment(t: int, delay: nat): int {
    if delay > 0 then (t / delay + 1) * delay else 0
  }

  /** At time t at least n intervals are over. */
  predicate IntervalsOver(n: nat, t: int, delay: nat) {
    delay > 0 ==> n <= t / delay
  }

  lemma MomentBounds(t: int, delay: nat)
    requires t >= 0
    ensures 0 <= NextMoment(t, delay) <= t + delay
  {
    if delay > 0 {
      DivBounds(t, delay);
      DivAtLeast(t, delay, 0);
      MulMonotone(0, t / delay, delay);
      assert (t / delay + 1) * delay == t / delay * delay + delay;
    }
  }

  lemma MomentReached(n: nat, t: int, delay: nat, now: int)
    requires t >= 0 && now > NextMoment(t, delay) && IntervalsOver(n, t, delay)
    ensures now > 0 && (n + 1) * delay < now && IntervalsOver(n + 1, now, delay)
    ensures delay > 0 ==> t / delay < now / delay
  {
    MomentBounds(t, delay);
    if delay > 0 {
      MulMonotone(n + 1, t / delay + 1, delay);
      DivAtLeast(now, delay, t / delay + 1);
    }
  }

  /** The next sending moment is the first multiple of the delay after the time; without a delay it is the start. */
  lemma NextMomentExact(t: int, delay: nat)
    requires t >= 0
    ensures delay > 0 ==> t < NextMoment(t, delay) <= t + delay && NextMoment(t, delay) % delay == 0
    ensures delay == 0 ==> NextMoment(t, delay) == 0
  {
    if delay > 0 {
      DivBounds(t, delay);
      MomentBounds(t, delay);
      MultipleMod(t / delay + 1, delay);
    }
  }

  lemma {:induction false} MultipleMod(q: nat, d: nat)
    requires d > 0
    ensures (q * d) % d == 0
  {
    var x := q * d;
    DivAtLeast(x, d, q);
    DivBounds(x, d);
    MulMonotone(q, x / d, d);
    assert x == x / d * d + x % d;
  }

  /** Call number `call` is the first after number `prev` to show a time beyond the sending moment. */
  ghost predicate FirstBeyond(clock: nat -> int, prev: nat, call: nat, moment: int) {
    && prev < call && clock(call) - clock(0) > moment
    && forall c: nat :: prev < c < call ==> clock(c) - clock(0) <= moment
  }

  /** When the packets before packet k had left: at the start if there are none. */
  function LastTime(sent: seq<Sent>): int {
    if sent == [] then 0 else sent[|sent| - 1].time
  }

  function LastCall(sent: seq<Sent>): nat {
    if sent == [] then 0 else sent[|sent| - 1].call
  }

  /** The next sending moment after a time. */
  type Schedule = int -> int

  function ScheduleOf(delay: nat): Schedule {
    t => NextMoment(t, delay)
  }

  /** The last packet left as soon as the clock showed that the sending moment after the one before was over. */
  ghost predicate LastPrompt(clock: nat -> int, sent: seq<Sent>, s: Sent, next: Schedule) {
    s.time == clock(s.call) - clock(0) && FirstBeyond(clock, LastCall(sent), s.call, next(LastTime(sent)))
  }

  /** Every packet leaves as soon as the clock shows that the next sending moment is over. */
  ghost predicate Prompt(clock: nat -> int, sent: seq<Sent>, next: Schedule) {
    sent == []
    || (Prompt(clock, sent[..|sent| - 1], next) && LastPrompt(clock, sent[..|sent| - 1], sent[|sent| - 1], next))
  }

  lemma PromptAppend(clock: nat -> int, sent: seq<Sent>, next: Schedule, s: Sent)
    requires Prompt(clock, sent, next) && LastPrompt(clock, sent, s, next)
    ensures Prompt(clock, sent + [s], next)
  {
    assert (sent + [s])[..|sent|] == sent;
  }

  /** The busy loop: read the clock until the expected moment is over. */
  method WaitForMoment(clock: nat -> int, start: nat, expDiff: int, ghost last: nat) returns (calls: nat, timeDiff: int)
    requires start <= last && clock(last) - clock(0) > expDiff
    ensures start <= calls <= last && timeDiff == clock(calls) - clock(0) && timeDiff > expDiff
    ensures forall c: nat :: start <= c < calls ==> clock(c) - clock(0) <= expDiff
  {
    calls := start;
    while true
      invariant start <= calls <= last
      invariant forall c: nat :: start <= c < calls ==> clock(c) - clock(0) <= expDiff
      decreases last - calls
    {
      timeDiff := clock(calls) - clock(0);
      if timeDiff > expDiff {
        break;
      }
      calls := calls + 1;
    }
  }

  /** The first n calls of send() took a whole packet. */
  predicate AllSent(sendRc: nat -> int, n: nat) {
    forall k :: 0 <= k < n ==> sendRc(k) == PAYLOAD_LEN
  }

  /** Everything that holds of the packets sent so far. */
  ghost predicate Progress(encode: Encoder, next: Schedule, time2run: nat, clock: nat -> int, sendRc: nat -> int,
                           sent: seq<Sent>) {
    && Numbered(encode, sent) && WithinTime(sent, time2run) && Prompt(clock, sent, next)
    && AllSent(sendRc, |sent|)
  }

  lemma NumberedAppend(encode: Encoder, sent: seq<Sent>, s: Sent)
    requires Numbered(encode, sent) && (|sent| < TWO64 ==> s.id == |sent|) && s.payload == encode(s.id)
    ensures Numbered(encode, sent + [s])
  {
  }

  lemma TimeAppend(sent: seq<Sent>, time2run: nat, s: Sent)
    requires WithinTime(sent, time2run) && 0 < s.time && s.time / 1000 <= time2run
    ensures WithinTime(sent + [s], time2run)
  {
  }

  lemma PacketStep(encode: Encoder, next: Schedule, time2run: nat, clock: nat -> int, sendRc: nat -> int,
                   sent: seq<Sent>, s: Sent)
    requires Progress(encode, next, time2run, clock, sendRc, sent)
    requires (|sent| < TWO64 ==> s.id == |sent|) && s.payload == encode(s.id)
    requires 0 < s.time && s.time / 1000 <= time2run && LastPrompt(clock, sent, s, next)
    requires sendRc(|sent|) == PAYLOAD_LEN
    ensures Progress(encode, next, time2run, clock, sendRc, sent + [s])
    ensures LastTime(sent + [s]) == s.time && LastCall(sent + [s]) == s.call
  {
    NumberedAppend(encode, sent, s);
    TimeAppend(sent, time2run, s);
    PromptAppend(clock, sent, next, s);
  }

  /** Each packet as soon as its moment is over means: after its moment, and no two in one interval. */
  lemma {:induction false} PromptIsPaced(clock: nat -> int, sent: seq<Sent>, delay: nat)
    requires Prompt(clock, sent, ScheduleOf(delay))
    ensures AfterMoments(sent, delay) && OnePerInterval(sent, delay)
    ensures LastTime(sent) >= 0 && IntervalsOver(|sent|, LastTime(sent), delay)
  {
    if sent == [] {
      if delay > 0 { DivAtLeast(0, delay, 0); }
    } else {
      var n := |sent| - 1;
      var init, s := sent[..n], sent[n];
      PromptIsPaced(clock, init, delay);
      assert s.time > NextMoment(LastTime(init), delay);
      MomentReached(n, LastTime(init), delay, s.time);
      assert OnePerInterval(sent, delay) by {
        LaterInterval(init, s, delay);
        assert sent == init + [s];
      }
    }
  }

  lemma LaterInterval(sent: seq<Sent>, s: Sent, delay: nat)
    requires OnePerInterval(sent, delay)
    requires delay > 0 ==> LastTime(sent) / delay < s.time / delay
    ensures OnePerInterval(sent + [s], delay)
  {
  }

  lemma CountBound(sent: seq<Sent>, delay: nat, time2run: nat)
    requires AfterMoments(sent, delay) && WithinTime(sent, time2run)
    ensures |sent| * delay < (time2run + 1) * 1000
  {
    if sent != [] {
      var s := sent[|sent| - 1];
      assert |sent| * delay < s.time;
    }
  }

  /** Every packet takes at least one look at the clock. */
  lemma {:induction false} CallsBound(clock: nat -> int, sent: seq<Sent>, next: Schedule)
    requires Prompt(clock, sent, next)
    ensures |sent| <= LastCall(sent)
  {
    if sent != [] {
      CallsBound(clock, sent[..|sent| - 1], next);
    }
  }

  /**
   * The send loop. Call number i of gettimeofday() returns clock(i); send() of packet k returns sendRc(k). The result
   * is the number of packets, once the time to run is over at the last call, or -1 when a packet could not be sent
   * whole.
   */
  method SendLoop(encode: Encoder, next: Schedule, time2run: nat, clock: nat -> int, sendRc: nat -> int,
                  ghost delay: nat, ghost last: nat) returns (rc: int, sent: seq<Sent>, calls: nat)
    requires Passes(clock, last, delay, time2run)
    requires forall t :: t >= 0 ==> 0 <= next(t) <= t + delay
    ensures Progress(encode, next, time2run, clock, sendRc, sent) && calls <= last
    ensures FirstBeyond(clock, LastCall(sent), calls, next(LastTime(sent)))
    ensures rc >= 0 <==> (clock(calls) - clock(0)) / 1000 > time2run
    ensures rc == |sent| || (rc == -1 && sendRc(|sent|) != PAYLOAD_LEN)
  {
    sent := [];
    var id: uint64 := 0;
    calls := 1;
    var timeDiff := 0;
    while true
      invariant 1 <= calls <= last && calls == LastCall(sent) + 1
      invariant 0 <= timeDiff < (time2run + 1) * 1000 && timeDiff == LastTime(sent)
      invariant |sent| < TWO64 ==> id == |sent|
      invariant Progress(encode, next, time2run, clock, sendRc, sent)
      decreases last - calls
    {
      var expDiff := next(timeDiff);
      calls, timeDiff := WaitForMoment(clock, calls, expDiff, last);
      if timeDiff / 1000 > time2run {
        rc := |sent|;
        return;
      }
      var osRc := sendRc(|sent|);
      if osRc != PAYLOAD_LEN {
        rc := -1;
        return;
      }
      var packet := Sent(id, encode(id), timeDiff, calls);
      PacketStep(encode, next, time2run, clock, sendRc, sent, packet);
      sent := sent + [packet];
      id := Next(id);
      calls := calls + 1;
    }
  }

  /** The sender on a host, with the payload of that host and the sending moments delay, 2 * delay, 3 * delay, ... */
  method SendPktsExactDelay(host: HostOrder, delay: nat, time2run: nat, clock: nat -> int, sendRc: nat -> int,
                            ghost last: nat) returns (rc: int, sent: seq<Sent>, calls: nat)
    requires Passes(clock, last, delay, time2run)
    ensures Numbered(EncoderOf(host), sent) && WithinTime(sent, time2run) && Prompt(clock, sent, ScheduleOf(delay))
    ensures FirstBeyond(clock, LastCall(sent), calls, NextMoment(LastTime(sent), delay))
    ensures rc >= 0 <==> (clock(calls) - clock(0)) / 1000 > time2run
    ensures AfterMoments(sent, delay) && OnePerInterval(sent, delay)
    ensures |sent| * delay < (time2run + 1) * 1000 && |sent| < calls <= last
    ensures AllSent(sendRc, |sent|)
    ensures rc == |sent| || (rc == -1 && sendRc(|sent|) != PAYLOAD_LEN)
  {
    forall t | t >= 0 ensures 0 <= ScheduleOf(delay)(t) <= t + delay {
      MomentBounds(t, delay);
    }
    rc, sent, calls := SendLoop(EncoderOf(host), ScheduleOf(delay), time2run, clock, sendRc, delay, last);
    PromptIsPaced(clock, sent, delay);
    CountBound(sent, delay, time2run);
    CallsBound(clock, sent, ScheduleOf(delay));
  }

  // ---------------------------------------------------------------- the receiver

  /** What one turn of the receive loop meets: the result of poll(), and of recv() when poll() reports input. */
  datatype Event =
    | PollFailed | PollTimeout | PollUnexpected | RecvFailed
    | Datagram(bytes: seq<byte>)

  /** recv() reads no more than the buffer holds. */
  predicate WholePayload(e: Event) {
    e.Datagram? && |e.bytes| >= PAYLOAD_LEN
  }

  /** The number a host finds in the bytes it received. */
  type Decoder = seq<byte> -> uint64

  function NumberIn(host: HostOrder, bytes: seq<byte>): uint64 {
    if |bytes| < ID_LEN then 0 else SwapIfRequired(host, Load(host, bytes[..ID_LEN]))
  }

  function DecoderOf(host: HostOrder): Decoder {
    bytes => NumberIn(host, bytes)
  }

  /** The cast to a signed 64-bit number, and back. */
  function ToInt64(x: uint64): int {
    if x < TWO63 then x else x - TWO64
  }

  function ToUint64(x: int): uint64
    requires -TWO63 <= x < TWO63
  {
    if x >= 0 then x else x + TWO64
  }

  /** Events up to the time when nothing more arrives. */
  function UntilTimeout(events: seq<Event>): seq<Event> {
    if events == [] || events[0].PollTimeout? then [] else [events[0]] + UntilTimeout(events[1..])
  }

  /** Every event is a packet, and the numbers, below 2^63, strictly increase. */
  predicate InOrder(decode: Decoder, es: seq<Event>) {
    && (forall i :: 0 <= i < |es| ==> WholePayload(es[i]) && decode(es[i].bytes) < TWO63)
    && (forall i :: 0 < i < |es| ==> decode(es[i - 1].bytes) < decode(es[i].bytes))
  }

  lemma {:induction false} UntilTimeoutAt(events: seq<Event>, i: nat)
    requires i <= |events| && forall j :: 0 <= j < i ==> !events[j].PollTimeout?
    ensures i <= |UntilTimeout(events)| && UntilTimeout(events)[..i] == events[..i]
    ensures i == |events| || events[i].PollTimeout? ==> UntilTimeout(events) == events[..i]
    ensures i < |events| && !events[i].PollTimeout? ==>
      i < |UntilTimeout(events)| && UntilTimeout(events)[i] == events[i]
  {
    if i > 0 {
      UntilTimeoutAt(events[1..], i - 1);
      assert events[..i] == [events[0]] + events[1..][..i - 1];
    }
  }

  /** What a packet must be to come next. */
  predicate InOrderNext(decode: Decoder, es: seq<Event>, i: nat)
    requires i < |es|
  {
    && WholePayload(es[i]) && decode(es[i].bytes) < TWO63
    && (i > 0 && es[i - 1].Datagram? ==> decode(es[i - 1].bytes) < decode(es[i].bytes))
  }

  lemma InOrderStep(decode: Decoder, es: seq<Event>, i: nat)
    requires i < |es| && InOrder(decode, es[..i])
    ensures InOrder(decode, es[..i + 1]) <==> InOrderNext(decode, es, i)
    ensures !InOrderNext(decode, es, i) ==> !InOrder(decode, es)
    ensures i > 0 ==> WholePayload(es[i - 1]) && decode(es[i - 1].bytes) < TWO63
  {
    var ds := es[..i + 1];
    assert forall j :: 0 <= j < i ==> es[..i][j] == ds[j] == es[j];
    assert ds[i] == es[i];
  }

  /**
   * The receive loop, for arbitrary events and arbitrary 64-bit numbers in the packets: it returns the number of
   * packets if they came in strictly increasing order with numbers below 2^63, and an error in every other case.
   */
  method ReceiveLoop(decode: Decoder, events: seq<Event>) returns (rc: int)
    ensures var es := UntilTimeout(events); rc == if InOrder(decode, es) then |es| else -1
  {
    ghost var es := UntilTimeout(events);
    var lastId := -1;
    var pktsCount := 0;
    var i := 0;
    while i < |events|
      invariant 0 <= i <= |events| && pktsCount == i
      invariant forall j :: 0 <= j < i ==> !events[j].PollTimeout?
      invariant i <= |es| && InOrder(decode, es[..i])
      invariant i == 0 ==> lastId == -1
      invariant i > 0 ==> WholePayload(es[i - 1]) && 0 <= lastId == decode(es[i - 1].bytes) < TWO63
    {
      UntilTimeoutAt(events, i);
      var e := events[i];
      if e.PollTimeout? {
        assert es == es[..i];
        return pktsCount;
      }
      InOrderStep(decode, es, i);
      if !e.Datagram? || |e.bytes| < PAYLOAD_LEN {
        return -1;
      }
      var id := decode(e.bytes);
      if ToInt64(id) < lastId {
        return -1;
      } else if id == ToUint64(lastId) {
        return -1;
      }
      lastId := ToInt64(id);
      pktsCount := pktsCount + 1;
      i := i + 1;
    }
    UntilTimeoutAt(events, i);
    assert es == es[..i];
    return pktsCount;
  }

  /** The receiver on a host, reading the numbers as that host does. */
  method RecvPktsExactDelay(host: HostOrder, events: seq<Event>) returns (rc: int)
    ensures var es := UntilTimeout(events); rc == if InOrder(DecoderOf(host), es) then |es| else -1
  {
    rc := ReceiveLoop(DecoderOf(host), events);
  }

  // ---------------------------------------------------------------- sender and receiver together

  /** Numbers below n in strictly increasing order. */
  predicate Increasing(idx: seq<int>, n: int) {
    && (forall k :: 0 <= k < |idx| ==> 0 <= idx[k] < n)
    && (forall j, k :: 0 <= j < k < |idx| ==> idx[j] < idx[k])
  }

  /** The packets number idx[0], idx[1], ... of those sent arrive, the others are lost. */
  function Delivered(sent: seq<Sent>, idx: seq<int>): seq<Event>
    requires Increasing(idx, |sent|)
  {
    seq(|idx|, k requires 0 <= k < |idx| => Datagram(sent[idx[k]].payload))
  }

  lemma PayloadId(sender: HostOrder, receiver: HostOrder, id: uint64)
    ensures |EncoderOf(sender)(id)| == PAYLOAD_LEN
    ensures DecoderOf(receiver)(EncoderOf(sender)(id)) == id
  {
    PayloadIsBigEndian(sender, id);
    LoadIsBigEndian(receiver, Payload(sender, id)[..ID_LEN]);
  }

  lemma {:induction false} NoTimeout(es: seq<Event>)
    requires forall i :: 0 <= i < |es| ==> !es[i].PollTimeout?
    ensures UntilTimeout(es) == es
  {
    UntilTimeoutAt(es, |es|);
  }

  lemma {:induction false} IncreasingShort(idx: seq<int>, n: nat)
    requires Increasing(idx, n)
    ensures |idx| <= n
  {
    if idx != [] {
      IncreasingShort(idx[..|idx| - 1], idx[|idx| - 1]);
    }
  }

  /**
   * Over a channel that loses any packets but keeps the order, between hosts of any byte orders, what the receiver
   * gets is in order, so it reports exactly the number delivered, which is no more than the sender's result.
   */
  lemma LossyChannel(sender: HostOrder, receiver: HostOrder, sent: seq<Sent>, idx: seq<int>)
    requires Numbered(EncoderOf(sender), sent) && |sent| < TWO63 && Increasing(idx, |sent|)
    ensures var es := Delivered(sent, idx);
      UntilTimeout(es) == es && InOrder(DecoderOf(receiver), es) && |es| == |idx| <= |sent|
  {
    var es := Delivered(sent, idx);
    NoTimeout(es);
    IncreasingShort(idx, |sent|);
    forall k | 0 <= k < |idx|
      ensures WholePayload(es[k]) && DecoderOf(receiver)(es[k].bytes) == idx[k]
    {
      PayloadId(sender, receiver, idx[k]);
    }
  }

  /** The packets of the first n that a channel does not lose. */
  function Survivors(n: nat, lost: nat -> bool): (idx: seq<int>)
    ensures |idx| <= n
  {
    if n == 0 then [] else Survivors(n - 1, lost) + if lost(n - 1) then [] else [n - 1]
  }

  lemma {:induction false} SurvivorsIncreasing(n: nat, lost: nat -> bool)
    ensures Increasing(Survivors(n, lost), n)
    ensures (forall k :: 0 <= k < n ==> !lost(k)) ==> |Survivors(n, lost)| == n
  {
    if n > 0 {
      SurvivorsIncreasing(n - 1, lost);
    }
  }

  /** The receive loop meets the packets delivered, and then nothing more. */
  lemma TimeoutAtEnd(es: seq<Event>)
    requires forall i :: 0 <= i < |es| ==> !es[i].PollTimeout?
    ensures UntilTimeout(es + [PollTimeout]) == es
  {
    var events := es + [PollTimeout];
    assert events[..|es|] == es;
    UntilTimeoutAt(events, |es|);
  }

  lemma FewPackets(n: nat, delay: uint32, time2run: uint32)
    requires delay > 0 && n * delay < (time2run + 1) * 1000
    ensures n < TWO63
  {
    MulMonotone(1, delay, n);
  }

  /**
   * Both calls over a channel that loses packets but keeps their order, between hosts of any byte orders: the receiver
   * never reports an error and returns the number delivered, which is at most what the sender returns, and exactly
   * that when nothing is lost and all was sent.
   */
  method Exchange(sender: HostOrder, receiver: HostOrder, delay: uint32, time2run: uint32, clock: nat -> int,
                  sendRc: nat -> int, lost: nat -> bool, ghost last: nat)
    returns (sendResult: int, recvResult: int, ghost sent: seq<Sent>)
    requires Passes(clock, last, delay, time2run) && (delay > 0 || last < TWO63)
    ensures Numbered(EncoderOf(sender), sent) && AllSent(sendRc, |sent|)
    ensures sendResult == |sent| || (sendResult == -1 && sendRc(|sent|) != PAYLOAD_LEN)
    ensures recvResult == |Survivors(|sent|, lost)| <= |sent|
    ensures sendResult >= 0 ==> 0 <= recvResult <= sendResult
    ensures (forall k :: 0 <= k < |sent| ==> !lost(k)) ==> recvResult == |sent|
  {
    var packets, calls;
    sendResult, packets, calls := SendPktsExactDelay(sender, delay, time2run, clock, sendRc, last);
    sent := packets;
    if delay > 0 {
      FewPackets(|packets|, delay, time2run);
    }
    var idx := Survivors(|packets|, lost);
    SurvivorsIncreasing(|packets|, lost);
    LossyChannel(sender, receiver, packets, idx);
    TimeoutAtEnd(Delivered(packets, idx));
    recvResult := RecvPktsExactDelay(receiver, Delivered(packets, idx) + [PollTimeout]);
  }

  /** A duplicated or reordered packet anywhere, or a number of 64 bits, is caught: only increasing numbers pass. */
  lemma DisorderCaught(sender: HostOrder, receiver: HostOrder, ids: seq<uint64>)
    ensures InOrder(DecoderOf(receiver),
                    seq(|ids|, k requires 0 <= k < |ids| => Datagram(EncoderOf(sender)(ids[k]))))
      <==> Increasing(ids, TWO63)
  {
    var es := seq(|ids|, k requires 0 <= k < |ids| => Datagram(EncoderOf(sender)(ids[k])));
    forall k | 0 <= k < |ids|
      ensures WholePayload(es[k]) && DecoderOf(receiver)(es[k].bytes) == ids[k]
    {
      PayloadId(sender, receiver, ids[k]);
    }
    if forall k :: 0 < k < |ids| ==> ids[k - 1] < ids[k] {
      StepwiseSorted(ids);
    }
  }

  lemma {:induction false} StepwiseSorted(ids: seq<uint64>)
    requires forall k :: 0 < k < |ids| ==> ids[k - 1] < ids[k]
    ensures forall j, k :: 0 <= j < k < |ids| ==> ids[j] < ids[k]
  {
    if ids != [] {
      StepwiseSorted(ids[..|ids| - 1]);
      if |ids| > 1 {
        assert ids[|ids| - 2] < ids[|ids| - 1];
      }
    }
  }
}
