/**
 * The packet number carried in the payload: written by the sender in talib_net_drv_ts/rpc.c, read back by get_pkt_id()
 * of the receive coalescing tests.
 */
module PacketId {
  import opened Common

  type byte = x: int | 0 <= x < 256

  datatype HostOrder = LittleEndian | BigEndian

  const ID_LEN: int := 8
  const END_MARKER: byte := 0xff

  // ---------------------------------------------------------------- numbers and bytes

  function Pow256(n: nat): nat {
    if n == 0 then 1 else 256 * Pow256(n - 1)
  }

  /** The last n base-256 digits of v, most significant first. */
  function ToBytes(v: nat, n: nat): seq<byte>
    ensures |ToBytes(v, n)| == n
  {
    if n == 0 then [] else ToBytes(v / 256, n - 1) + [v % 256]
  }

  function FromBytes(bs: seq<byte>): nat {
    if bs == [] then 0 else 256 * FromBytes(bs[..|bs| - 1]) + bs[|bs| - 1]
  }

  lemma {:induction false} FromToBytes(v: nat, n: nat)
    requires v < Pow256(n)
    ensures FromBytes(ToBytes(v, n)) == v
  {
    if n > 0 {
      FromToBytes(v / 256, n - 1);
      assert ToBytes(v, n)[..n - 1] == ToBytes(v / 256, n - 1);
    }
  }

  lemma {:induction false} ToFromBytes(bs: seq<byte>)
    ensures FromBytes(bs) < Pow256(|bs|)
    ensures ToBytes(FromBytes(bs), |bs|) == bs
  {
    if bs != [] {
      var init := bs[..|bs| - 1];
      ToFromBytes(init);
      assert FromBytes(bs) / 256 == FromBytes(init);
      assert FromBytes(bs) % 256 == bs[|bs| - 1];
    }
  }

  lemma Pow256Is64Bit()
    ensures Pow256(ID_LEN) == TWO64
  {
    assert Pow256(4) == TWO32 by {
      assert Pow256(2) == 65536;
    }
    assert Pow256(6) == TWO32 * 65536;
  }

  function Reverse(bs: seq<byte>): (r: seq<byte>)
    ensures |r| == |bs|
    ensures forall i :: 0 <= i < |bs| ==> r[i] == bs[|bs| - 1 - i]
  {
    seq(|bs|, i requires 0 <= i < |bs| => bs[|bs| - 1 - i])
  }

  // ---------------------------------------------------------------- the host and the wire

  /** Memory image of a 64-bit number. */
  function Store(h: HostOrder, v: uint64): (bs: seq<byte>)
    ensures |bs| == ID_LEN
  {
    if h == BigEndian then ToBytes(v, ID_LEN) else Reverse(ToBytes(v, ID_LEN))
  }

  /** The 64-bit number at a place in memory. */
  function Load(h: HostOrder, bs: seq<byte>): uint64
    requires |bs| == ID_LEN
  {
    Pow256Is64Bit();
    ToFromBytes(bs);
    ToFromBytes(Reverse(bs));
    if h == BigEndian then FromBytes(bs) else FromBytes(Reverse(bs))
  }

  /** bswap_64(): the number with its bytes in the opposite order. */
  function Bswap(v: uint64): uint64 {
    Pow256Is64Bit();
    ToFromBytes(Reverse(ToBytes(v, ID_LEN)));
    FromBytes(Reverse(ToBytes(v, ID_LEN)))
  }

  /** The bytes are swapped when htonl(1) is not 1, that is on a little-endian host. */
  function SwapIfRequired(h: HostOrder, v: uint64): uint64 {
    if h == LittleEndian then Bswap(v) else v
  }

  /** The packed payload structure: the number and the end marker. */
  function Payload(h: HostOrder, id: uint64): seq<byte> {
    Store(h, SwapIfRequired(h, id)) + [END_MARKER]
  }

  /** Index of the last non-zero byte, or -1. */
  function LastNonZero(buf: seq<byte>): (r: int)
    ensures -1 <= r < |buf|
    ensures r >= 0 ==> buf[r] != 0
    ensures forall j :: r < j < |buf| ==> buf[j] == 0
  {
    if buf == [] then -1
    else if buf[|buf| - 1] != 0 then |buf| - 1
    else LastNonZero(buf[..|buf| - 1])
  }

  function Decode(h: HostOrder, buf: seq<byte>): Option<uint64> {
    var i := LastNonZero(buf);
    if i < ID_LEN then None else Some(SwapIfRequired(h, Load(h, buf[i - ID_LEN..i])))
  }

  /** Reading the number from the payload of a captured packet, which may not be available. */
  method GetPktId(h: HostOrder, payload: Option<seq<byte>>) returns (id: Option<uint64>)
    ensures id == if payload.Some? then Decode(h, payload.value) else None
  {
    if payload.None? { return None; }
    var buf := payload.value;
    var i := |buf| - 1;
    while i >= 0 && buf[i] == 0
      invariant -1 <= i < |buf|
      invariant forall j :: i < j < |buf| ==> buf[j] == 0
    {
      i := i - 1;
    }
    assert i == LastNonZero(buf);
    if i < ID_LEN { return None; }
    var v := Load(h, buf[i - ID_LEN..i]);
    if h == LittleEndian {
      v := Bswap(v);
    }
    return Some(v);
  }

  // ---------------------------------------------------------------- the codec

  lemma ReverseTwice(bs: seq<byte>)
    ensures Reverse(Reverse(bs)) == bs
  {
  }

  /** On the wire the number is big-endian, whatever the sending host is, and the end marker follows it. */
  lemma PayloadIsBigEndian(h: HostOrder, id: uint64)
    ensures var p := Payload(h, id);
      |p| == 9 == ID_LEN + 1 && FromBytes(p[..ID_LEN]) == id && p[ID_LEN] == 0xff
  {
    Pow256Is64Bit();
    FromToBytes(id, ID_LEN);
    if h == LittleEndian {
      var r := Reverse(ToBytes(id, ID_LEN));
      ToFromBytes(r);
      ReverseTwice(ToBytes(id, ID_LEN));
    }
    assert Payload(h, id)[..ID_LEN] == Store(h, SwapIfRequired(h, id));
  }

  lemma LoadIsBigEndian(h: HostOrder, bs: seq<byte>)
    requires |bs| == ID_LEN
    ensures SwapIfRequired(h, Load(h, bs)) == FromBytes(bs)
  {
    if h == LittleEndian {
      ToFromBytes(Reverse(bs));
      ReverseTwice(bs);
    }
  }

  function Zeros(n: nat): seq<byte> {
    seq<byte>(n, i => 0)
  }

  /** A frame that holds a number: anything, the bytes of the number, one more byte and padding. */
  function Frame(prefix: seq<byte>, number: seq<byte>, mark: byte, pad: nat): seq<byte> {
    prefix + number + [mark] + Zeros(pad)
  }

  lemma LastNonZeroAt(buf: seq<byte>, i: nat)
    requires i < |buf| && buf[i] != 0 && forall j :: i < j < |buf| ==> buf[j] == 0
    ensures LastNonZero(buf) == i
  {
  }

  lemma FrameShape(prefix: seq<byte>, number: seq<byte>, mark: byte, pad: nat)
    ensures var buf, i := Frame(prefix, number, mark, pad), |prefix| + |number|;
      && |buf| == i + 1 + pad && buf[|prefix|..i] == number && buf[i] == mark
      && forall j :: i < j < |buf| ==> buf[j] == 0
  {
  }

  lemma DecodeAt(h: HostOrder, buf: seq<byte>, i: nat)
    requires ID_LEN <= i < |buf| && buf[i] != 0 && forall j :: i < j < |buf| ==> buf[j] == 0
    ensures Decode(h, buf) == Some(FromBytes(buf[i - ID_LEN..i]))
  {
    LastNonZeroAt(buf, i);
    LoadIsBigEndian(h, buf[i - ID_LEN..i]);
  }

  lemma DecodeFrame(h: HostOrder, prefix: seq<byte>, number: seq<byte>, mark: byte, pad: nat)
    requires mark != 0 && |number| == ID_LEN
    ensures Decode(h, Frame(prefix, number, mark, pad)) == Some(FromBytes(number))
  {
    FrameShape(prefix, number, mark, pad);
    DecodeAt(h, Frame(prefix, number, mark, pad), |prefix| + ID_LEN);
  }

  lemma FrameOfPayload(p: seq<byte>, pad: nat)
    requires |p| == ID_LEN + 1
    ensures p + Zeros(pad) == Frame([], p[..ID_LEN], p[ID_LEN], pad)
  {
    assert p == [] + p[..ID_LEN] + [p[ID_LEN]];
  }

  lemma PaddedPayload(h: HostOrder, p: seq<byte>, pad: nat)
    requires |p| == ID_LEN + 1 && p[ID_LEN] != 0
    ensures Decode(h, p + Zeros(pad)) == Some(FromBytes(p[..ID_LEN]))
  {
    DecodeFrame(h, [], p[..ID_LEN], p[ID_LEN], pad);
    FrameOfPayload(p, pad);
  }

  /**
   * Round trip: for every 64-bit number, whatever the byte orders of the two hosts and however many zero bytes pad the
   * Ethernet frame, the receiver reads the number the sender wrote.
   */
  lemma RoundTrip(sender: HostOrder, receiver: HostOrder, id: uint64, pad: nat)
    ensures Decode(receiver, Payload(sender, id) + Zeros(pad)) == Some(id)
  {
    PayloadIsBigEndian(sender, id);
    PaddedPayload(receiver, Payload(sender, id), pad);
  }

  lemma FrameOfDecoded(h: HostOrder, buf: seq<byte>)
    returns (prefix: seq<byte>, number: seq<byte>, mark: byte, pad: nat)
    requires Decode(h, buf).Some?
    ensures mark != 0 && |number| == ID_LEN && buf == Frame(prefix, number, mark, pad)
    ensures Decode(h, buf) == Some(FromBytes(number))
  {
    var i := LastNonZero(buf);
    prefix, number, mark, pad := buf[..i - ID_LEN], buf[i - ID_LEN..i], buf[i], |buf| - 1 - i;
    LoadIsBigEndian(h, number);
    assert buf[i + 1..] == Zeros(pad);
  }

  /** Reading succeeds exactly on frames that hold a number before their last non-zero byte, and reads that number. */
  lemma DecodeExact(h: HostOrder, buf: seq<byte>, id: uint64)
    ensures Decode(h, buf) == Some(id)
      <==> exists prefix: seq<byte>, number: seq<byte>, mark: byte, pad: nat ::
        mark != 0 && |number| == ID_LEN && FromBytes(number) == id && buf == Frame(prefix, number, mark, pad)
  {
    if Decode(h, buf) == Some(id) {
      var prefix, number, mark, pad := FrameOfDecoded(h, buf);
      assert FromBytes(number) == id && buf == Frame(prefix, number, mark, pad);
    }
    forall prefix: seq<byte>, number: seq<byte>, mark: byte, pad: nat
      | mark != 0 && |number| == ID_LEN && FromBytes(number) == id && buf == Frame(prefix, number, mark, pad)
      ensures Decode(h, buf) == Some(id)
    {
      DecodeFrame(h, prefix, number, mark, pad);
    }
  }

  /** Without the marker a number ending in a zero byte would be lost in the padding: 256 would read as nothing. */
  lemma MarkerNeeded(h: HostOrder, pad: nat)
    ensures Decode(h, ToBytes(256, ID_LEN) + Zeros(pad)) == None
  {
    var bs := ToBytes(256, ID_LEN);
    assert bs[7] == 0 && bs[..7] == ToBytes(1, 7);
    var buf := bs + Zeros(pad);
    assert forall j :: 7 <= j < |buf| ==> buf[j] == 0;
  }
}
