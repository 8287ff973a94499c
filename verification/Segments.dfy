/**
 * TCP segments on the wire (sequence number modulo 2^32), the stretches of the byte stream they stand for, and
 * their splitting by MSS.
 */
module Segments {
  import opened Common
  import opened SeqNum

  /** A segment as captured: 32-bit sequence number and payload length. */
  datatype Seg = Seg(seqn: uint32, len: uint32)

  /** The same segment on the unbounded byte stream. */
  datatype Span = Span(start: int, len: uint32)

  function Wire(l: Span): Seg {
    Seg(Wrap(l.start), l.len)
  }

  function Wires(ls: seq<Span>): seq<Seg> {
    seq(|ls|, i requires 0 <= i < |ls| => Wire(ls[i]))
  }

  /** A captured packet; reading its sequence number or its payload length may fail. */
  datatype Packet = NoSeqn | NoLength | Data(seg: Seg)

  function Packets(ls: seq<Span>): seq<Packet> {
    seq(|ls|, i requires 0 <= i < |ls| => Data(Wire(ls[i])))
  }

  /** All the bytes lie in one window of less than 2^31 bytes. */
  predicate InWindow(ls: seq<Span>, lo: int) {
    forall l :: l in ls ==> lo <= l.start && l.start + l.len < lo + TWO31
  }

  lemma SameMembers(ls: seq<Span>, ms: seq<Span>)
    requires multiset(ls) == multiset(ms)
    ensures forall l :: l in ls <==> l in ms
    ensures |ls| == |ms|
  {
    assert |multiset(ls)| == |ls| && |multiset(ms)| == |ms|;
    assert forall l :: l in ls <==> l in multiset(ls);
    assert forall l :: l in ms <==> l in multiset(ms);
  }

  /** The sequence numbers of the bytes a segment carries, in order. */
  function Bytes(s: Seg): seq<uint32> {
    seq<uint32>(s.len, i => Wrap(s.seqn + i))
  }

  function BytesOf(segs: seq<Seg>): seq<uint32> {
    if segs == [] then [] else Bytes(segs[0]) + BytesOf(segs[1..])
  }

  function Min(a: int, b: int): int {
    if a <= b then a else b
  }

  /** How many chunks of at most m bytes are needed for n bytes. */
  function CeilDiv(n: nat, m: int): nat
    requires m > 0
  {
    (n + m - 1) / m
  }

  // ---------------------------------------------------------------- splitting by MSS

  function Split(s: Seg, mss: uint32): seq<Seg>
    requires mss > 0
    decreases s.len
  {
    if s.len == 0 then []
    else if s.len <= mss then [s]
    else [Seg(s.seqn, mss)] + Split(Seg(Add32(s.seqn, mss), s.len - mss), mss)
  }

  function SplitAll(segs: seq<Seg>, mss: uint32): seq<Seg>
    requires mss > 0
  {
    if segs == [] then [] else SplitAll(segs[..|segs| - 1], mss) + Split(segs[|segs| - 1], mss)
  }

  /** Number of chunks a list of segments is split into. */
  function ChunkCount(segs: seq<Seg>, mss: uint32): nat
    requires mss > 0
  {
    if segs == [] then 0 else ChunkCount(segs[..|segs| - 1], mss) + CeilDiv(segs[|segs| - 1].len, mss)
  }

  lemma CeilDivStep(n: int, m: int)
    requires 0 < m < n
    ensures CeilDiv(n, m) == CeilDiv(n - m, m) + 1
  {
    var q := (n - 1) / m;
    assert n - 1 == q * m + (n - 1) % m;
    assert n - m + m - 1 == n - 1;
    assert n + m - 1 == (q + 1) * m + (n - 1) % m;
    DivUnique(n + m - 1, m, q + 1, (n - 1) % m);
  }

  lemma DivUnique(n: int, m: int, q: int, r: int)
    requires m > 0 && 0 <= r < m && n == q * m + r
    ensures n / m == q && n % m == r
  {
    var d := n / m - q;
    assert n == n / m * m + n % m;
    assert d * m == r - n % m;
    MulSign(d, m);
  }

  lemma MulSign(d: int, m: int)
    requires m > 0
    ensures d >= 1 ==> d * m >= m
    ensures d <= -1 ==> d * m <= -m
  {
    if d >= 1 {
      assert (d - 1) * m >= 0;
    } else if d <= -1 {
      assert (-d - 1) * m >= 0;
    }
  }

  lemma Shift(q: uint32, m: uint32, x: int)
    ensures Wrap(Add32(q, m) + x) == Wrap(q + m + x)
  {
    Arithmetic32(q, m);
    WrapAdd(q + m, x);
  }

  lemma {:induction false} SplitCount(s: Seg, mss: uint32)
    requires mss > 0
    ensures |Split(s, mss)| == CeilDiv(s.len, mss)
    ensures forall k :: 0 <= k < |Split(s, mss)| ==> 1 <= Split(s, mss)[k].len <= mss
    ensures forall k :: 0 <= k < |Split(s, mss)| - 1 ==> Split(s, mss)[k].len == mss
    decreases s.len
  {
    if s.len == 0 {
      DivUnique(mss - 1, mss, 0, mss - 1);
    } else if s.len <= mss {
      DivUnique(s.len + mss - 1, mss, 1, s.len - 1);
    } else {
      SplitCount(Seg(Add32(s.seqn, mss), s.len - mss), mss);
      CeilDivStep(s.len, mss);
    }
  }

  /** Chunk k of a segment starts k * mss bytes into it, and is full unless the segment ends first. */
  lemma {:induction false} SplitChunk(s: Seg, mss: uint32, k: nat)
    requires mss > 0 && k < |Split(s, mss)|
    ensures k * mss < s.len
    ensures Split(s, mss)[k] == Seg(Wrap(s.seqn + k * mss), Min(mss, s.len - k * mss))
    decreases k
  {
    if k == 0 {
      assert k * mss == 0;
    } else {
      var rest := Seg(Add32(s.seqn, mss), s.len - mss);
      assert Split(s, mss)[k] == Split(rest, mss)[k - 1];
      SplitChunk(rest, mss, k - 1);
      assert (k - 1) * mss + mss == k * mss;
      Shift(s.seqn, mss, (k - 1) * mss);
    }
  }

  lemma {:induction false} SplitAllCount(segs: seq<Seg>, mss: uint32)
    requires mss > 0
    ensures |SplitAll(segs, mss)| == ChunkCount(segs, mss)
    ensures forall c :: c in SplitAll(segs, mss) ==> 1 <= c.len <= mss
  {
    if segs != [] {
      var s := segs[|segs| - 1];
      SplitAllCount(segs[..|segs| - 1], mss);
      SplitCount(s, mss);
    }
  }

  lemma {:induction false} BytesOfConcat(a: seq<Seg>, b: seq<Seg>)
    ensures BytesOf(a + b) == BytesOf(a) + BytesOf(b)
  {
    if a == [] {
      assert a + b == b;
    } else {
      assert (a + b)[1..] == a[1..] + b;
      BytesOfConcat(a[1..], b);
    }
  }

  lemma BytesCut(s: Seg, n: uint32)
    requires n <= s.len
    ensures Bytes(s) == Bytes(Seg(s.seqn, n)) + Bytes(Seg(Add32(s.seqn, n), s.len - n))
  {
    var rest := Seg(Add32(s.seqn, n), s.len - n);
    forall i | 0 <= i < rest.len ensures Bytes(rest)[i] == Bytes(s)[n + i] {
      Shift(s.seqn, n, i);
    }
  }

  lemma BytesOfOne(s: Seg)
    ensures BytesOf([s]) == Bytes(s)
  {
    assert [s][1..] == [];
  }

  lemma {:induction false} SplitBytes(s: Seg, mss: uint32)
    requires mss > 0
    ensures BytesOf(Split(s, mss)) == Bytes(s)
    decreases s.len
  {
    if s.len == 0 {
    } else if s.len <= mss {
      BytesOfOne(s);
    } else {
      var rest := Seg(Add32(s.seqn, mss), s.len - mss);
      SplitBytes(rest, mss);
      assert Split(s, mss)[1..] == Split(rest, mss);
      BytesCut(s, mss);
    }
  }

  /** Splitting moves no byte: the payload bytes, in order, are the same before and after. */
  lemma {:induction false} SplitAllBytes(segs: seq<Seg>, mss: uint32)
    requires mss > 0
    ensures BytesOf(SplitAll(segs, mss)) == BytesOf(segs)
  {
    if segs != [] {
      var init, s := segs[..|segs| - 1], segs[|segs| - 1];
      SplitAllBytes(init, mss);
      SplitBytes(s, mss);
      BytesOfConcat(SplitAll(init, mss), Split(s, mss));
      assert segs == init + [s];
      BytesOfConcat(init, [s]);
      BytesOfOne(s);
    }
  }

  lemma {:induction false} SplitAllConcat(a: seq<Seg>, b: seq<Seg>, mss: uint32)
    requires mss > 0
    ensures SplitAll(a + b, mss) == SplitAll(a, mss) + SplitAll(b, mss)
  {
    if b == [] {
      assert a + b == a;
    } else {
      var init := b[..|b| - 1];
      assert (a + b)[..|a + b| - 1] == a + init;
      SplitAllConcat(a, init, mss);
    }
  }

  /** A segment longer than p = n * mss bytes splits into the chunks of its first p bytes and those of the rest. */
  lemma {:induction false} SplitPrefix(s: Seg, p: nat, n: nat, mss: uint32)
    requires mss > 0 && p == n * mss <= s.len
    ensures Split(s, mss) == Split(Seg(s.seqn, p), mss) + Split(Seg(Add32(s.seqn, p), s.len - p), mss)
    decreases n
  {
    if n > 0 {
      assert p - mss == (n - 1) * mss && p >= mss by { MulSign(n, mss); }
      if s.len > mss {
        var rest := Seg(Add32(s.seqn, mss), s.len - mss);
        SplitPrefix(rest, p - mss, n - 1, mss);
        assert Seg(Add32(rest.seqn, p - mss), rest.len - (p - mss)) == Seg(Add32(s.seqn, p), s.len - p);
      }
    }
  }

  lemma {:induction false} SplitCompose(s: Seg, q: nat, mss: uint32, mss': uint32)
    requires mss > 0 && mss' > 0 && mss == q * mss'
    ensures SplitAll(Split(s, mss), mss') == Split(s, mss')
    decreases s.len
  {
    if s.len == 0 {
    } else if s.len <= mss {
      assert [s][..0] == [];
    } else {
      var rest := Seg(Add32(s.seqn, mss), s.len - mss);
      var head := [Seg(s.seqn, mss)];
      SplitAllConcat(head, Split(rest, mss), mss');
      assert head[..0] == [];
      SplitCompose(rest, q, mss, mss');
      SplitPrefix(s, mss, q, mss');
    }
  }

  /**
   * Splitting by a multiple first changes nothing: with mss' dividing mss, splitting by mss and then by mss' is
   * splitting by mss'.
   */
  lemma {:induction false} SplitAllCompose(segs: seq<Seg>, q: nat, mss: uint32, mss': uint32)
    requires mss > 0 && mss' > 0 && mss == q * mss'
    ensures SplitAll(SplitAll(segs, mss), mss') == SplitAll(segs, mss')
  {
    if segs != [] {
      var init, s := segs[..|segs| - 1], segs[|segs| - 1];
      SplitAllCompose(init, q, mss, mss');
      SplitAllConcat(SplitAll(init, mss), Split(s, mss), mss');
      SplitCompose(s, q, mss, mss');
    }
  }

  lemma SplitAllIdempotent(segs: seq<Seg>, mss: uint32)
    requires mss > 0
    ensures SplitAll(SplitAll(segs, mss), mss) == SplitAll(segs, mss)
  {
    SplitAllCompose(segs, 1, mss, mss);
  }

  // ---------------------------------------------------------------- where short chunks may be

  predicate AllFull(segs: seq<Seg>, mss: uint32) {
    forall k :: 0 <= k < |segs| ==> segs[k].len == mss
  }

  predicate FullButLast(segs: seq<Seg>, mss: uint32) {
    forall k :: 0 <= k < |segs| - 1 ==> segs[k].len == mss
  }

  predicate Divisible(n: nat, m: int)
    requires m > 0
  {
    n % m == 0
  }

  lemma ModStep(n: int, m: int)
    requires 0 < m <= n
    ensures (n - m) % m == n % m
  {
    var q, r := (n - m) / m, (n - m) % m;
    assert n - m == q * m + r;
    assert (q + 1) * m == q * m + m;
    DivUnique(n, m, q + 1, r);
  }

  lemma {:induction false} SplitAllFull(s: Seg, mss: uint32)
    requires mss > 0
    ensures AllFull(Split(s, mss), mss) <==> Divisible(s.len, mss)
    decreases s.len
  {
    if s.len == 0 {
      DivUnique(0, mss, 0, 0);
    } else if s.len < mss {
      DivUnique(s.len, mss, 0, s.len);
      assert Split(s, mss)[0].len != mss;
    } else if s.len == mss {
      DivUnique(mss, mss, 1, 0);
    } else {
      var rest := Seg(Add32(s.seqn, mss), s.len - mss);
      var head := [Seg(s.seqn, mss)];
      SplitAllFull(rest, mss);
      ModStep(s.len, mss);
      AllFullConcat(head, Split(rest, mss), mss);
    }
  }

  lemma AllFullConcat(a: seq<Seg>, b: seq<Seg>, mss: uint32)
    ensures AllFull(a + b, mss) <==> AllFull(a, mss) && AllFull(b, mss)
    ensures b != [] ==> (FullButLast(a + b, mss) <==> AllFull(a, mss) && FullButLast(b, mss))
  {
    var c := a + b;
    assert forall k :: 0 <= k < |a| ==> a[k] == c[k];
    assert forall k :: 0 <= k < |b| ==> b[k] == c[|a| + k];
  }

  lemma {:induction false} SplitsAllFull(segs: seq<Seg>, mss: uint32)
    requires mss > 0
    ensures AllFull(SplitAll(segs, mss), mss) <==> forall i :: 0 <= i < |segs| ==> Divisible(segs[i].len, mss)
  {
    if segs != [] {
      var n := |segs| - 1;
      SplitsAllFull(segs[..n], mss);
      SplitAllFull(segs[n], mss);
      AllFullConcat(SplitAll(segs[..n], mss), Split(segs[n], mss), mss);
      assert forall i :: 0 <= i < n ==> segs[..n][i] == segs[i];
    }
  }

  /** The place of the last segment that is not empty, or -1. */
  function LastWithData(segs: seq<Seg>): (n: int)
    ensures -1 <= n < |segs|
    ensures n >= 0 ==> segs[n].len > 0
    ensures forall i :: n < i < |segs| ==> segs[i].len == 0
  {
    if segs == [] then -1
    else if segs[|segs| - 1].len > 0 then |segs| - 1
    else LastWithData(segs[..|segs| - 1])
  }

  lemma FullBeforeLast(segs: seq<Seg>, mss: uint32)
    requires mss > 0 && segs != [] && segs[|segs| - 1].len > 0
    ensures FullButLast(SplitAll(segs, mss), mss) <==> forall i :: 0 <= i < |segs| - 1 ==> Divisible(segs[i].len, mss)
  {
    var n := |segs| - 1;
    SplitsAllFull(segs[..n], mss);
    SplitCount(segs[n], mss);
    assert Split(segs[n], mss) != [];
    AllFullConcat(SplitAll(segs[..n], mss), Split(segs[n], mss), mss);
    assert forall i :: 0 <= i < n ==> segs[..n][i] == segs[i];
  }

  /**
   * All chunks but the very last are full if and only if every segment, except for the last one with data, is a
   * multiple of the MSS long.
   */
  lemma {:induction false} FullButLastIff(segs: seq<Seg>, mss: uint32)
    requires mss > 0
    ensures FullButLast(SplitAll(segs, mss), mss)
      <==> forall i :: 0 <= i < |segs| && i != LastWithData(segs) ==> Divisible(segs[i].len, mss)
  {
    if segs != [] {
      var n := |segs| - 1;
      assert forall i :: 0 <= i < n ==> segs[..n][i] == segs[i];
      if segs[n].len > 0 {
        FullBeforeLast(segs, mss);
      } else {
        FullButLastIff(segs[..n], mss);
        assert SplitAll(segs, mss) == SplitAll(segs[..n], mss);
        DivUnique(0, mss, 0, 0);
      }
    }
  }

  // ---------------------------------------------------------------- tiling of the byte stream

  /** The spans follow one another without gap or overlap from a to b. */
  predicate Tiles(ls: seq<Span>, a: int, b: int) {
    if ls == [] then a == b
    else ls[|ls| - 1].start + ls[|ls| - 1].len == b && Tiles(ls[..|ls| - 1], a, ls[|ls| - 1].start)
  }

  lemma {:induction false} TilesConcat(ls: seq<Span>, ms: seq<Span>, a: int, b: int, c: int)
    requires Tiles(ls, a, b) && Tiles(ms, b, c)
    ensures Tiles(ls + ms, a, c)
  {
    if ms == [] {
      assert ls + ms == ls;
    } else {
      var init, m := ms[..|ms| - 1], ms[|ms| - 1];
      TilesConcat(ls, init, a, b, m.start);
      assert (ls + ms)[..|ls + ms| - 1] == ls + init;
    }
  }

  /** In a tiling every span lies in the range and spans come in stream order; the outer ends are reached. */
  lemma {:induction false} TilesOrdered(ls: seq<Span>, a: int, b: int)
    requires Tiles(ls, a, b)
    ensures a <= b
    ensures forall i :: 0 <= i < |ls| ==> a <= ls[i].start && ls[i].start + ls[i].len <= b
    ensures forall i, j :: 0 <= i < j < |ls| ==> ls[i].start + ls[i].len <= ls[j].start
    ensures ls != [] ==> ls[0].start == a && ls[|ls| - 1].start + ls[|ls| - 1].len == b
  {
    if ls != [] {
      TilesOrdered(ls[..|ls| - 1], a, ls[|ls| - 1].start);
    }
  }

  /** The maximal segmentation of one span: full chunks and then the rest. */
  function SplitSpan(l: Span, mss: uint32): seq<Span>
    requires mss > 0
    decreases l.len
  {
    if l.len == 0 then []
    else if l.len <= mss then [l]
    else [Span(l.start, mss)] + SplitSpan(Span(l.start + mss, l.len - mss), mss)
  }

  lemma {:induction false} SplitSpanTiles(l: Span, mss: uint32)
    requires mss > 0
    ensures Tiles(SplitSpan(l, mss), l.start, l.start + l.len)
    ensures forall i :: 0 <= i < |SplitSpan(l, mss)| ==> 1 <= SplitSpan(l, mss)[i].len <= mss
    ensures forall i :: 0 <= i < |SplitSpan(l, mss)| - 1 ==> SplitSpan(l, mss)[i].len == mss
    decreases l.len
  {
    if l.len == 0 {
    } else if l.len <= mss {
      assert [l][..0] == [];
    } else {
      var rest := Span(l.start + mss, l.len - mss);
      var head := [Span(l.start, mss)];
      SplitSpanTiles(rest, mss);
      assert head[..0] == [];
      TilesConcat(head, SplitSpan(rest, mss), l.start, l.start + mss, l.start + l.len);
    }
  }

  lemma {:induction false} SplitWire(l: Span, mss: uint32)
    requires mss > 0
    ensures Wires(SplitSpan(l, mss)) == Split(Wire(l), mss)
    decreases l.len
  {
    if mss < l.len {
      SplitWire(Span(l.start + mss, l.len - mss), mss);
      WrapAdd(l.start, mss);
    }
  }

  /** Splitting segments that tile a range gives chunks of 1 to mss bytes that tile the same range. */
  lemma {:induction false} SplitAllTiles(ls: seq<Span>, mss: uint32, a: int, b: int) returns (ms: seq<Span>)
    requires mss > 0 && Tiles(ls, a, b)
    ensures Tiles(ms, a, b) && Wires(ms) == SplitAll(Wires(ls), mss)
    ensures forall m :: m in ms ==> 1 <= m.len <= mss
  {
    if ls == [] {
      ms := [];
    } else {
      var init, l := ls[..|ls| - 1], ls[|ls| - 1];
      var ns := SplitAllTiles(init, mss, a, l.start);
      SplitSpanTiles(l, mss);
      SplitWire(l, mss);
      ms := ns + SplitSpan(l, mss);
      TilesConcat(ns, SplitSpan(l, mss), a, l.start, b);
      assert Wires(ls)[..|ls| - 1] == Wires(init);
      assert Wires(ms) == Wires(ns) + Wires(SplitSpan(l, mss));
    }
  }
}
