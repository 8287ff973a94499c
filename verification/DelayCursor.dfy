/**
 * The cursor into the numbers of packets sent after too long a delay, which finish_pkt_group() advances in both receive
 * coalescing tests (net-drv-ts/rx_path/rx_coalesce_usecs.c and rx_coalesce_frames.c).
 */
module DelayCursor {
  import opened Common

  /** A 64-bit number read into a 32-bit variable: the remainder modulo 2^32. */
  function Low32(x: uint64): uint32 {
    if x < TWO32 then x else Low32(x - TWO32)
  }

  lemma {:induction false} Low32IsWrap(x: uint64)
    ensures Low32(x) == Wrap(x)
  {
    if x >= TWO32 {
      Low32IsWrap(x - TWO32);
    }
  }

  /** The first index from i on whose number, read into a 32-bit variable, exceeds id. */
  function FirstAbove(delayed: seq<uint64>, i: nat, id: uint64): (r: nat)
    ensures i <= r && (i <= |delayed| ==> r <= |delayed|)
    decreases |delayed| - i
  {
    if i >= |delayed| || Low32(delayed[i]) > id then i else FirstAbove(delayed, i + 1, id)
  }

  /** Closing a group at the packet numbered id: is the group ignored, and where the cursor goes. */
  function Close(delayed: seq<uint64>, cur: nat, id: uint64): (r: (bool, nat))
    ensures cur <= r.1 && (cur <= |delayed| ==> r.1 <= |delayed|)
  {
    if cur < |delayed| && id >= Low32(delayed[cur]) then (true, FirstAbove(delayed, cur + 1, id)) else (false, cur)
  }

  method SkipDelayed(delayed: seq<uint64>, cur: nat, id: uint64) returns (skip: bool, next: nat)
    ensures (skip, next) == Close(delayed, cur, id)
  {
    skip, next := false, cur;
    if cur < |delayed| {
      var txPktId := Low32(delayed[cur]);
      if id >= txPktId {
        skip, next := true, next + 1;
        while next < |delayed|
          invariant cur < next <= |delayed|
          invariant FirstAbove(delayed, next, id) == FirstAbove(delayed, cur + 1, id)
        {
          txPktId := Low32(delayed[next]);
          if txPktId > id {
            break;
          }
          next := next + 1;
        }
      }
    }
  }

  /** The cursor after groups were closed at packets numbered bs, in this order. */
  function Cursor(delayed: seq<uint64>, bs: seq<uint64>): (r: nat)
    ensures r <= |delayed|
  {
    if bs == [] then 0 else Close(delayed, Cursor(delayed, bs[..|bs| - 1]), bs[|bs| - 1]).1
  }

  /** Which of these groups were ignored. */
  function Skips(delayed: seq<uint64>, bs: seq<uint64>): (r: seq<bool>)
    ensures |r| == |bs|
  {
    if bs == [] then []
    else
      var init := bs[..|bs| - 1];
      Skips(delayed, init) + [Close(delayed, Cursor(delayed, init), bs[|bs| - 1]).0]
  }

  // ---------------------------------------------------------------- which groups should be ignored

  predicate Ascending(s: seq<int>) {
    forall i, j :: 0 <= i < j < |s| ==> s[i] <= s[j]
  }

  /** Some packet after number prev, up to and including number id, was sent late. */
  predicate Polluted(delayed: seq<uint64>, prev: int, id: int) {
    exists i :: 0 <= i < |delayed| && prev < delayed[i] <= id
  }

  /** The number that closed the group before group k; all numbers count for the first one. */
  function Before(bs: seq<uint64>, k: nat): int
    requires k <= |bs|
  {
    if k == 0 then -1 else bs[k - 1]
  }

  /** A group is ignored if and only if a late packet arrived in it. */
  ghost predicate Exact(delayed: seq<uint64>, bs: seq<uint64>) {
    forall k :: 0 <= k < |bs| ==> (Skips(delayed, bs)[k] <==> Polluted(delayed, Before(bs, k), bs[k]))
  }

  predicate Fit32(delayed: seq<uint64>) {
    forall i :: 0 <= i < |delayed| ==> delayed[i] < TWO32
  }

  lemma {:induction false} FirstAboveSorted(delayed: seq<uint64>, i: nat, id: uint64)
    requires i <= |delayed| && Fit32(delayed)
    ensures var r := FirstAbove(delayed, i, id);
      && (forall j :: i <= j < r ==> delayed[j] <= id) && (r < |delayed| ==> delayed[r] > id)
    decreases |delayed| - i
  {
    if i < |delayed| {
      assert Low32(delayed[i]) == delayed[i];
      if delayed[i] <= id {
        FirstAboveSorted(delayed, i + 1, id);
      }
    }
  }

  /**
   * The merge invariant: after a close at number b the cursor sits at the first late number above b, having passed
   * every late number up to b.
   */
  lemma {:induction false} CursorPosition(delayed: seq<uint64>, bs: seq<uint64>)
    requires Ascending(delayed) && Fit32(delayed) && Ascending(bs)
    ensures var c, b := Cursor(delayed, bs), Before(bs, |bs|);
      forall i :: 0 <= i < |delayed| ==> (i < c <==> delayed[i] <= b)
  {
    if bs != [] {
      var init, b := bs[..|bs| - 1], bs[|bs| - 1];
      CursorPosition(delayed, init);
      var c := Cursor(delayed, init);
      if c < |delayed| {
        assert Low32(delayed[c]) == delayed[c];
        if delayed[c] <= b {
          FirstAboveSorted(delayed, c + 1, b);
        }
      }
    }
  }

  lemma CursorNeverRetreats(delayed: seq<uint64>, bs: seq<uint64>, id: uint64)
    ensures Cursor(delayed, bs) <= Cursor(delayed, bs + [id])
  {
    assert (bs + [id])[..|bs|] == bs;
  }

  /** What the cursor position means for the next close. */
  lemma NextSkip(delayed: seq<uint64>, c: nat, prev: int, b: uint64)
    requires Ascending(delayed) && Fit32(delayed) && c <= |delayed|
    requires forall i :: 0 <= i < |delayed| ==> (i < c <==> delayed[i] <= prev)
    ensures Close(delayed, c, b).0 <==> Polluted(delayed, prev, b)
  {
    if c < |delayed| {
      assert Low32(delayed[c]) == delayed[c];
    }
  }

  /** Exactly the polluted groups are ignored. */
  lemma {:induction false} SkipsExact(delayed: seq<uint64>, bs: seq<uint64>)
    requires Ascending(delayed) && Fit32(delayed) && Ascending(bs)
    ensures Exact(delayed, bs)
  {
    forall k | 0 <= k < |bs|
      ensures Skips(delayed, bs)[k] <==> Polluted(delayed, Before(bs, k), bs[k])
    {
      SkipsAt(delayed, bs, k);
      CursorPosition(delayed, bs[..k]);
      assert Before(bs[..k], |bs[..k]|) == Before(bs, k);
      NextSkip(delayed, Cursor(delayed, bs[..k]), Before(bs, k), bs[k]);
    }
  }

  lemma {:induction false} SkipsAt(delayed: seq<uint64>, bs: seq<uint64>, k: nat)
    requires k < |bs|
    ensures Skips(delayed, bs)[k] == Close(delayed, Cursor(delayed, bs[..k]), bs[k]).0
  {
    if k < |bs| - 1 {
      SkipsAt(delayed, bs[..|bs| - 1], k);
      assert bs[..|bs| - 1][..k] == bs[..k];
    }
  }

  // ---------------------------------------------------------------- numbers that do not fit 32 bits

  lemma {:induction false} FirstAbovePasses(delayed: seq<uint64>, i: nat, k: nat, id: uint64)
    requires i <= k <= |delayed| && forall j :: i <= j < k ==> Low32(delayed[j]) <= id
    ensures FirstAbove(delayed, i, id) >= k
    decreases k - i
  {
    if i < k {
      FirstAbovePasses(delayed, i + 1, k, id);
    }
  }

  lemma CursorAppend(delayed: seq<uint64>, bs: seq<uint64>, b: uint64)
    ensures Cursor(delayed, bs + [b]) == Close(delayed, Cursor(delayed, bs), b).1
  {
    assert (bs + [b])[..|bs|] == bs;
  }

  /** A truncated number is below every number of more than 32 bits. */
  lemma Truncated(x: uint64, d: uint64)
    requires d >= TWO32
    ensures Low32(x) <= d - 1
  {
  }

  /** The cursor after a close at the last late number p that fits 32 bits has passed all numbers up to p. */
  lemma PastNarrow(delayed: seq<uint64>, k: nat)
    requires Ascending(delayed) && 0 < k < |delayed| && Fit32(delayed[..k])
    ensures Cursor(delayed, [delayed[k - 1]]) >= k
  {
    var p := delayed[k - 1];
    forall j | 0 <= j < k ensures Low32(delayed[j]) <= p {
      assert delayed[j] == delayed[..k][j];
    }
    FirstAbovePasses(delayed, 1, k, p);
    CursorAppend(delayed, [], p);
    assert [] + [p] == [p];
  }

  /** Right below a late number, when the number before is the late one that precedes it, nothing is polluted. */
  lemma CleanBelow(delayed: seq<uint64>, k: nat, prev: int, below: int)
    requires Ascending(delayed) && k < |delayed| && (k > 0 ==> delayed[k - 1] <= prev) && below < delayed[k]
    ensures !Polluted(delayed, prev, below)
  {
    forall i | 0 <= i < |delayed| ensures !(prev < delayed[i] <= below) {
      if i < k {
        assert delayed[i] <= delayed[k - 1];
      } else {
        assert delayed[k] <= delayed[i];
      }
    }
  }

  lemma WrongSkip(delayed: seq<uint64>, bs: seq<uint64>, k: nat)
    requires k < |bs|
    requires Close(delayed, Cursor(delayed, bs[..k]), bs[k]).0 != Polluted(delayed, Before(bs, k), bs[k])
    ensures !Exact(delayed, bs)
  {
    SkipsAt(delayed, bs, k);
  }

  /** With a late number of more than 32 bits there are group boundaries for which a wrong group is ignored or kept. */
  lemma WideNumberFails(delayed: seq<uint64>, k: nat) returns (bs: seq<uint64>)
    requires Ascending(delayed) && k < |delayed| && Fit32(delayed[..k]) && delayed[k] >= TWO32
    ensures Ascending(bs) && !Exact(delayed, bs)
  {
    var d := delayed[k];
    if k == 0 {
      bs := [d - 1];
      Truncated(delayed[0], d);
      CleanBelow(delayed, 0, -1, d - 1);
      assert bs[..0] == [];
      WrongSkip(delayed, bs, 0);
    } else {
      var p := delayed[k - 1];
      assert p == delayed[..k][k - 1];
      PastNarrow(delayed, k);
      var c := Cursor(delayed, [p]);
      if c < |delayed| {
        bs := [p, d - 1];
        assert bs[..1] == [p];
        Truncated(delayed[c], d);
        CleanBelow(delayed, k, p, d - 1);
        WrongSkip(delayed, bs, 1);
      } else {
        bs := [p, d - 1, d];
        CursorAppend(delayed, [p], d - 1);
        assert bs[..2] == [p] + [d - 1];
        assert Polluted(delayed, d - 1, d);
        WrongSkip(delayed, bs, 2);
      }
    }
  }

  /**
   * For late numbers in ascending order, exactly the polluted groups are ignored for all group boundaries if and only
   * if every late number fits the 32-bit variable it is read into.
   */
  lemma ExactIffFit32(delayed: seq<uint64>)
    requires Ascending(delayed)
    ensures (forall bs: seq<uint64> :: Ascending(bs) ==> Exact(delayed, bs)) <==> Fit32(delayed)
  {
    if Fit32(delayed) {
      forall bs: seq<uint64> | Ascending(bs) ensures Exact(delayed, bs) {
        SkipsExact(delayed, bs);
      }
    } else {
      var k := FirstWide(delayed, 0);
      var bs := WideNumberFails(delayed, k);
    }
  }

  lemma FirstWide(delayed: seq<uint64>, i: nat) returns (k: nat)
    requires i <= |delayed| && Fit32(delayed[..i])
    requires exists j :: i <= j < |delayed| && delayed[j] >= TWO32
    ensures k < |delayed| && Fit32(delayed[..k]) && delayed[k] >= TWO32
    decreases |delayed| - i
  {
    if delayed[i] >= TWO32 {
      k := i;
    } else {
      k := FirstWide(delayed, i + 1);
    }
  }
}
