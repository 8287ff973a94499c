/**
 * Streams of timestamped packets and the groups a threshold on the gap cuts them into, independent of how the receive
 * coalescing tests compute them.
 */
module PacketGroups {
  import opened Common

  /** A packet that could be read: when it arrived, in microseconds, and the number it carries. */
  datatype Arrival = Arrival(ts: int, id: uint64)

  /** Packet i starts a new group: the gap before it is above the threshold. */
  predicate Gap(ps: seq<Arrival>, thr: int, i: int)
    requires 1 <= i < |ps|
  {
    ps[i].ts - ps[i - 1].ts > thr
  }

  /** The packets that start a new group, and so close the one before. */
  function Bounds(ps: seq<Arrival>, thr: int): (bs: seq<nat>)
    ensures forall k :: 0 <= k < |bs| ==> 1 <= bs[k] < |ps|
    ensures ps != [] ==> |bs| < |ps|
  {
    if |ps| <= 1 then []
    else
      var n := |ps| - 1;
      Bounds(ps[..n], thr) + if Gap(ps, thr, n) then [n] else []
  }

  /** First packet of the group closed by bound number k, or of the pending group for k == |bs|. */
  function StartOf(bs: seq<nat>, k: nat): nat
    requires k <= |bs|
  {
    if k == 0 then 0 else bs[k - 1]
  }

  function PendingStart(ps: seq<Arrival>, thr: int): nat {
    StartOf(Bounds(ps, thr), |Bounds(ps, thr)|)
  }

  /** The bounds are exactly the packets after a large gap, in order. */
  lemma {:induction false} BoundsExact(ps: seq<Arrival>, thr: int)
    ensures var bs := Bounds(ps, thr);
      && (forall j, k :: 0 <= j < k < |bs| ==> bs[j] < bs[k])
      && (forall i :: 1 <= i < |ps| ==> (Gap(ps, thr, i) <==> i in bs))
  {
    if |ps| > 1 {
      var n := |ps| - 1;
      var init := ps[..n];
      BoundsExact(init, thr);
      forall i | 1 <= i < |ps| ensures Gap(ps, thr, i) <==> i in Bounds(ps, thr) {
        if i < n {
          assert Gap(init, thr, i) <==> Gap(ps, thr, i);
        }
      }
    }
  }

  /** Groups are maximal runs: no packet inside a group comes after a large gap. */
  lemma GroupsAreRuns(ps: seq<Arrival>, thr: int, k: nat, i: int)
    requires k <= |Bounds(ps, thr)| && StartOf(Bounds(ps, thr), k) < i < |ps|
    requires k < |Bounds(ps, thr)| ==> i < Bounds(ps, thr)[k]
    ensures !Gap(ps, thr, i)
  {
    BoundsExact(ps, thr);
    var bs := Bounds(ps, thr);
    forall j | 0 <= j < |bs| ensures bs[j] != i {
      if j < k - 1 {
        assert bs[j] < bs[k - 1];
      } else if j > k {
        assert bs[k] < bs[j];
      }
    }
  }

  // ---------------------------------------------------------------- what is measured of a closed group

  /** Numbers of the packets that close the groups. */
  function CloseIds(ps: seq<Arrival>, thr: int): (r: seq<uint64>)
    ensures |r| == |Bounds(ps, thr)|
  {
    if |ps| <= 1 then []
    else
      var n := |ps| - 1;
      CloseIds(ps[..n], thr) + if Gap(ps, thr, n) then [ps[n].id] else []
  }

  /** From the first packet of a group to the one that closes it. */
  function Durations(ps: seq<Arrival>, thr: int): (r: seq<int>)
    ensures |r| == |Bounds(ps, thr)|
  {
    if |ps| <= 1 then []
    else
      var n := |ps| - 1;
      var init := ps[..n];
      Durations(init, thr) + if Gap(ps, thr, n) then [ps[n].ts - ps[PendingStart(init, thr)].ts] else []
  }

  function Sizes(ps: seq<Arrival>, thr: int): (r: seq<int>)
    ensures |r| == |Bounds(ps, thr)|
  {
    if |ps| <= 1 then []
    else
      var n := |ps| - 1;
      var init := ps[..n];
      Sizes(init, thr) + if Gap(ps, thr, n) then [n - PendingStart(init, thr)] else []
  }

  /** Group k runs from its first packet up to the packet that closes it. */
  lemma {:induction false} MeasuresExact(ps: seq<Arrival>, thr: int, k: nat)
    requires k < |Bounds(ps, thr)|
    ensures var b, s := Bounds(ps, thr)[k], StartOf(Bounds(ps, thr), k);
      && s < b
      && CloseIds(ps, thr)[k] == ps[b].id
      && Durations(ps, thr)[k] == ps[b].ts - ps[s].ts
      && Sizes(ps, thr)[k] == b - s
  {
    var n := |ps| - 1;
    var init := ps[..n];
    if k < |Bounds(init, thr)| {
      MeasuresExact(init, thr, k);
    }
  }

  lemma {:induction false} CloseIdsAscending(ps: seq<Arrival>, thr: int)
    requires forall i, j :: 0 <= i < j < |ps| ==> ps[i].id <= ps[j].id
    ensures forall i, j :: 0 <= i < j < |CloseIds(ps, thr)| ==> CloseIds(ps, thr)[i] <= CloseIds(ps, thr)[j]
    ensures ps != [] ==> forall i :: 0 <= i < |CloseIds(ps, thr)| ==> CloseIds(ps, thr)[i] <= ps[|ps| - 1].id
  {
    if |ps| > 1 {
      CloseIdsAscending(ps[..|ps| - 1], thr);
    }
  }

  // ---------------------------------------------------------------- sums over groups

  /** The values whose group was ignored (or not ignored). */
  function Select(vals: seq<int>, skips: seq<bool>, skipped: bool): (r: seq<int>)
    requires |vals| == |skips|
    ensures |r| <= |vals|
  {
    if vals == [] then []
    else
      var n := |vals| - 1;
      Select(vals[..n], skips[..n], skipped) + if skips[n] == skipped then [vals[n]] else []
  }

  function SquaredDeviations(vals: seq<int>, target: int): int {
    if vals == [] then 0
    else
      var d := vals[|vals| - 1] - target;
      SquaredDeviations(vals[..|vals| - 1], target) + d * d
  }

  lemma SelectAppend(vals: seq<int>, skips: seq<bool>, v: int, skip: bool, skipped: bool)
    requires |vals| == |skips|
    ensures Select(vals + [v], skips + [skip], skipped)
         == Select(vals, skips, skipped) + if skip == skipped then [v] else []
  {
    assert (vals + [v])[..|vals|] == vals && (skips + [skip])[..|skips|] == skips;
  }

  lemma SumAppend(vals: seq<int>, v: int, target: int)
    ensures Sum(vals + [v]) == Sum(vals) + v
    ensures SquaredDeviations(vals + [v], target) == SquaredDeviations(vals, target) + (v - target) * (v - target)
  {
    assert (vals + [v])[..|vals|] == vals;
  }

  /** Counted and ignored groups together make up the whole. */
  lemma {:induction false} SelectConserves(vals: seq<int>, skips: seq<bool>)
    requires |vals| == |skips|
    ensures Sum(Select(vals, skips, false)) + Sum(Select(vals, skips, true)) == Sum(vals)
  {
    if vals != [] {
      var n := |vals| - 1;
      SelectConserves(vals[..n], skips[..n]);
      SumAppend(Select(vals[..n], skips[..n], skips[n]), vals[n], 0);
      assert Select(vals[..n], skips[..n], !skips[n]) + [] == Select(vals[..n], skips[..n], !skips[n]);
    }
  }

  /** Durations telescope, and sizes count the packets up to the pending group. */
  lemma {:induction false} Telescope(ps: seq<Arrival>, thr: int)
    requires ps != []
    ensures PendingStart(ps, thr) < |ps|
    ensures Sum(Durations(ps, thr)) == ps[PendingStart(ps, thr)].ts - ps[0].ts
    ensures Sum(Sizes(ps, thr)) == PendingStart(ps, thr)
  {
    if |ps| > 1 {
      var n := |ps| - 1;
      var init := ps[..n];
      Telescope(init, thr);
      if Gap(ps, thr, n) {
        SumAppend(Durations(init, thr), ps[n].ts - ps[PendingStart(init, thr)].ts, 0);
        SumAppend(Sizes(init, thr), n - PendingStart(init, thr), 0);
      } else {
        assert Durations(ps, thr) == Durations(init, thr) && Sizes(ps, thr) == Sizes(init, thr);
      }
    }
  }
}
