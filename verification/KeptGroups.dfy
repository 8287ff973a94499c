/** Which groups of a packet stream count: those that no late transmission pollutes. */
module KeptGroups {
  import opened Common
  import opened PacketGroups
  import opened DelayCursor

  /** Of one value per group, the values of the groups that are not ignored. */
  function Kept(delayed: seq<uint64>, ps: seq<Arrival>, thr: int, vals: seq<int>): seq<int>
    requires |vals| == |Bounds(ps, thr)|
  {
    Select(vals, Skips(delayed, CloseIds(ps, thr)), false)
  }

  function Dropped(delayed: seq<uint64>, ps: seq<Arrival>, thr: int, vals: seq<int>): seq<int>
    requires |vals| == |Bounds(ps, thr)|
  {
    Select(vals, Skips(delayed, CloseIds(ps, thr)), true)
  }

  /** Where the cursor is after the groups of the stream were closed. */
  function CursorAfter(delayed: seq<uint64>, ps: seq<Arrival>, thr: int): nat {
    Cursor(delayed, CloseIds(ps, thr))
  }

  lemma QuietArrival(delayed: seq<uint64>, ps: seq<Arrival>, thr: int)
    requires |ps| > 1 && !Gap(ps, thr, |ps| - 1)
    ensures var init := ps[..|ps| - 1];
      && Bounds(ps, thr) == Bounds(init, thr) && PendingStart(ps, thr) == PendingStart(init, thr)
      && CursorAfter(delayed, ps, thr) == CursorAfter(delayed, init, thr)
      && Kept(delayed, ps, thr, Durations(ps, thr)) == Kept(delayed, init, thr, Durations(init, thr))
      && Kept(delayed, ps, thr, Sizes(ps, thr)) == Kept(delayed, init, thr, Sizes(init, thr))
  {
    var init := ps[..|ps| - 1];
    assert Bounds(ps, thr) == Bounds(init, thr);
    assert CloseIds(ps, thr) == CloseIds(init, thr);
    assert Durations(ps, thr) == Durations(init, thr);
    assert Sizes(ps, thr) == Sizes(init, thr);
  }

  lemma SkipsAppend(delayed: seq<uint64>, bs: seq<uint64>, b: uint64)
    ensures Skips(delayed, bs + [b]) == Skips(delayed, bs) + [Close(delayed, Cursor(delayed, bs), b).0]
    ensures Cursor(delayed, bs + [b]) == Close(delayed, Cursor(delayed, bs), b).1
  {
    assert (bs + [b])[..|bs|] == bs;
  }

  lemma KeptAppend(delayed: seq<uint64>, ids: seq<uint64>, id: uint64, vals: seq<int>, v: int)
    requires |vals| == |ids|
    ensures Select(vals + [v], Skips(delayed, ids + [id]), false)
         == Select(vals, Skips(delayed, ids), false)
            + if Close(delayed, Cursor(delayed, ids), id).0 then [] else [v]
  {
    SkipsAppend(delayed, ids, id);
    SelectAppend(vals, Skips(delayed, ids), v, Close(delayed, Cursor(delayed, ids), id).0, false);
  }

  lemma MeasuresAppend(ps: seq<Arrival>, thr: int)
    requires |ps| > 1 && Gap(ps, thr, |ps| - 1)
    ensures var n := |ps| - 1; var init := ps[..n]; var p := PendingStart(init, thr);
      && p < n && PendingStart(ps, thr) == n
      && CloseIds(ps, thr) == CloseIds(init, thr) + [ps[n].id]
      && Durations(ps, thr) == Durations(init, thr) + [ps[n].ts - ps[p].ts]
      && Sizes(ps, thr) == Sizes(init, thr) + [n - p]
  {
  }

  lemma ClosingArrival(delayed: seq<uint64>, ps: seq<Arrival>, thr: int)
    requires |ps| > 1 && Gap(ps, thr, |ps| - 1)
    ensures var n := |ps| - 1; var init := ps[..n];
      var (skip, next) := Close(delayed, CursorAfter(delayed, init, thr), ps[n].id);
      var p := PendingStart(init, thr);
      && p < n && PendingStart(ps, thr) == n && CursorAfter(delayed, ps, thr) == next
      && Kept(delayed, ps, thr, Durations(ps, thr))
         == Kept(delayed, init, thr, Durations(init, thr)) + (if skip then [] else [ps[n].ts - ps[p].ts])
      && Kept(delayed, ps, thr, Sizes(ps, thr))
         == Kept(delayed, init, thr, Sizes(init, thr)) + (if skip then [] else [n - p])
  {
    var n := |ps| - 1;
    var init := ps[..n];
    var ids, p := CloseIds(init, thr), PendingStart(init, thr);
    MeasuresAppend(ps, thr);
    SkipsAppend(delayed, ids, ps[n].id);
    KeptAppend(delayed, ids, ps[n].id, Durations(init, thr), ps[n].ts - ps[p].ts);
    KeptAppend(delayed, ids, ps[n].id, Sizes(init, thr), n - p);
  }

  /** Where the pending group starts and where the cursor is after one more packet. */
  lemma Positions(delayed: seq<uint64>, ps: seq<Arrival>, thr: int)
    requires |ps| > 1
    ensures var n := |ps| - 1; var init := ps[..n];
      var cur := CursorAfter(delayed, init, thr);
      && PendingStart(init, thr) < n
      && PendingStart(ps, thr) == (if Gap(ps, thr, n) then n else PendingStart(init, thr))
      && CursorAfter(delayed, ps, thr) == if Gap(ps, thr, n) then Close(delayed, cur, ps[n].id).1 else cur
  {
    if Gap(ps, thr, |ps| - 1) {
      ClosingArrival(delayed, ps, thr);
    } else {
      QuietArrival(delayed, ps, thr);
    }
  }

  // ---------------------------------------------------------------- late transmissions and ignored groups

  /** A packet numbered in (prev, id] was transmitted after a gap above the threshold. */
  ghost predicate LateBetween(txs: seq<Arrival>, late: int, prev: int, id: int) {
    exists j :: 1 <= j < |txs| && Gap(txs, late, j) && prev < txs[j].id <= id
  }

  predicate AscendingIds(ps: seq<Arrival>) {
    forall i, j :: 0 <= i < j < |ps| ==> ps[i].id <= ps[j].id
  }

  predicate NarrowIds(ps: seq<Arrival>) {
    forall i :: 0 <= i < |ps| ==> ps[i].id < TWO32
  }

  lemma LateIsPolluted(txs: seq<Arrival>, late: int, prev: int, id: int)
    ensures Polluted(CloseIds(txs, late), prev, id) <==> LateBetween(txs, late, prev, id)
  {
    var delayed := CloseIds(txs, late);
    if Polluted(delayed, prev, id) {
      var k :| 0 <= k < |delayed| && prev < delayed[k] <= id;
      MeasuresExact(txs, late, k);
      BoundsExact(txs, late);
      var j := Bounds(txs, late)[k];
      assert j in Bounds(txs, late);
      assert Gap(txs, late, j) && prev < txs[j].id <= id;
    }
    if LateBetween(txs, late, prev, id) {
      var j :| 1 <= j < |txs| && Gap(txs, late, j) && prev < txs[j].id <= id;
      BoundsExact(txs, late);
      var k :| 0 <= k < |Bounds(txs, late)| && Bounds(txs, late)[k] == j;
      MeasuresExact(txs, late, k);
      assert prev < delayed[k] <= id;
    }
  }

  lemma LateNumbers(txs: seq<Arrival>, late: int)
    requires AscendingIds(txs) && NarrowIds(txs)
    ensures Ascending(CloseIds(txs, late)) && Fit32(CloseIds(txs, late))
  {
    var delayed := CloseIds(txs, late);
    CloseIdsAscending(txs, late);
    forall i | 0 <= i < |delayed| ensures delayed[i] < TWO32 {
      MeasuresExact(txs, late, i);
    }
  }

  /** The number of the packet that closed group k, and of the one that closed the group before. */
  function Closer(ps: seq<Arrival>, thr: int, k: nat): int
    requires k < |Bounds(ps, thr)|
  {
    ps[Bounds(ps, thr)[k]].id
  }

  function CloserBefore(ps: seq<Arrival>, thr: int, k: nat): int
    requires k <= |Bounds(ps, thr)|
  {
    if k == 0 then -1 else Closer(ps, thr, k - 1)
  }

  lemma ClosersAreIds(ps: seq<Arrival>, thr: int, k: nat)
    requires k < |Bounds(ps, thr)|
    ensures CloseIds(ps, thr)[k] == Closer(ps, thr, k) && Before(CloseIds(ps, thr), k) == CloserBefore(ps, thr, k)
  {
    MeasuresExact(ps, thr, k);
    if k > 0 { MeasuresExact(ps, thr, k - 1); }
  }

  lemma IgnoredAt(txs: seq<Arrival>, late: int, ids: seq<uint64>, k: nat)
    requires AscendingIds(txs) && NarrowIds(txs) && Ascending(ids) && k < |ids|
    ensures Skips(CloseIds(txs, late), ids)[k] <==> LateBetween(txs, late, Before(ids, k), ids[k])
  {
    LateNumbers(txs, late);
    SkipsExact(CloseIds(txs, late), ids);
    LateIsPolluted(txs, late, Before(ids, k), ids[k]);
  }

  /**
   * From the two captures to the groups: with packet numbers ascending on both sides and the transmitted ones fitting
   * 32 bits, the group closed by a packet is ignored if and only if a packet transmitted after a too long delay is
   * numbered above the packet that closed the group before and not above this one.
   */
  lemma IgnoredExactlyWhenLate(txs: seq<Arrival>, late: int, ps: seq<Arrival>, thr: int, k: nat)
    requires AscendingIds(txs) && NarrowIds(txs) && AscendingIds(ps)
    requires k < |Bounds(ps, thr)|
    ensures Skips(CloseIds(txs, late), CloseIds(ps, thr))[k]
      <==> LateBetween(txs, late, CloserBefore(ps, thr, k), Closer(ps, thr, k))
  {
    CloseIdsAscending(ps, thr);
    IgnoredAt(txs, late, CloseIds(ps, thr), k);
    ClosersAreIds(ps, thr, k);
  }

  /** For every closed group, whether a late packet arrived in it. */
  ghost function LateFlags(txs: seq<Arrival>, late: int, ps: seq<Arrival>, thr: int): (r: seq<bool>)
    ensures |r| == |Bounds(ps, thr)|
  {
    seq(|Bounds(ps, thr)|, k requires 0 <= k < |Bounds(ps, thr)| =>
      LateBetween(txs, late, CloserBefore(ps, thr, k), Closer(ps, thr, k)))
  }

  /** Of one value per group, the values of the groups without a late packet. */
  ghost function Clean(txs: seq<Arrival>, late: int, ps: seq<Arrival>, thr: int, vals: seq<int>): seq<int>
    requires |vals| == |Bounds(ps, thr)|
  {
    Select(vals, LateFlags(txs, late, ps, thr), false)
  }

  /** The groups counted are those without a late packet. */
  lemma KeptIsClean(txs: seq<Arrival>, late: int, ps: seq<Arrival>, thr: int, vals: seq<int>)
    requires AscendingIds(txs) && NarrowIds(txs) && AscendingIds(ps) && |vals| == |Bounds(ps, thr)|
    ensures Kept(CloseIds(txs, late), ps, thr, vals) == Clean(txs, late, ps, thr, vals)
  {
    var skips, flags := Skips(CloseIds(txs, late), CloseIds(ps, thr)), LateFlags(txs, late, ps, thr);
    forall k | 0 <= k < |flags| ensures skips[k] == flags[k] {
      IgnoredExactlyWhenLate(txs, late, ps, thr, k);
    }
    assert skips == flags;
  }

  /** What is counted and what is ignored make up all the closed groups. */
  lemma Conserved(delayed: seq<uint64>, ps: seq<Arrival>, thr: int)
    requires ps != []
    ensures Sum(Kept(delayed, ps, thr, Durations(ps, thr))) + Sum(Dropped(delayed, ps, thr, Durations(ps, thr)))
      == ps[PendingStart(ps, thr)].ts - ps[0].ts
    ensures Sum(Kept(delayed, ps, thr, Sizes(ps, thr))) + Sum(Dropped(delayed, ps, thr, Sizes(ps, thr)))
      == PendingStart(ps, thr)
  {
    var skips := Skips(delayed, CloseIds(ps, thr));
    SelectConserves(Durations(ps, thr), skips);
    SelectConserves(Sizes(ps, thr), skips);
    Telescope(ps, thr);
  }
}
