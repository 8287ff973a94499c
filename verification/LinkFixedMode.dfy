/** Choosing the fixed modes to try: net-drv-ts/ethtool/link_fixed_mode.c. */
module LinkFixedMode {
  import opened Common
  import opened PhyModes
  import opened PhyConfig

  method IsModePairSelected(modes: array<ModeInfo>, modesNum: nat, mode: ModeInfo) returns (r: bool)
    requires modesNum <= modes.Length
    ensures r <==> HasPair(modes[..modesNum], mode)
  {
    var i := 0;
    while i < modesNum
      invariant 0 <= i <= modesNum
      invariant forall j :: 0 <= j < i ==> !SamePair(modes[j], mode)
    {
      if modes[i].speed == mode.speed && modes[i].duplex == mode.duplex {
        assert SamePair(modes[..modesNum][i], mode);
        return true;
      }
      i := i + 1;
    }
    return false;
  }

  /** Link modes, advertised or not. */
  function AnyLink(): Eligible {
    (m: ModeInfo) => IsLinkMode(m)
  }

  predicate HasPair(ms: seq<ModeInfo>, m: ModeInfo) {
    exists i :: 0 <= i < |ms| && SamePair(ms[i], m)
  }

  /** Modes whose speed and duplex did not occur before. */
  function FirstOfPairs(ms: seq<ModeInfo>): (r: seq<ModeInfo>)
    ensures |r| <= |ms|
  {
    if ms == [] then []
    else
      var init, m := FirstOfPairs(ms[..|ms| - 1]), ms[|ms| - 1];
      if HasPair(init, m) then init else init + [m]
  }

  lemma FirstOfPairsAppend(ms: seq<ModeInfo>, m: ModeInfo)
    ensures FirstOfPairs(ms + [m]) == FirstOfPairs(ms) + if HasPair(FirstOfPairs(ms), m) then [] else [m]
  {
    assert (ms + [m])[..|ms|] == ms;
    assert FirstOfPairs(ms) + [] == FirstOfPairs(ms);
  }

  /** One common mode: a candidate unless its speed and duplex were found already. */
  method AddCandidate(foundModes: array<ModeInfo>, foundNum: nat, m: ModeInfo, ghost common: seq<ModeInfo>)
    returns (num: nat)
    requires foundNum < foundModes.Length && foundModes[..foundNum] == FirstOfPairs(common)
    modifies foundModes
    ensures foundNum <= num <= foundNum + 1 && foundModes[..num] == FirstOfPairs(common + [m])
  {
    FirstOfPairsAppend(common, m);
    ghost var chosen := foundModes[..foundNum];
    num := foundNum;
    var selected := IsModePairSelected(foundModes, foundNum, m);
    if !selected {
      foundModes[num] := m;
      num := num + 1;
      assert foundModes[..num] == chosen + [m];
    }
  }

  /** One mode of a side: looked up on the other side, and a candidate if it is common and new. */
  method ConsiderMode(foundModes: array<ModeInfo>, foundNum: nat, m: ModeInfo, peers: seq<ModeInfo>,
                      ghost common: seq<ModeInfo>) returns (num: nat)
    requires foundNum < foundModes.Length && foundModes[..foundNum] == FirstOfPairs(common)
    modifies foundModes
    ensures foundNum <= num <= foundNum + 1
    ensures foundModes[..num] == FirstOfPairs(if IsCommon(m, peers, AnyLink()) then common + [m] else common)
  {
    num := foundNum;
    if IsLinkMode(m) {
      var peer := FindModeByName(peers, m.name);
      if peer.Some? && IsLinkMode(peer.value) {
        num := AddCandidate(foundModes, foundNum, m, common);
      }
    }
  }

  /** The candidates are collected in an array as long as the list of modes. */
  method FindCommonModeCandidates(iut: SavedState, tst: SavedState) returns (candidates: seq<ModeInfo>)
    ensures candidates == Candidates(iut, tst)
  {
    if |iut.modes| == 0 { return []; }
    var foundModes := new ModeInfo[|iut.modes|];
    var foundNum := 0;
    ghost var common: seq<ModeInfo> := [];
    assert iut.modes[..0] == [];
    for i := 0 to |iut.modes|
      invariant foundNum <= i
      invariant common == CommonModes(iut.modes[..i], tst.modes, AnyLink())
      invariant foundModes[..foundNum] == FirstOfPairs(common)
    {
      CommonStep(iut.modes, i, tst.modes, AnyLink());
      foundNum := ConsiderMode(foundModes, foundNum, iut.modes[i], tst.modes, common);
      common := if IsCommon(iut.modes[i], tst.modes, AnyLink()) then common + [iut.modes[i]] else common;
    }
    assert iut.modes[..|iut.modes|] == iut.modes;
    return foundModes[..foundNum];
  }

  predicate Increasing(idx: seq<nat>) {
    forall j, k :: 0 <= j < k < |idx| ==> idx[j] < idx[k]
  }

  /** Place i of the list is where the speed and duplex of the mode first occur. */
  predicate FirstAt(ms: seq<ModeInfo>, i: nat, m: ModeInfo) {
    i < |ms| && ms[i] == m && forall j :: 0 <= j < i ==> !SamePair(ms[j], m)
  }

  lemma FirstAtExtends(ms: seq<ModeInfo>, n: nat, i: nat, m: ModeInfo)
    requires n <= |ms| && FirstAt(ms[..n], i, m)
    ensures FirstAt(ms, i, m) && i < n
  {
    forall j | 0 <= j < i ensures !SamePair(ms[j], m) {
      assert ms[..n][j] == ms[j];
    }
  }

  lemma HasPairExtends(r: seq<ModeInfo>, m: ModeInfo, x: ModeInfo)
    ensures HasPair(r, x) ==> HasPair(r + [m], x)
    ensures HasPair(r + [m], m)
  {
    if HasPair(r, x) {
      var k :| 0 <= k < |r| && SamePair(r[k], x);
      assert SamePair((r + [m])[k], x);
    }
    assert SamePair((r + [m])[|r|], m);
  }

  /** No pair of the list is missing among the candidates. */
  lemma {:induction false} PairsCovered(ms: seq<ModeInfo>)
    ensures forall i :: 0 <= i < |ms| ==> HasPair(FirstOfPairs(ms), ms[i])
  {
    if ms != [] {
      var n := |ms| - 1;
      PairsCovered(ms[..n]);
      var init := FirstOfPairs(ms[..n]);
      forall i | 0 <= i < |ms| ensures HasPair(FirstOfPairs(ms), ms[i]) {
        if i < n {
          assert HasPair(init, ms[..n][i]);
        }
        HasPairExtends(init, ms[n], ms[i]);
      }
    }
  }

  lemma NotBefore(ms: seq<ModeInfo>, m: ModeInfo)
    requires !HasPair(FirstOfPairs(ms), m)
    ensures forall j :: 0 <= j < |ms| ==> !SamePair(ms[j], m)
  {
    PairsCovered(ms);
    var r := FirstOfPairs(ms);
    forall j | 0 <= j < |ms| ensures !SamePair(ms[j], m) {
      var k :| 0 <= k < |r| && SamePair(r[k], ms[j]);
      assert !SamePair(r[k], m);
    }
  }

  /**
   * The candidates are, in the order of the list, modes at the places where their speed and duplex first occur. None
   * is missing by PairsCovered and none comes twice by CandidatesDistinct.
   */
  lemma {:induction false} FirstOfPairsExact(ms: seq<ModeInfo>) returns (idx: seq<nat>)
    ensures |idx| == |FirstOfPairs(ms)| && Increasing(idx)
    ensures forall k :: 0 <= k < |idx| ==> FirstAt(ms, idx[k], FirstOfPairs(ms)[k])
  {
    if ms == [] {
      idx := [];
    } else {
      var n := |ms| - 1;
      var init := FirstOfPairs(ms[..n]);
      idx := FirstOfPairsExact(ms[..n]);
      forall k | 0 <= k < |idx| ensures FirstAt(ms, idx[k], init[k]) && idx[k] < n {
        FirstAtExtends(ms, n, idx[k], init[k]);
      }
      if !HasPair(init, ms[n]) {
        NotBefore(ms[..n], ms[n]);
        assert FirstAt(ms, n, ms[n]);
        idx := idx + [n];
      }
    }
  }

  lemma CandidatesDistinct(ms: seq<ModeInfo>)
    ensures var r := FirstOfPairs(ms); forall j, k :: 0 <= j < k < |r| ==> !SamePair(r[j], r[k])
  {
    var idx := FirstOfPairsExact(ms);
    var r := FirstOfPairs(ms);
    forall j, k | 0 <= j < k < |r| ensures !SamePair(r[j], r[k]) {
      assert FirstAt(ms, idx[j], r[j]) && FirstAt(ms, idx[k], r[k]) && idx[j] < idx[k];
    }
  }

  function Candidates(iut: SavedState, tst: SavedState): seq<ModeInfo> {
    FirstOfPairs(CommonModes(iut.modes, tst.modes, AnyLink()))
  }

  /** The common modes are the link modes that both sides have, advertised or not. */
  lemma CommonByName(c: Config, names: seq<string>, c': Config, names': seq<string>, m: ModeInfo)
    requires Enumerates(names, c.adv) && Enumerates(names', c'.adv)
    ensures m in CommonModes(SaveOf(c, names).modes, SaveOf(c', names').modes, AnyLink())
      <==> m.name in c.adv && m.name in c'.adv && ParseMode(m.name).Some? && m == InfoOf(m.name, c.adv[m.name])
  {
    CommonMember(SaveOf(c, names).modes, SaveOf(c', names').modes, AnyLink(), m);
    SavedNamed(c, names, m.name);
    SavedNamed(c', names', m.name);
    LinkModeByName(m.name, true);
    LinkModeByName(m.name, false);
  }

  /**
   * The candidates by what the two sides have: each is a link mode of both with the speed and duplex of its name, and
   * every speed and duplex of such a mode has a candidate.
   */
  lemma CandidatesExact(c: Config, names: seq<string>, c': Config, names': seq<string>)
    requires Enumerates(names, c.adv) && Enumerates(names', c'.adv)
    ensures var r := Candidates(SaveOf(c, names), SaveOf(c', names'));
      && (forall k :: 0 <= k < |r| ==>
            r[k].name in c.adv && r[k].name in c'.adv && ParseMode(r[k].name) == Some((r[k].speed, r[k].duplex)))
      && (forall n :: n in c.adv && n in c'.adv && ParseMode(n).Some? ==> HasPair(r, InfoOf(n, c.adv[n])))
  {
    var common := CommonModes(SaveOf(c, names).modes, SaveOf(c', names').modes, AnyLink());
    var r := FirstOfPairs(common);
    forall k | 0 <= k < |r|
      ensures r[k].name in c.adv && r[k].name in c'.adv && ParseMode(r[k].name) == Some((r[k].speed, r[k].duplex))
    {
      var idx := FirstOfPairsExact(common);
      assert FirstAt(common, idx[k], r[k]);
      CommonByName(c, names, c', names', r[k]);
    }
    forall n | n in c.adv && n in c'.adv && ParseMode(n).Some? ensures HasPair(r, InfoOf(n, c.adv[n])) {
      var m := InfoOf(n, c.adv[n]);
      CommonByName(c, names, c', names', m);
      PairsCovered(common);
      var i :| 0 <= i < |common| && common[i] == m;
    }
  }

  // ---------------------------------------------------------------- the test

  datatype Verdict = Pass | Skipped | Failed

  /** An error with which a mode is passed over. */
  predicate Unsupported(rc: int) {
    rc == EINVAL || rc == EOPNOTSUPP
  }

  /** What the tests of the link find, for a candidate and the settings of both sides at that time. */
  type Checks = (nat, Config, Config) -> bool

  /** The link is as expected when both sides have the speed and duplex of a candidate and no autonegotiation. */
  predicate LinkGood(checks: Checks, candidates: seq<ModeInfo>, i: nat, c: Config, c': Config)
    requires i < |candidates|
  {
    var m := candidates[i];
    checks(i, Config(AutonegOff, m.speed, m.duplex, c.adv), Config(AutonegOff, m.speed, m.duplex, c'.adv))
  }

  /** No call on a side failed since then. */
  twostate predicate NoFailure(tree: PhyTree)
    reads tree
  {
    tree.faults == old(tree.faults) && tree.deniedGets == old(tree.deniedGets)
  }

  predicate AllUnsupported(errors: seq<int>) {
    forall k :: 0 <= k < |errors| ==> Unsupported(errors[k])
  }

  /** How a side stands. */
  datatype SideState = SideState(committed: Config, staged: Staged, errors: seq<int>, faults: nat, deniedGets: nat)

  ghost function StateOf(tree: PhyTree): SideState
    reads tree
  {
    SideState(tree.committed, tree.staged, tree.errors, tree.faults, tree.deniedGets)
  }

  /** From one state to another a side is still under way, with the same advertised bits and these errors. */
  predicate After(s: SideState, t: SideState, c: Config, errors: seq<int>) {
    && Untouched(c, t.committed) && t.committed.adv == s.committed.adv
    && t.errors == s.errors + errors && t.faults >= s.faults && t.deniedGets >= s.deniedGets
    && t.faults + t.deniedGets == s.faults + s.deniedGets + |errors|
    && (t.staged == NOTHING_STAGED ==> s.staged == NOTHING_STAGED && t.deniedGets == s.deniedGets)
    && (errors == [] && s.staged == NOTHING_STAGED ==> t.staged == NOTHING_STAGED)
  }

  lemma AfterAfter(s: SideState, t: SideState, u: SideState, c: Config, errors: seq<int>, errors': seq<int>)
    requires After(s, t, c, errors) && After(t, u, c, errors')
    ensures After(s, u, c, errors + errors')
  {
    assert (s.errors + errors) + errors' == s.errors + (errors + errors');
  }

  /** Setting one side to the speed and duplex of a candidate. */
  method SetSide(tree: PhyTree, m: ModeInfo, ghost c: Config) returns (rc: int, ghost errors: seq<int>)
    requires Untouched(c, tree.committed)
    modifies tree
    ensures After(old(StateOf(tree)), StateOf(tree), c, errors) && errors == if rc == OK then [] else [rc]
    ensures rc == OK ==> tree.committed == Config(AutonegOff, m.speed, m.duplex, old(tree.committed.adv))
  {
    ghost var adv := tree.committed.adv;
    rc := ApplyFixedMode(tree, m.speed, m.duplex);
    assert tree.committed.adv == adv;
    errors := if rc == OK then [] else [rc];
  }

  /**
   * How far the test has got after the first `end` candidates: those tested, each with a good link, and for each of the
   * others one error on one side.
   */
  predicate Progress(checks: Checks, candidates: seq<ModeInfo>, end: nat, seen: seq<nat>, errors: seq<int>,
                     errors': seq<int>, c: Config, c': Config) {
    && end <= |candidates| && Increasing(seen)
    && (forall k :: 0 <= k < |seen| ==> seen[k] < end && LinkGood(checks, candidates, seen[k], c, c'))
    && AllUnsupported(errors) && AllUnsupported(errors') && |seen| + |errors| + |errors'| == end
    && (|seen| == end ==> forall k :: 0 <= k < end ==> seen[k] == k)
  }

  /** What ended the test before the last candidate: an error that is not tolerated, or a bad link. */
  datatype Stop = Nothing | BadError(rc: int) | BadLink(candidate: nat)

  /** What one candidate came to. */
  datatype Turn = Good | PassedOver | Stopped(stop: Stop)

  /** One candidate is set on both sides, unless one refuses it, and the link is checked. */
  method TryCandidate(iut: PhyTree, tst: PhyTree, checks: Checks, candidates: seq<ModeInfo>, i: nat,
                      ghost c: Config, ghost c': Config)
    returns (turn: Turn, ghost e: seq<int>, ghost e': seq<int>)
    requires iut != tst && i < |candidates|
    requires Untouched(c, iut.committed) && Untouched(c', tst.committed)
    modifies iut, tst
    ensures After(old(StateOf(iut)), StateOf(iut), c, e) && After(old(StateOf(tst)), StateOf(tst), c', e')
    ensures TurnExact(turn, e, e', i, LinkGood(checks, candidates, i, old(iut.committed), old(tst.committed)))
  {
    var rc;
    e, e' := [], [];
    rc, e := SetSide(iut, candidates[i], c);
    if rc == OK {
      rc, e' := SetSide(tst, candidates[i], c');
    }
    if Unsupported(rc) {
      turn := PassedOver;
    } else if rc != OK {
      turn := Stopped(BadError(rc));
    } else if !checks(i, iut.committed, tst.committed) {
      turn := Stopped(BadLink(i));
    } else {
      turn := Good;
    }
  }

  /** The outcome is fixed by the errors on the two sides and, when there is none, by the link. */
  predicate TurnExact(turn: Turn, e: seq<int>, e': seq<int>, i: nat, good: bool) {
    match turn
    case Good => e == e' == [] && good
    case PassedOver => |e| + |e'| == 1 && AllUnsupported(e) && AllUnsupported(e')
    case Stopped(Nothing) => false
    case Stopped(BadError(rc)) => !Unsupported(rc) && ((e == [rc] && e' == []) || (e == [] && e' == [rc]))
    case Stopped(BadLink(k)) => k == i && e == e' == [] && !good
  }

  lemma ProgressTurn(checks: Checks, candidates: seq<ModeInfo>, i: nat, seen: seq<nat>, errors: seq<int>,
                     errors': seq<int>, turn: Turn, e: seq<int>, e': seq<int>, c: Config, c': Config)
    requires Progress(checks, candidates, i, seen, errors, errors', c, c')
    requires i < |candidates| && !turn.Stopped? && TurnExact(turn, e, e', i, LinkGood(checks, candidates, i, c, c'))
    ensures Progress(checks, candidates, i + 1, if turn.Good? then seen + [i] else seen, errors + e, errors' + e', c,
                     c')
  {
  }

  /** A run over the candidates: up to the end, or up to the candidate that stopped it. */
  predicate RunExact(checks: Checks, candidates: seq<ModeInfo>, seen: seq<nat>, errors: seq<int>, errors': seq<int>,
                     stop: Stop, last: seq<int>, last': seq<int>, c: Config, c': Config) {
    var end := |seen| + |errors| + |errors'|;
    && Progress(checks, candidates, end, seen, errors, errors', c, c')
    && (stop == Nothing ==> end == |candidates| && last == last' == [])
    && (stop != Nothing ==>
          end < |candidates| && TurnExact(Stopped(stop), last, last', end, LinkGood(checks, candidates, end, c, c')))
  }

  /** The same, for a run that has come to candidate i from the states s and s'. */
  method TryNext(iut: PhyTree, tst: PhyTree, checks: Checks, candidates: seq<ModeInfo>, i: nat, ghost c: Config,
                 ghost c': Config, ghost s: SideState, ghost s': SideState, ghost seen: seq<nat>,
                 ghost errors: seq<int>, ghost errors': seq<int>)
    returns (turn: Turn, ghost e: seq<int>, ghost e': seq<int>)
    requires iut != tst && i < |candidates|
    requires After(s, StateOf(iut), c, errors) && After(s', StateOf(tst), c', errors')
    requires Progress(checks, candidates, i, seen, errors, errors', s.committed, s'.committed)
    modifies iut, tst
    ensures After(s, StateOf(iut), c, errors + e) && After(s', StateOf(tst), c', errors' + e')
    ensures TurnExact(turn, e, e', i, LinkGood(checks, candidates, i, s.committed, s'.committed))
    ensures !turn.Stopped? ==>
      Progress(checks, candidates, i + 1, if turn.Good? then seen + [i] else seen, errors + e, errors' + e',
               s.committed, s'.committed)
  {
    ghost var t, t' := StateOf(iut), StateOf(tst);
    turn, e, e' := TryCandidate(iut, tst, checks, candidates, i, c, c');
    AfterAfter(s, t, StateOf(iut), c, errors, e);
    AfterAfter(s', t', StateOf(tst), c', errors', e');
    if !turn.Stopped? {
      ProgressTurn(checks, candidates, i, seen, errors, errors', turn, e, e', s.committed, s'.committed);
    }
  }

  /**
   * Both sides are switched through all the candidates. A candidate that either side refuses as unsupported is passed
   * over; for the others the link is checked with both sides set to it. `seen` are the candidates tested with a good
   * link, `errors` and `errors'` the errors on both sides before the stop, `last` and `last'` those of the stop. The
   * test fails exactly when it is stopped, and passes exactly when it is not and more than one candidate was tested.
   */
  method TryAll(iut: PhyTree, tst: PhyTree, checks: Checks, candidates: seq<ModeInfo>, ghost c: Config,
                ghost c': Config)
    returns (v: Verdict, tested: nat, ghost seen: seq<nat>, ghost errors: seq<int>, ghost errors': seq<int>,
             ghost stop: Stop, ghost last: seq<int>, ghost last': seq<int>)
    requires iut != tst
    requires Untouched(c, iut.committed) && Untouched(c', tst.committed)
    modifies iut, tst
    ensures After(old(StateOf(iut)), StateOf(iut), c, errors + last)
    ensures After(old(StateOf(tst)), StateOf(tst), c', errors' + last')
    ensures v == if stop != Nothing then Failed else if tested > 1 then Pass else Skipped
    ensures tested == |seen| && RunExact(checks, candidates, seen, errors, errors', stop, last, last',
                                         old(iut.committed), old(tst.committed))
  {
    tested, seen, errors, errors', stop, last, last' := 0, [], [], [], Nothing, [], [];
    ghost var s, s' := StateOf(iut), StateOf(tst);
    for i := 0 to |candidates|
      invariant After(s, StateOf(iut), c, errors) && After(s', StateOf(tst), c', errors')
      invariant tested == |seen|
      invariant Progress(checks, candidates, i, seen, errors, errors', s.committed, s'.committed)
    {
      var turn;
      ghost var e, e';
      turn, e, e' := TryNext(iut, tst, checks, candidates, i, c, c', s, s', seen, errors, errors');
      if turn.Stopped? {
        v, stop, last, last' := Failed, turn.stop, e, e';
        return;
      }
      if turn.Good? {
        tested, seen := tested + 1, seen + [i];
      }
      errors, errors' := errors + e, errors' + e';
    }
    assert errors + [] == errors && errors' + [] == errors';
    v := if tested > 1 then Pass else Skipped;
  }

  /** The candidates of what was saved are tried one by one. */
  method SwitchModes(iut: PhyTree, tst: PhyTree, iutSaved: SavedState, tstSaved: SavedState, checks: Checks,
                     ghost c: Config, ghost c': Config)
    returns (v: Verdict, tested: nat, ghost seen: seq<nat>, ghost errors: seq<int>, ghost errors': seq<int>,
             ghost stop: Stop, ghost last: seq<int>, ghost last': seq<int>)
    requires iut != tst
    requires Untouched(c, iut.committed) && Untouched(c', tst.committed)
    modifies iut, tst
    ensures After(old(StateOf(iut)), StateOf(iut), c, errors + last)
    ensures After(old(StateOf(tst)), StateOf(tst), c', errors' + last')
    ensures v == if stop != Nothing then Failed else if tested > 1 then Pass else Skipped
    ensures tested == |seen|
    ensures RunExact(checks, Candidates(iutSaved, tstSaved), seen, errors, errors', stop, last, last',
                     old(iut.committed), old(tst.committed))
  {
    var candidates := FindCommonModeCandidates(iutSaved, tstSaved);
    v, tested, seen, errors, errors', stop, last, last' :=
      TryAll(iut, tst, checks, candidates, c, c');
  }

  /** With no failure the verdict is that of the checks. */
  lemma VerdictOfChecks(checks: Checks, candidates: seq<ModeInfo>, seen: seq<nat>, stop: Stop, c: Config, c': Config)
    requires RunExact(checks, candidates, seen, [], [], stop, [], [], c, c')
    ensures stop == Nothing <==> AllGood(checks, candidates, c, c')
  {
    forall i | 0 <= i < |seen| ensures LinkGood(checks, candidates, i, c, c') {
      assert seen[i] == i;
    }
  }

  /** The link is as expected for every candidate. */
  predicate AllGood(checks: Checks, candidates: seq<ModeInfo>, c: Config, c': Config) {
    forall i :: 0 <= i < |candidates| ==> LinkGood(checks, candidates, i, c, c')
  }

  /** What a failed save means for the test. */
  function SaveVerdict(rc: int): Verdict {
    if rc == ENOENT || rc == EOPNOTSUPP then Skipped else Failed
  }

  /** How far the test has got with one side. */
  datatype Side = Side(saved: bool, restored: bool)

  /** The save on a side failed, and the test is skipped or fails as the error says. */
  twostate predicate SaveFailed(tree: PhyTree, v: Verdict)
    reads tree
  {
    exists rc ::
      tree.errors == old(tree.errors) + [rc] && v == if rc == ENOENT || rc == EOPNOTSUPP then Skipped else Failed
  }

  /** The candidates are those of what is saved of the two sides. */
  ghost predicate AreCandidates(candidates: seq<ModeInfo>, c: Config, c': Config) {
    exists names, names' ::
      && Enumerates(names, c.adv) && Enumerates(names', c'.adv)
      && candidates == Candidates(SaveOf(c, names), SaveOf(c', names'))
  }

  /** What is saved of a side is what it was, and the side is under way. */
  twostate predicate SavedOf(tree: PhyTree, state: SavedState, names: seq<string>)
    reads tree
  {
    && Enumerates(names, old(tree.committed.adv)) && state == SaveOf(old(tree.committed), names)
    && Underway(tree, old(tree.committed))
    && (NoFailure(tree) ==> tree.staged == NOTHING_STAGED)
  }

  twostate predicate Unchanged(tree: PhyTree)
    reads tree
  {
    tree.committed == old(tree.committed) && tree.staged == old(tree.staged)
  }

  /** The test up to the cleanup. */
  method TestBody(iut: PhyTree, tst: PhyTree, checks: Checks)
    returns (v: Verdict, iutSaved: SavedState, tstSaved: SavedState, ghost names: seq<string>,
             ghost names': seq<string>)
    requires iut != tst
    modifies iut, tst
    ensures if iutSaved.saved then SavedOf(iut, iutSaved, names) else Unchanged(iut) && SaveFailed(iut, v)
    ensures if tstSaved.saved then SavedOf(tst, tstSaved, names') && iutSaved.saved else Unchanged(tst)
    ensures iutSaved.saved && !tstSaved.saved ==> SaveFailed(tst, v)
    ensures NoFailure(iut) && NoFailure(tst) ==>
      iutSaved.saved && tstSaved.saved
      && v == CheckVerdict(checks, Candidates(iutSaved, tstSaved), old(iut.committed), old(tst.committed))
  {
    ghost var c, c' := iut.committed, tst.committed;
    tstSaved, names' := NOT_SAVED, [];
    var rc, tested;
    rc, iutSaved, names := StateSave(iut);
    v := SaveVerdict(rc);
    if rc != OK { return; }
    rc, tstSaved, names' := StateSave(tst);
    v := SaveVerdict(rc);
    if rc != OK { return; }
    ghost var seen, errors, errors', stop, last, last';
    v, tested, seen, errors, errors', stop, last, last' :=
      SwitchModes(iut, tst, iutSaved, tstSaved, checks, c, c');
    if NoFailure(iut) && NoFailure(tst) {
      VerdictOfChecks(checks, Candidates(iutSaved, tstSaved), seen, stop, c, c');
    }
  }

  /** The verdict when no call fails. */
  function CheckVerdict(checks: Checks, candidates: seq<ModeInfo>, c: Config, c': Config): Verdict {
    if !AllGood(checks, candidates, c, c') then Failed else if |candidates| > 1 then Pass else Skipped
  }

  /**
   * The whole test on both sides, ending anywhere: each side is cleaned up as PhyConfig.CleanedUp says. When no call
   * fails the test fails exactly when the link is not as expected for some candidate, and passes exactly when it is for
   * all and there is more than one.
   */
  method RunTest(iut: PhyTree, tst: PhyTree, checks: Checks)
    returns (v: Verdict, iutSide: Side, tstSide: Side, ghost iutEnd: Snapshot, ghost tstEnd: Snapshot,
             ghost candidates: seq<ModeInfo>)
    requires iut != tst
    modifies iut, tst
    ensures CleanedUp(iut, iutSide.saved, iutSide.restored, iutEnd)
    ensures CleanedUp(tst, tstSide.saved, tstSide.restored, tstEnd)
    ensures NoFailure(iut) && NoFailure(tst) ==> iutSide.restored && tstSide.restored
    ensures !iutSide.saved ==> !tstSide.saved && SaveFailed(iut, v)
    ensures iutSide.saved && !tstSide.saved ==> SaveFailed(tst, v)
    ensures iutSide.saved && tstSide.saved ==> AreCandidates(candidates, old(iut.committed), old(tst.committed))
    ensures NoFailure(iut) && NoFailure(tst) ==>
      v == CheckVerdict(checks, candidates, old(iut.committed), old(tst.committed))
  {
    ghost var c, c' := iut.committed, tst.committed;
    var iutSaved, tstSaved;
    ghost var names, names';
    v, iutSaved, tstSaved, names, names' := TestBody(iut, tst, checks);
    candidates := Candidates(iutSaved, tstSaved);
    iutEnd := Snapshot(iut.committed, iut.staged, iut.faults);
    tstEnd := Snapshot(tst.committed, tst.staged, tst.faults);
    iutSide, tstSide := Side(iutSaved.saved, false), Side(tstSaved.saved, false);
    if iutSaved.saved {
      var restored := Cleanup(iut, iutSaved, c, names);
      iutSide := Side(true, restored);
    }
    if tstSaved.saved {
      var restored := Cleanup(tst, tstSaved, c', names');
      tstSide := Side(true, restored);
    }
  }
}
