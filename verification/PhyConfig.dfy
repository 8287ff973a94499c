/**
 * PHY configuration transactions: saving, applying and restoring autonegotiation and fixed modes
 * (net-drv-ts/lib/net_drv_phy.c). Every access to the configuration tree may fail.
 */
module PhyConfig {
  import opened Common
  import opened PhyModes

  datatype Autoneg = AutonegOff | AutonegOn | AutonegUnknown

  /** The PHY settings of an interface; advertised bits are kept by mode name. */
  datatype Config = Config(autoneg: Autoneg, speed: int, duplex: Duplex, adv: map<string, bool>)

  /** Settings changed locally and not yet committed. */
  datatype Staged = Staged(
    autoneg: Option<Autoneg>, speed: Option<int>, duplex: Option<Duplex>, adv: map<string, bool>)

  const NOTHING_STAGED: Staged := Staged(None, None, None, map[])

  function OrElse<T>(x: Option<T>, y: T): T {
    if x.Some? then x.value else y
  }

  /** The configuration once the staged settings are committed. */
  function Merge(c: Config, s: Staged): Config {
    Config(OrElse(s.autoneg, c.autoneg), OrElse(s.speed, c.speed), OrElse(s.duplex, c.duplex), c.adv + s.adv)
  }

  const OK: int := 0
  const ENOENT: int := 2
  const EACCES: int := 13
  const EINVAL: int := 22
  const EOPNOTSUPP: int := 95

  /**
   * How a commit ends: its error, and for a failed one which of the staged settings it has applied nevertheless and
   * whether they all stay staged.
   */
  datatype CommitFate = CommitFate(
    rc: int, keep: bool, autoneg: bool, speed: bool, duplex: bool, modes: set<string>)

  /** What a failed commit leaves on the interface. */
  function PartialMerge(c: Config, s: Staged, f: CommitFate): Config {
    Config(if f.autoneg then OrElse(s.autoneg, c.autoneg) else c.autoneg,
           if f.speed then OrElse(s.speed, c.speed) else c.speed,
           if f.duplex then OrElse(s.duplex, c.duplex) else c.duplex,
           map n | n in c.adv :: if n in f.modes && n in s.adv then s.adv[n] else c.adv[n])
  }

  /** Every setting is the old or the new one. */
  predicate PartOf(c: Config, e: Config, d: Config) {
    && d.autoneg in {c.autoneg, e.autoneg} && d.speed in {c.speed, e.speed} && d.duplex in {c.duplex, e.duplex}
    && d.adv.Keys == c.adv.Keys
    && forall n :: n in c.adv ==> d.adv[n] == c.adv[n] || (n in e.adv && d.adv[n] == e.adv[n])
  }

  lemma PartialIsPart(c: Config, s: Staged, f: CommitFate)
    ensures PartOf(c, Merge(c, s), PartialMerge(c, s, f))
  {
  }

  /**
   * The configuration tree of one interface. Which calls fail, and how, is an input: by the number of the commit, or
   * of the call for all others. A regular GET is refused while anything is staged, whatever the input says.
   */
  class PhyTree {
    const callFate: nat -> int
    const commitFate: nat -> CommitFate
    var committed: Config
    var staged: Staged
    var calls: nat
    var commits: nat
    /** GETs refused because something was staged, all other calls that failed, and the errors of both in order. */
    ghost var deniedGets: nat
    ghost var faults: nat
    ghost var errors: seq<int>
    /** Local SETs, those that succeeded, and failed commits that dropped what was staged. */
    ghost var writes: nat
    ghost var sets: nat
    ghost var drops: nat

    constructor (committed: Config, callFate: nat -> int, commitFate: nat -> CommitFate)
      ensures this.committed == committed && this.callFate == callFate && this.commitFate == commitFate
      ensures staged == NOTHING_STAGED && calls == commits == 0
    {
      this.committed, this.callFate, this.commitFate := committed, callFate, commitFate;
      staged, calls, commits := NOTHING_STAGED, 0, 0;
    }

    /** No call but a commit fails of its own accord. */
    ghost predicate Calm() {
      forall i: nat :: callFate(i) == OK
    }

    /** A failure is counted once, on one of the two counters, with its error. */
    twostate predicate Noted(rc: int)
      reads this
    {
      && (rc == OK ==> faults == old(faults) && deniedGets == old(deniedGets) && errors == old(errors))
      && (rc != OK ==>
            && errors == old(errors) + [rc] && faults + deniedGets == old(faults) + old(deniedGets) + 1
            && faults >= old(faults) && deniedGets >= old(deniedGets))
    }

    method Fault(rc: int)
      modifies this`faults, this`errors
      ensures Noted(rc)
    {
      if rc != OK {
        faults, errors := faults + 1, errors + [rc];
      }
    }

    method MayFail() returns (rc: int)
      modifies this`calls, this`faults, this`errors
      ensures Noted(rc) && rc == callFate(old(calls))
    {
      rc := callFate(calls);
      calls := calls + 1;
      Fault(rc);
    }

    /** Checks common to all GETs: refused while something is staged, and may fail anyway. */
    method StartGet() returns (rc: int)
      modifies this`calls, this`deniedGets, this`faults, this`errors
      ensures Noted(rc)
      ensures rc == OK ==> staged == NOTHING_STAGED
      ensures deniedGets == old(deniedGets) + if staged == NOTHING_STAGED then 0 else 1
      ensures Calm() && staged == NOTHING_STAGED ==> rc == OK
    {
      if staged != NOTHING_STAGED {
        deniedGets, errors := deniedGets + 1, errors + [EACCES];
        return EACCES;
      }
      rc := MayFail();
    }

    method AutonegGet() returns (rc: int, v: Autoneg)
      modifies this`calls, this`deniedGets, this`faults, this`errors
      ensures Noted(rc)
      ensures rc == OK ==> staged == NOTHING_STAGED && v == committed.autoneg
      ensures deniedGets == old(deniedGets) + if staged == NOTHING_STAGED then 0 else 1
      ensures Calm() && staged == NOTHING_STAGED ==> rc == OK
    {
      rc := StartGet();
      v := committed.autoneg;
    }

    method SpeedAdminGet() returns (rc: int, v: int)
      modifies this`calls, this`deniedGets, this`faults, this`errors
      ensures Noted(rc)
      ensures rc == OK ==> staged == NOTHING_STAGED && v == committed.speed
      ensures deniedGets == old(deniedGets) + if staged == NOTHING_STAGED then 0 else 1
      ensures Calm() && staged == NOTHING_STAGED ==> rc == OK
    {
      rc := StartGet();
      v := committed.speed;
    }

    method DuplexAdminGet() returns (rc: int, v: Duplex)
      modifies this`calls, this`deniedGets, this`faults, this`errors
      ensures Noted(rc)
      ensures rc == OK ==> staged == NOTHING_STAGED && v == committed.duplex
      ensures deniedGets == old(deniedGets) + if staged == NOTHING_STAGED then 0 else 1
      ensures Calm() && staged == NOTHING_STAGED ==> rc == OK
    {
      rc := StartGet();
      v := committed.duplex;
    }

    method ModeAdvGet(name: string) returns (rc: int, v: bool)
      modifies this`calls, this`deniedGets, this`faults, this`errors
      ensures Noted(rc)
      ensures rc == OK ==> staged == NOTHING_STAGED && name in committed.adv && v == committed.adv[name]
      ensures deniedGets == old(deniedGets) + if staged == NOTHING_STAGED then 0 else 1
      ensures Calm() && staged == NOTHING_STAGED && name in committed.adv ==> rc == OK
    {
      rc := StartGet();
      v := false;
      if rc != OK { return; }
      if name !in committed.adv {
        Fault(ENOENT);
        return ENOENT, v;
      }
      v := committed.adv[name];
    }

    /** Names of all the modes, each once, in some order. */
    method FindModes() returns (rc: int, names: seq<string>)
      modifies this`calls, this`faults, this`errors
      ensures Noted(rc) && deniedGets == old(deniedGets)
      ensures rc == OK ==> Enumerates(names, committed.adv)
      ensures Calm() ==> rc == OK
    {
      names := [];
      rc := MayFail();
      if rc != OK { return; }
      var rest := committed.adv.Keys;
      while rest != {}
        invariant rest !! set n | n in names
        invariant rest + (set n | n in names) == committed.adv.Keys
        invariant Distinct(names)
      {
        var n :| n in rest;
        rest := rest - {n};
        names := names + [n];
      }
    }

    method Synchronize() returns (rc: int)
      modifies this`calls, this`faults, this`errors
      ensures Noted(rc) && deniedGets == old(deniedGets)
      ensures Calm() ==> rc == OK
    {
      rc := MayFail();
    }

    /** Staging one more setting, when the call succeeds. */
    method StartSet() returns (rc: int)
      modifies this`calls, this`faults, this`errors, this`writes, this`sets
      ensures Noted(rc) && deniedGets == old(deniedGets)
      ensures writes == old(writes) + 1 && sets == old(sets) + if rc == OK then 1 else 0
      ensures Calm() ==> rc == OK
    {
      writes := writes + 1;
      rc := MayFail();
      if rc == OK { sets := sets + 1; }
    }

    method AutonegSet(v: Autoneg) returns (rc: int)
      modifies this`staged, this`calls, this`faults, this`errors, this`writes, this`sets
      ensures Noted(rc) && deniedGets == old(deniedGets)
      ensures staged == if rc == OK then old(staged).(autoneg := Some(v)) else old(staged)
      ensures writes == old(writes) + 1 && sets == old(sets) + if rc == OK then 1 else 0
      ensures Calm() ==> rc == OK
    {
      rc := StartSet();
      if rc == OK {
        staged := staged.(autoneg := Some(v));
      }
    }

    method SpeedAdminSet(v: int) returns (rc: int)
      modifies this`staged, this`calls, this`faults, this`errors, this`writes, this`sets
      ensures Noted(rc) && deniedGets == old(deniedGets)
      ensures staged == if rc == OK then old(staged).(speed := Some(v)) else old(staged)
      ensures writes == old(writes) + 1 && sets == old(sets) + if rc == OK then 1 else 0
      ensures Calm() ==> rc == OK
    {
      rc := StartSet();
      if rc == OK {
        staged := staged.(speed := Some(v));
      }
    }

    method DuplexAdminSet(v: Duplex) returns (rc: int)
      modifies this`staged, this`calls, this`faults, this`errors, this`writes, this`sets
      ensures Noted(rc) && deniedGets == old(deniedGets)
      ensures staged == if rc == OK then old(staged).(duplex := Some(v)) else old(staged)
      ensures writes == old(writes) + 1 && sets == old(sets) + if rc == OK then 1 else 0
      ensures Calm() ==> rc == OK
    {
      rc := StartSet();
      if rc == OK {
        staged := staged.(duplex := Some(v));
      }
    }

    method ModeAdvSet(name: string, v: bool) returns (rc: int)
      modifies this`staged, this`calls, this`faults, this`errors, this`writes, this`sets
      ensures Noted(rc) && deniedGets == old(deniedGets)
      ensures rc == OK ==> name in committed.adv
      ensures staged == if rc == OK then old(staged).(adv := old(staged).adv[name := v]) else old(staged)
      ensures writes == old(writes) + 1 && sets == old(sets) + if rc == OK then 1 else 0
      ensures Calm() && name in committed.adv ==> rc == OK
    {
      if name !in committed.adv {
        writes := writes + 1;
        Fault(ENOENT);
        return ENOENT;
      }
      rc := StartSet();
      if rc == OK {
        staged := staged.(adv := staged.adv[name := v]);
      }
    }

    method Commit() returns (rc: int)
      modifies this`committed, this`staged, this`commits, this`faults, this`errors, this`drops
      ensures Noted(rc) && deniedGets == old(deniedGets)
      ensures commits == old(commits) + 1 && rc == commitFate(old(commits)).rc
      ensures rc == OK ==> committed == Merge(old(committed), old(staged)) && staged == NOTHING_STAGED
      ensures rc != OK ==> var f := commitFate(old(commits));
        && committed == PartialMerge(old(committed), old(staged), f)
        && staged == if f.keep then old(staged) else NOTHING_STAGED
      ensures drops == old(drops) + if rc != OK && !commitFate(old(commits)).keep then 1 else 0
    {
      var fate := commitFate(commits);
      rc, commits := fate.rc, commits + 1;
      Fault(rc);
      committed := if rc == OK then Merge(committed, staged) else PartialMerge(committed, staged, fate);
      if rc == OK || !fate.keep {
        staged := NOTHING_STAGED;
      }
      if rc != OK && !fate.keep {
        drops := drops + 1;
      }
    }
  }

  predicate Enumerates(names: seq<string>, adv: map<string, bool>) {
    Distinct(names) && (set n | n in names) == adv.Keys
  }

  // ---------------------------------------------------------------- what the operations do

  datatype SavedState = SavedState(
    autoneg: Autoneg, speedAdmin: int, duplexAdmin: Duplex, modes: seq<ModeInfo>, saved: bool)

  const NOT_SAVED: SavedState := SavedState(AutonegUnknown, SPEED_UNKNOWN, UnknownDuplex, [], false)

  /** Which value a mode should get. */
  type Want = ModeInfo -> bool

  function Listed(mode1: string, mode2: Option<string>): Want {
    (m: ModeInfo) => m.name == mode1 || mode2 == Some(m.name)
  }

  function AsSaved(): Want {
    (m: ModeInfo) => m.advertised
  }

  /** The bits written for the link modes of a list, one after the other. */
  function Targets(modes: seq<ModeInfo>, want: Want): map<string, bool> {
    if modes == [] then map[]
    else
      var t, m := Targets(modes[..|modes| - 1], want), modes[|modes| - 1];
      if IsLinkMode(m) then t[m.name := want(m)] else t
  }

  function AutonegEffect(c: Config, st: SavedState, mode1: string, mode2: Option<string>): Config {
    c.(autoneg := AutonegOn, adv := c.adv + Targets(st.modes, Listed(mode1, mode2)))
  }

  function FixedEffect(c: Config, speed: int, duplex: Duplex): Config {
    c.(autoneg := AutonegOff, speed := speed, duplex := duplex)
  }

  function RestoreEffect(c: Config, st: SavedState): Config {
    Config(st.autoneg,
           if st.autoneg.AutonegOff? then st.speedAdmin else c.speed,
           if st.autoneg.AutonegOff? then st.duplexAdmin else c.duplex,
           c.adv + Targets(st.modes, AsSaved()))
  }

  /** What a save reads when the modes are found in this order. */
  function SaveOf(c: Config, names: seq<string>): SavedState
    requires Enumerates(names, c.adv)
  {
    SavedState(c.autoneg, c.speed, c.duplex, InfosOf(c.adv, names), true)
  }

  function InfosOf(adv: map<string, bool>, names: seq<string>): seq<ModeInfo>
    requires forall i :: 0 <= i < |names| ==> names[i] in adv
  {
    seq(|names|, i requires 0 <= i < |names| => InfoOf(names[i], adv[names[i]]))
  }

  /** All the link modes of the list exist. */
  predicate Present(adv: map<string, bool>, modes: seq<ModeInfo>) {
    forall i :: 0 <= i < |modes| && IsLinkMode(modes[i]) ==> modes[i].name in adv
  }

  predicate Matches(adv: map<string, bool>, m: ModeInfo, want: Want) {
    IsLinkMode(m) ==> m.name in adv && adv[m.name] == want(m)
  }

  predicate AllMatch(adv: map<string, bool>, modes: seq<ModeInfo>, want: Want) {
    forall i :: 0 <= i < |modes| ==> Matches(adv, modes[i], want)
  }

  lemma {:induction false} MatchMeansNoChange(adv: map<string, bool>, modes: seq<ModeInfo>, want: Want)
    requires AllMatch(adv, modes, want)
    ensures adv + Targets(modes, want) == adv
  {
    if modes != [] {
      MatchMeansNoChange(adv, modes[..|modes| - 1], want);
    }
  }

  /** Names in the list are distinct, as names of instances in the tree are. */
  predicate UniqueNames(modes: seq<ModeInfo>) {
    forall i, j :: 0 <= i < j < |modes| ==> modes[i].name != modes[j].name
  }

  lemma {:induction false} TargetsPointwise(modes: seq<ModeInfo>, want: Want)
    ensures forall n :: n in Targets(modes, want) ==>
      exists i :: 0 <= i < |modes| && IsLinkMode(modes[i]) && modes[i].name == n
                  && Targets(modes, want)[n] == want(modes[i])
    ensures forall i :: 0 <= i < |modes| && IsLinkMode(modes[i]) ==> modes[i].name in Targets(modes, want)
  {
    if modes != [] {
      TargetsPointwise(modes[..|modes| - 1], want);
    }
  }

  lemma NoChangeMeansMatch(adv: map<string, bool>, modes: seq<ModeInfo>, want: Want)
    requires UniqueNames(modes) && adv + Targets(modes, want) == adv
    ensures AllMatch(adv, modes, want)
  {
    TargetsPointwise(modes, want);
    var t := Targets(modes, want);
    forall i | 0 <= i < |modes| && IsLinkMode(modes[i]) ensures Matches(adv, modes[i], want) {
      var n := modes[i].name;
      assert n in t && (adv + t)[n] == t[n];
    }
  }

  // ---------------------------------------------------------------- the operations

  /** Do all link modes have the wanted bits? Stops at the first that does not. */
  method CheckModes(tree: PhyTree, modes: seq<ModeInfo>, want: Want) returns (rc: int, same: bool)
    modifies tree`calls, tree`deniedGets, tree`faults, tree`errors
    ensures tree.Noted(rc)
    ensures rc == OK ==> (same <==> AllMatch(tree.committed.adv, modes, want))
    ensures tree.staged == NOTHING_STAGED ==> tree.deniedGets == old(tree.deniedGets)
  {
    for i := 0 to |modes|
      invariant forall j :: 0 <= j < i ==> Matches(tree.committed.adv, modes[j], want)
      invariant tree.Noted(OK)
    {
      if IsLinkMode(modes[i]) {
        var advertised;
        rc, advertised := tree.ModeAdvGet(modes[i].name);
        if rc != OK { return rc, false; }
        if advertised != want(modes[i]) { return OK, false; }
      }
    }
    return OK, true;
  }

  /** Since then nothing was staged if and only if no SET went through. */
  twostate predicate StagedBySets(tree: PhyTree)
    reads tree
  {
    && tree.sets >= old(tree.sets)
    && (tree.sets == old(tree.sets) ==> tree.staged == old(tree.staged))
    && (tree.sets > old(tree.sets) ==> tree.staged != NOTHING_STAGED)
  }

  method StageModes(tree: PhyTree, modes: seq<ModeInfo>, want: Want) returns (rc: int)
    requires tree.staged.adv == map[]
    modifies tree`staged, tree`calls, tree`faults, tree`errors, tree`writes, tree`sets
    ensures tree.Noted(rc) && tree.deniedGets == old(tree.deniedGets)
    ensures rc == OK ==> tree.staged == old(tree.staged).(adv := Targets(modes, want))
    ensures rc == OK ==> Present(tree.committed.adv, modes)
    ensures tree.writes >= old(tree.writes)
    ensures StagedBySets(tree)
  {
    for i := 0 to |modes|
      invariant tree.Noted(OK)
      invariant forall j :: 0 <= j < i && IsLinkMode(modes[j]) ==> modes[j].name in tree.committed.adv
      invariant tree.staged == old(tree.staged).(adv := Targets(modes[..i], want))
      invariant tree.sets >= old(tree.sets) && tree.writes >= old(tree.writes)
      invariant tree.sets > old(tree.sets) <==> Targets(modes[..i], want) != map[]
    {
      assert modes[..i + 1][..i] == modes[..i];
      if IsLinkMode(modes[i]) {
        assert modes[i].name in Targets(modes[..i + 1], want);
        rc := tree.ModeAdvSet(modes[i].name, want(modes[i]));
        if rc != OK { return; }
      }
    }
    assert modes[..|modes|] == modes;
    return OK;
  }

  /** What every operation promises of its result, given what it does when it succeeds. */
  twostate predicate Transaction(tree: PhyTree, rc: int, effect: Config)
    reads tree
  {
    // It fails exactly when a call does, at the first one, with its error.
    && tree.Noted(rc)
    && (rc == OK ==> tree.committed == effect && tree.staged == NOTHING_STAGED)
    // Only a commit that fails can leave part of the effect.
    && (rc != OK ==> PartOf(old(tree.committed), effect, tree.committed))
    && (rc != OK && tree.commits == old(tree.commits) ==> tree.committed == old(tree.committed))
    // While something is staged nothing at all can be done, and nothing is.
    && (old(tree.staged) != NOTHING_STAGED ==>
          rc != OK && tree.staged == old(tree.staged)
          && tree.writes == old(tree.writes) && tree.commits == old(tree.commits))
    // Started with nothing staged, no GET is ever refused.
    && (old(tree.staged) == NOTHING_STAGED ==> tree.deniedGets == old(tree.deniedGets))
    // Something stays staged exactly when a SET went through and no failed commit dropped it.
    && (old(tree.staged) == NOTHING_STAGED && rc != OK ==>
          (tree.staged != NOTHING_STAGED <==> tree.sets > old(tree.sets) && tree.drops == old(tree.drops)))
    && tree.commits <= old(tree.commits) + 1
  }

  /** An operation that has nothing to change writes and commits nothing. */
  twostate predicate Quiet(tree: PhyTree, effect: Config)
    reads tree
  {
    effect == old(tree.committed) ==> tree.writes == old(tree.writes) && tree.commits == old(tree.commits)
  }

  /** Autonegotiation is on, and of the link modes of a list those with the given names are advertised. */
  predicate AutonegDone(c: Config, modes: seq<ModeInfo>, mode1: string, mode2: Option<string>) {
    && c.autoneg == AutonegOn && Present(c.adv, modes)
    && forall i :: 0 <= i < |modes| && IsLinkMode(modes[i]) ==>
         (c.adv[modes[i].name] <==> modes[i].name == mode1 || mode2 == Some(modes[i].name))
  }

  /** No mode appeared or disappeared, and only link modes of the list have other bits. */
  predicate OnlyLinksChanged(c: Config, d: Config, modes: seq<ModeInfo>) {
    && d.adv.Keys == c.adv.Keys
    && forall n :: n in c.adv && (forall i :: 0 <= i < |modes| && IsLinkMode(modes[i]) ==> modes[i].name != n) ==>
         d.adv[n] == c.adv[n]
  }

  lemma TargetsChangeLinks(c: Config, modes: seq<ModeInfo>, want: Want)
    requires Present(c.adv, modes)
    ensures OnlyLinksChanged(c, c.(adv := c.adv + Targets(modes, want)), modes)
  {
    TargetsPointwise(modes, want);
  }

  lemma AutonegEffectDone(c: Config, state: SavedState, mode1: string, mode2: Option<string>)
    requires Present(c.adv, state.modes)
    ensures var d := AutonegEffect(c, state, mode1, mode2);
      && AutonegDone(d, state.modes, mode1, mode2) && OnlyLinksChanged(c, d, state.modes)
      && d.speed == c.speed && d.duplex == c.duplex
  {
    TargetsPointwise(state.modes, Listed(mode1, mode2));
    TargetsChangeLinks(c, state.modes, Listed(mode1, mode2));
  }

  /** With nothing staged and no other call failing, an operation with something to change is what its commit is. */
  twostate predicate CommitDecides(tree: PhyTree, rc: int, effect: Config)
    reads tree
  {
    if effect == old(tree.committed) then rc == OK
    else
      && tree.commits == old(tree.commits) + 1
      && rc == tree.commitFate(old(tree.commits)).rc
      && (rc != OK ==> (tree.staged != NOTHING_STAGED <==> tree.commitFate(old(tree.commits)).keep))
      && (rc != OK && tree.staged != NOTHING_STAGED ==>
            tree.committed == PartialMerge(old(tree.committed), tree.staged, tree.commitFate(old(tree.commits))))
  }

  method StageAutoneg(tree: PhyTree, state: SavedState, mode1: string, mode2: Option<string>) returns (rc: int)
    requires tree.staged == NOTHING_STAGED
    modifies tree`staged, tree`calls, tree`faults, tree`errors, tree`writes, tree`sets
    ensures tree.Noted(rc) && tree.deniedGets == old(tree.deniedGets)
    ensures rc == OK ==> tree.sets > old(tree.sets)
    ensures rc == OK ==> Merge(tree.committed, tree.staged) == AutonegEffect(tree.committed, state, mode1, mode2)
    ensures rc == OK ==> Present(tree.committed.adv, state.modes) && tree.writes > old(tree.writes)
    ensures StagedBySets(tree)
  {
    rc := StageModes(tree, state.modes, Listed(mode1, mode2));
    if rc != OK { return; }
    rc := tree.AutonegSet(AutonegOn);
  }

  /** Is everything as wanted already? */
  method CheckAutoneg(tree: PhyTree, state: SavedState, mode1: string, mode2: Option<string>)
    returns (rc: int, done: bool)
    modifies tree`calls, tree`deniedGets, tree`faults, tree`errors
    ensures tree.Noted(rc)
    ensures rc == OK ==> tree.staged == NOTHING_STAGED
    ensures tree.staged == NOTHING_STAGED ==> tree.deniedGets == old(tree.deniedGets)
    ensures rc == OK ==> (done <==> AutonegDone(tree.committed, state.modes, mode1, mode2))
    ensures rc == OK && done ==> AutonegEffect(tree.committed, state, mode1, mode2) == tree.committed
    ensures rc == OK && !done && UniqueNames(state.modes) ==>
      AutonegEffect(tree.committed, state, mode1, mode2) != tree.committed
  {
    ghost var c := tree.committed;
    var want := Listed(mode1, mode2);
    var current, same;
    done := false;
    rc, current := tree.AutonegGet();
    if rc != OK { return; }
    rc, same := CheckModes(tree, state.modes, want);
    if rc != OK { return; }
    if same {
      MatchMeansNoChange(c.adv, state.modes, want);
    } else if UniqueNames(state.modes) && c.adv + Targets(state.modes, want) == c.adv {
      NoChangeMeansMatch(c.adv, state.modes, want);
    }
    done := current == AutonegOn && same;
  }

  method ApplyAutonegModes(tree: PhyTree, state: SavedState, mode1: string, mode2: Option<string>) returns (rc: int)
    modifies tree
    ensures Transaction(tree, rc, AutonegEffect(old(tree.committed), state, mode1, mode2))
    ensures UniqueNames(state.modes) ==> Quiet(tree, AutonegEffect(old(tree.committed), state, mode1, mode2))
    ensures rc == OK ==>
      && AutonegDone(tree.committed, state.modes, mode1, mode2)
      && OnlyLinksChanged(old(tree.committed), tree.committed, state.modes)
      && tree.committed.speed == old(tree.committed.speed) && tree.committed.duplex == old(tree.committed.duplex)
    ensures rc == OK ==>
      (tree.writes == old(tree.writes) <==> AutonegDone(old(tree.committed), state.modes, mode1, mode2))
  {
    ghost var c := tree.committed;
    var done;
    rc, done := CheckAutoneg(tree, state, mode1, mode2);
    if rc != OK || done { return; }
    rc := StageAutoneg(tree, state, mode1, mode2);
    if rc != OK { return; }
    AutonegEffectDone(c, state, mode1, mode2);
    PartialIsPart(c, tree.staged, tree.commitFate(tree.commits));
    rc := tree.Commit();
  }

  /** Staging what differs from the wanted fixed mode; nothing is written when nothing does. */
  method StageFixed(tree: PhyTree, autoneg: Autoneg, currentSpeed: int, currentDuplex: Duplex, speed: int,
                    duplex: Duplex) returns (rc: int, haveChanges: bool)
    requires tree.staged == NOTHING_STAGED
    requires tree.committed == Config(autoneg, currentSpeed, currentDuplex, tree.committed.adv)
    modifies tree`staged, tree`calls, tree`faults, tree`errors, tree`writes, tree`sets
    ensures tree.Noted(rc) && tree.deniedGets == old(tree.deniedGets)
    ensures rc == OK ==> Merge(tree.committed, tree.staged) == FixedEffect(tree.committed, speed, duplex)
    ensures rc == OK ==> (haveChanges <==> FixedEffect(tree.committed, speed, duplex) != tree.committed)
    ensures rc == OK ==> (haveChanges <==> tree.sets > old(tree.sets))
    ensures rc == OK ==> (haveChanges <==> tree.writes > old(tree.writes))
    ensures FixedEffect(tree.committed, speed, duplex) == tree.committed ==> tree.writes == old(tree.writes) && rc == OK
    ensures tree.Calm() ==> rc == OK
    ensures StagedBySets(tree)
  {
    haveChanges := false;
    assert tree.committed.adv + map[] == tree.committed.adv;
    if autoneg != AutonegOff {
      rc := tree.AutonegSet(AutonegOff);
      if rc != OK { return; }
      haveChanges := true;
    }
    if currentSpeed != speed {
      rc := tree.SpeedAdminSet(speed);
      if rc != OK { return; }
      haveChanges := true;
    }
    if currentDuplex != duplex {
      rc := tree.DuplexAdminSet(duplex);
      if rc != OK { return; }
      haveChanges := true;
    }
    rc := OK;
  }

  method ApplyFixedMode(tree: PhyTree, speed: int, duplex: Duplex) returns (rc: int)
    modifies tree
    ensures Transaction(tree, rc, FixedEffect(old(tree.committed), speed, duplex))
    ensures Quiet(tree, FixedEffect(old(tree.committed), speed, duplex))
    ensures rc == OK ==> tree.committed == old(tree.committed).(autoneg := AutonegOff, speed := speed, duplex := duplex)
    ensures rc == OK ==> (tree.writes == old(tree.writes) <==> tree.committed == old(tree.committed))
    ensures tree.Calm() && old(tree.staged) == NOTHING_STAGED ==>
      CommitDecides(tree, rc, FixedEffect(old(tree.committed), speed, duplex))
  {
    ghost var c := tree.committed;
    var haveChanges, autoneg, currentSpeed, currentDuplex;
    rc, autoneg := tree.AutonegGet();
    if rc != OK { return; }
    rc, currentSpeed := tree.SpeedAdminGet();
    if rc != OK { return; }
    rc, currentDuplex := tree.DuplexAdminGet();
    if rc != OK { return; }
    rc, haveChanges := StageFixed(tree, autoneg, currentSpeed, currentDuplex, speed, duplex);
    if rc != OK { return; }
    if !haveChanges { return OK; }
    PartialIsPart(c, tree.staged, tree.commitFate(tree.commits));
    rc := tree.Commit();
  }

  predicate AdminMatches(c: Config, state: SavedState) {
    && c.autoneg == state.autoneg
    && (state.autoneg.AutonegOff? ==> c.speed == state.speedAdmin && c.duplex == state.duplexAdmin)
  }

  /** Is anything but the advertised bits different from the saved state? */
  method CheckAdmin(tree: PhyTree, state: SavedState) returns (rc: int, same: bool)
    modifies tree`calls, tree`deniedGets, tree`faults, tree`errors
    ensures tree.Noted(rc)
    ensures rc == OK ==> tree.staged == NOTHING_STAGED
    ensures rc == OK ==> (same <==> AdminMatches(tree.committed, state))
    ensures tree.staged == NOTHING_STAGED ==> tree.deniedGets == old(tree.deniedGets)
  {
    var autoneg;
    same := true;
    rc, autoneg := tree.AutonegGet();
    if rc != OK { return; }
    if state.autoneg == AutonegOff {
      var speed, duplex;
      rc, speed := tree.SpeedAdminGet();
      if rc != OK { return; }
      if speed != state.speedAdmin { same := false; }
      rc, duplex := tree.DuplexAdminGet();
      if rc != OK { return; }
      if duplex != state.duplexAdmin { same := false; }
    }
    if autoneg != state.autoneg { same := false; }
  }

  /**
   * Autonegotiation and the bits of the saved link modes are those saved, and so are speed and duplex when
   * autonegotiation was off; otherwise speed and duplex stay.
   */
  predicate RestoreDone(c: Config, d: Config, state: SavedState) {
    && d.autoneg == state.autoneg
    && (state.autoneg == AutonegOff ==> d.speed == state.speedAdmin && d.duplex == state.duplexAdmin)
    && (state.autoneg != AutonegOff ==> d.speed == c.speed && d.duplex == c.duplex)
    && Present(d.adv, state.modes)
    && forall i :: 0 <= i < |state.modes| && IsLinkMode(state.modes[i]) ==>
         d.adv[state.modes[i].name] == state.modes[i].advertised
  }

  lemma RestoreEffectDone(c: Config, state: SavedState)
    requires Present(c.adv, state.modes) && UniqueNames(state.modes)
    ensures RestoreDone(c, RestoreEffect(c, state), state) && OnlyLinksChanged(c, RestoreEffect(c, state), state.modes)
  {
    TargetsPointwise(state.modes, AsSaved());
    TargetsChangeLinks(c, state.modes, AsSaved());
  }

  method StageRestore(tree: PhyTree, state: SavedState) returns (rc: int)
    requires tree.staged == NOTHING_STAGED
    modifies tree`staged, tree`calls, tree`faults, tree`errors, tree`writes, tree`sets
    ensures tree.Noted(rc) && tree.deniedGets == old(tree.deniedGets)
    ensures rc == OK ==> tree.sets > old(tree.sets)
    ensures rc == OK ==> Merge(tree.committed, tree.staged) == RestoreEffect(tree.committed, state)
    ensures rc == OK ==> Present(tree.committed.adv, state.modes) && tree.writes > old(tree.writes)
    ensures StagedBySets(tree)
  {
    rc := tree.AutonegSet(state.autoneg);
    if rc != OK { return; }
    if state.autoneg == AutonegOff {
      rc := tree.SpeedAdminSet(state.speedAdmin);
      if rc != OK { return; }
      rc := tree.DuplexAdminSet(state.duplexAdmin);
      if rc != OK { return; }
    }
    rc := StageModes(tree, state.modes, AsSaved());
  }

  /** Is everything as saved already? */
  method CheckRestore(tree: PhyTree, state: SavedState) returns (rc: int, done: bool)
    modifies tree`calls, tree`deniedGets, tree`faults, tree`errors
    ensures tree.Noted(rc)
    ensures rc == OK ==> tree.staged == NOTHING_STAGED
    ensures tree.staged == NOTHING_STAGED ==> tree.deniedGets == old(tree.deniedGets)
    ensures rc == OK ==> (done <==> RestoreDone(tree.committed, tree.committed, state))
    ensures rc == OK && done ==> RestoreEffect(tree.committed, state) == tree.committed
    ensures rc == OK && !done && UniqueNames(state.modes) ==> RestoreEffect(tree.committed, state) != tree.committed
  {
    ghost var c := tree.committed;
    var sameAdmin, sameModes;
    done := false;
    rc := tree.Synchronize();
    if rc != OK { return; }
    rc, sameAdmin := CheckAdmin(tree, state);
    if rc != OK { return; }
    rc, sameModes := CheckModes(tree, state.modes, AsSaved());
    if rc != OK { return; }
    if sameModes {
      MatchMeansNoChange(c.adv, state.modes, AsSaved());
    } else if UniqueNames(state.modes) && c.adv + Targets(state.modes, AsSaved()) == c.adv {
      NoChangeMeansMatch(c.adv, state.modes, AsSaved());
    }
    done := sameAdmin && sameModes;
  }

  method StateRestore(tree: PhyTree, state: SavedState) returns (rc: int)
    modifies tree
    ensures Transaction(tree, rc, RestoreEffect(old(tree.committed), state))
    ensures UniqueNames(state.modes) ==> Quiet(tree, RestoreEffect(old(tree.committed), state))
    ensures rc == OK && UniqueNames(state.modes) ==>
      && RestoreDone(old(tree.committed), tree.committed, state)
      && OnlyLinksChanged(old(tree.committed), tree.committed, state.modes)
    ensures rc == OK && UniqueNames(state.modes) ==>
      (tree.writes == old(tree.writes) <==> RestoreDone(old(tree.committed), old(tree.committed), state))
  {
    ghost var c := tree.committed;
    var done;
    rc, done := CheckRestore(tree, state);
    if rc != OK || done { return; }
    rc := StageRestore(tree, state);
    if rc != OK { return; }
    if UniqueNames(state.modes) {
      RestoreEffectDone(c, state);
    }
    PartialIsPart(c, tree.staged, tree.commitFate(tree.commits));
    rc := tree.Commit();
  }

  method StateSave(tree: PhyTree) returns (rc: int, state: SavedState, ghost names: seq<string>)
    modifies tree`calls, tree`deniedGets, tree`faults, tree`errors
    ensures tree.Noted(rc)
    ensures rc == OK ==> tree.staged == NOTHING_STAGED
    ensures rc == OK ==> Enumerates(names, tree.committed.adv) && state == SaveOf(tree.committed, names)
    ensures rc != OK ==> !state.saved
    ensures tree.staged == NOTHING_STAGED ==> tree.deniedGets == old(tree.deniedGets)
    ensures tree.Calm() && tree.staged == NOTHING_STAGED ==> rc == OK
  {
    state, names := NOT_SAVED, [];
    var autoneg, speed, duplex, found;
    rc, autoneg := tree.AutonegGet();
    if rc != OK { return; }
    rc, speed := tree.SpeedAdminGet();
    if rc != OK { return; }
    rc, duplex := tree.DuplexAdminGet();
    if rc != OK { return; }
    rc, found := tree.FindModes();
    if rc != OK { return; }
    names := found;
    var modes: seq<ModeInfo> := [];
    forall i | 0 <= i < |names| ensures names[i] in tree.committed.adv {
      assert names[i] in set n | n in names;
    }
    for i := 0 to |found|
      invariant modes == InfosOf(tree.committed.adv, names[..i])
      invariant tree.Noted(OK)
    {
      var advertised;
      rc, advertised := tree.ModeAdvGet(found[i]);
      if rc != OK { return; }
      modes := modes + [InfoOf(found[i], advertised)];
    }
    assert names[..|found|] == names;
    state := SavedState(autoneg, speed, duplex, modes, true);
    rc := OK;
  }

  // ---------------------------------------------------------------- whole runs

  datatype Op =
    | ApplyAutoneg(mode1: string, mode2: Option<string>)
    | ApplyFixed(speed: int, duplex: Duplex)
    | Restore

  function Effect(c: Config, st: SavedState, op: Op): Config {
    match op
    case ApplyAutoneg(m1, m2) => AutonegEffect(c, st, m1, m2)
    case ApplyFixed(speed, duplex) => FixedEffect(c, speed, duplex)
    case Restore => RestoreEffect(c, st)
  }

  function EffectAll(c: Config, st: SavedState, ops: seq<Op>): Config {
    if ops == [] then c else Effect(EffectAll(c, st, ops[..|ops| - 1]), st, ops[|ops| - 1])
  }

  lemma MergeTwice(adv: map<string, bool>, t: map<string, bool>)
    ensures adv + t + t == adv + t
  {
  }

  /** Doing an operation twice is doing it once, so by Quiet the second call writes and commits nothing. */
  lemma EffectIdempotent(c: Config, st: SavedState, op: Op)
    ensures Effect(Effect(c, st, op), st, op) == Effect(c, st, op)
  {
    match op
    case ApplyAutoneg(m1, m2) => MergeTwice(c.adv, Targets(st.modes, Listed(m1, m2)));
    case ApplyFixed(speed, duplex) =>
    case Restore => MergeTwice(c.adv, Targets(st.modes, AsSaved()));
  }

  lemma Listing(names: seq<string>, adv: map<string, bool>)
    requires Enumerates(names, adv)
    ensures forall i :: 0 <= i < |names| ==> names[i] in adv
    ensures forall n :: n in adv ==> exists i :: 0 <= i < |names| && names[i] == n
  {
    assert forall i :: 0 <= i < |names| ==> names[i] in set n | n in names;
    forall n | n in adv ensures n in names {
      assert n in set m | m in names;
    }
  }

  lemma SavedModes(c: Config, names: seq<string>)
    requires Enumerates(names, c.adv)
    ensures var modes := SaveOf(c, names).modes;
      && |modes| == |names|
      && (forall i :: 0 <= i < |names| ==>
            names[i] in c.adv && modes[i].name == names[i] && modes[i] == InfoOf(names[i], c.adv[names[i]]))
      && UniqueNames(modes)
  {
    Listing(names, c.adv);
  }

  /** The saved modes are found by name, each with what its name says and the bit it had. */
  lemma SavedNamed(c: Config, names: seq<string>, n: string)
    requires Enumerates(names, c.adv)
    ensures var modes := SaveOf(c, names).modes;
      && (n in c.adv ==> InfoOf(n, c.adv[n]) in modes && FirstNamed(modes, n) == Some(InfoOf(n, c.adv[n])))
      && (n !in c.adv ==> FirstNamed(modes, n) == None)
      && (forall m :: m in modes && m.name == n ==> n in c.adv && m == InfoOf(n, c.adv[n]))
  {
    var modes := SaveOf(c, names).modes;
    SavedModes(c, names);
    if n in c.adv {
      assert exists i :: 0 <= i < |names| && names[i] == n by { Listing(names, c.adv); }
      var i :| 0 <= i < |names| && names[i] == n;
      assert modes[i] == InfoOf(n, c.adv[n]);
      FirstNamedAt(modes, n, i);
    }
  }

  /** Only bits of link modes that exist are written. */
  lemma TargetsAreLinks(c: Config, names: seq<string>, want: Want)
    requires Enumerates(names, c.adv)
    ensures forall n :: n in Targets(SaveOf(c, names).modes, want) <==> n in c.adv && ParseMode(n).Some?
  {
    var modes := SaveOf(c, names).modes;
    SavedModes(c, names);
    Listing(names, c.adv);
    TargetsPointwise(modes, want);
    forall i | 0 <= i < |modes| ensures IsLinkMode(modes[i]) <==> ParseMode(names[i]).Some? {
      LinkModeByName(names[i], c.adv[names[i]]);
    }
    forall n | n in c.adv && ParseMode(n).Some? ensures n in Targets(modes, want) {
      var i :| 0 <= i < |names| && names[i] == n;
      assert modes[i].name == n;
    }
  }

  /** No mode was added or removed, and no mode that is not a link mode has another bit. */
  predicate Untouched(c: Config, d: Config) {
    d.adv.Keys == c.adv.Keys && forall n :: n in c.adv && ParseMode(n).None? ==> d.adv[n] == c.adv[n]
  }

  lemma EffectUntouched(c: Config, names: seq<string>, d: Config, op: Op)
    requires Enumerates(names, c.adv) && Untouched(c, d)
    ensures Untouched(c, Effect(d, SaveOf(c, names), op))
  {
    match op
    case ApplyAutoneg(m1, m2) => TargetsAreLinks(c, names, Listed(m1, m2));
    case ApplyFixed(speed, duplex) =>
    case Restore => TargetsAreLinks(c, names, AsSaved());
  }

  lemma PartUntouched(c: Config, d: Config, e: Config, d': Config)
    requires Untouched(c, d) && Untouched(c, e) && PartOf(d, e, d')
    ensures Untouched(c, d')
  {
  }

  /** No run adds or removes a mode, or changes the bit of a mode that is not a link mode. */
  lemma {:induction false} OthersUntouched(c: Config, names: seq<string>, ops: seq<Op>)
    requires Enumerates(names, c.adv)
    ensures Untouched(c, EffectAll(c, SaveOf(c, names), ops))
  {
    if ops != [] {
      OthersUntouched(c, names, ops[..|ops| - 1]);
      EffectUntouched(c, names, EffectAll(c, SaveOf(c, names), ops[..|ops| - 1]), ops[|ops| - 1]);
    }
  }

  lemma SavedTargets(c: Config, names: seq<string>)
    requires Enumerates(names, c.adv)
    ensures forall n :: n in Targets(SaveOf(c, names).modes, AsSaved()) ==>
      n in c.adv && Targets(SaveOf(c, names).modes, AsSaved())[n] == c.adv[n]
  {
    SavedModes(c, names);
    TargetsPointwise(SaveOf(c, names).modes, AsSaved());
    TargetsAreLinks(c, names, AsSaved());
  }

  lemma OverwrittenBack(c: map<string, bool>, d: map<string, bool>, t: map<string, bool>)
    requires d.Keys == c.Keys && forall n :: n in t ==> n in c && t[n] == c[n]
    requires forall n :: n in c && n !in t ==> d[n] == c[n]
    ensures d + t == c
  {
  }

  /** What restore makes of any configuration in which only link modes differ from the saved one. */
  lemma RestoreFrom(c: Config, names: seq<string>, d: Config)
    requires Enumerates(names, c.adv) && Untouched(c, d)
    ensures RestoreEffect(d, SaveOf(c, names))
         == if c.autoneg.AutonegOff? then c else c.(speed := d.speed, duplex := d.duplex)
  {
    var t := Targets(SaveOf(c, names).modes, AsSaved());
    TargetsAreLinks(c, names, AsSaved());
    SavedTargets(c, names);
    OverwrittenBack(c.adv, d.adv, t);
  }

  /**
   * Round trip: after a save and any run of operations, a restore brings back autonegotiation and every advertised
   * bit. Administrative speed and duplex come back when autonegotiation was off, and stay as the run left them when
   * it was not.
   */
  lemma RestoreAfterRun(c: Config, names: seq<string>, ops: seq<Op>)
    requires Enumerates(names, c.adv)
    ensures var st := SaveOf(c, names);
      var d := EffectAll(c, st, ops);
      RestoreEffect(d, st) == if c.autoneg.AutonegOff? then c else c.(speed := d.speed, duplex := d.duplex)
  {
    OthersUntouched(c, names, ops);
    RestoreFrom(c, names, EffectAll(c, SaveOf(c, names), ops));
  }

  /** All comes back if and only if autonegotiation was off or the run left speed and duplex alone. */
  lemma RestoreCompleteIff(c: Config, names: seq<string>, ops: seq<Op>)
    requires Enumerates(names, c.adv)
    ensures var st := SaveOf(c, names);
      var d := EffectAll(c, st, ops);
      RestoreEffect(d, st) == c <==> c.autoneg.AutonegOff? || (d.speed == c.speed && d.duplex == c.duplex)
  {
    RestoreAfterRun(c, names, ops);
  }

  method Perform(tree: PhyTree, state: SavedState, op: Op) returns (rc: int)
    modifies tree
    ensures Transaction(tree, rc, Effect(old(tree.committed), state, op))
  {
    match op
    case ApplyAutoneg(m1, m2) => rc := ApplyAutonegModes(tree, state, m1, m2);
    case ApplyFixed(speed, duplex) => rc := ApplyFixedMode(tree, speed, duplex);
    case Restore => rc := StateRestore(tree, state);
  }

  /** What a restore brings back of the saved configuration. */
  predicate Restored(c: Config, d: Config) {
    d.autoneg == c.autoneg && d.adv == c.adv && (c.autoneg.AutonegOff? ==> d == c)
  }

  /**
   * Whatever failed before, the restore of the cleanup brings the configuration back if and only if nothing was left
   * staged and no call fails in it. With something left staged it changes nothing at all.
   */
  method Cleanup(tree: PhyTree, state: SavedState, ghost c: Config, ghost names: seq<string>) returns (restored: bool)
    requires Enumerates(names, c.adv) && state == SaveOf(c, names) && Untouched(c, tree.committed)
    modifies tree
    ensures restored <==> old(tree.staged) == NOTHING_STAGED && tree.faults == old(tree.faults)
    ensures restored ==> tree.staged == NOTHING_STAGED && Restored(c, tree.committed)
    ensures old(tree.staged) != NOTHING_STAGED ==>
      tree.committed == old(tree.committed) && tree.staged == old(tree.staged)
    ensures old(tree.staged) == NOTHING_STAGED ==> tree.deniedGets == old(tree.deniedGets)
    ensures tree.faults >= old(tree.faults) && tree.deniedGets >= old(tree.deniedGets)
    ensures Untouched(c, tree.committed)
  {
    ghost var d := tree.committed;
    var rc := StateRestore(tree, state);
    EffectUntouched(c, names, d, Restore);
    RestoreFrom(c, names, d);
    PartUntouched(c, d, RestoreEffect(d, state), if rc == OK then d else tree.committed);
    restored := rc == OK;
  }

  /** How things stand when the cleanup begins. */
  datatype Snapshot = Snapshot(committed: Config, staged: Staged, faults: nat)

  /**
   * What a whole run promises of one interface: the restore succeeds if and only if nothing was staged when the
   * cleanup began and no other call of it failed, and then the configuration is back; with something staged it is as
   * the run left it.
   */
  twostate predicate CleanedUp(tree: PhyTree, saved: bool, restored: bool, atEnd: Snapshot)
    reads tree
  {
    && (!saved ==> !restored && tree.committed == old(tree.committed) && tree.staged == old(tree.staged))
    && (saved ==> (restored <==> atEnd.staged == NOTHING_STAGED && tree.faults == atEnd.faults))
    && (restored ==> tree.staged == NOTHING_STAGED && Restored(old(tree.committed), tree.committed))
    && (saved && atEnd.staged != NOTHING_STAGED ==>
          tree.committed == atEnd.committed && tree.staged == atEnd.staged)
    && (saved && atEnd.staged == NOTHING_STAGED ==> tree.deniedGets == old(tree.deniedGets))
    && Untouched(old(tree.committed), tree.committed)
  }

  /** What holds between the save and the cleanup. */
  twostate predicate Underway(tree: PhyTree, c: Config)
    reads tree
  {
    && Untouched(c, tree.committed)
    && tree.faults >= old(tree.faults) && tree.deniedGets >= old(tree.deniedGets)
    && (tree.staged == NOTHING_STAGED ==> tree.deniedGets == old(tree.deniedGets))
  }

  /** One operation of a run, which may fail; the run is still under way. */
  method Attempt(tree: PhyTree, state: SavedState, op: Op, ghost c: Config, ghost names: seq<string>) returns (rc: int)
    requires Enumerates(names, c.adv) && state == SaveOf(c, names) && Untouched(c, tree.committed)
    modifies tree
    ensures Transaction(tree, rc, Effect(old(tree.committed), state, op)) && Underway(tree, c)
  {
    ghost var d := tree.committed;
    rc := Perform(tree, state, op);
    EffectUntouched(c, names, d, op);
    PartUntouched(c, d, Effect(d, state, op), if rc == OK then d else tree.committed);
  }

  /**
   * A test run: save, any operations, and the restore of the cleanup. After a failed operation the run goes on with
   * the next one or to the cleanup, as the error is tolerated or not. Everything succeeds exactly when no call fails,
   * and whatever failed, the cleanup does what CleanedUp says.
   */
  method RunTest(tree: PhyTree, ops: seq<Op>, tolerated: int -> bool)
    returns (saved: bool, allDone: bool, restored: bool, ghost atEnd: Snapshot)
    modifies tree
    ensures saved && allDone && restored <==>
      tree.faults == old(tree.faults) && tree.deniedGets == old(tree.deniedGets)
    ensures CleanedUp(tree, saved, restored, atEnd)
  {
    ghost var c := tree.committed;
    saved, allDone, restored := false, false, false;
    atEnd := Snapshot(tree.committed, tree.staged, tree.faults);
    var rc, st;
    ghost var names;
    rc, st, names := StateSave(tree);
    if rc != OK { return; }
    saved, allDone := true, true;
    for i := 0 to |ops|
      invariant Underway(tree, c)
      invariant allDone <==> tree.faults == old(tree.faults) && tree.deniedGets == old(tree.deniedGets)
      invariant allDone ==> tree.staged == NOTHING_STAGED
    {
      rc := Attempt(tree, st, ops[i], c, names);
      if rc != OK {
        allDone := false;
        if !tolerated(rc) { break; }
      }
    }
    atEnd := Snapshot(tree.committed, tree.staged, tree.faults);
    restored := Cleanup(tree, st, c, names);
  }

  /**
   * A run in which the cleanup fails to restore: the first fixed mode is set, the driver refuses the second with
   * EINVAL and the refused settings stay staged. No call but that commit fails of its own accord.
   */
  method RestoreRefused() returns (before: Config, first: int, second: int, restored: bool, after: Config)
    ensures first == OK && second == EINVAL && !restored
    ensures before.autoneg == AutonegOn && after == before.(autoneg := AutonegOff, speed := 1000, duplex := Full)
  {
    before := Config(AutonegOn, SPEED_UNKNOWN, UnknownDuplex, map[]);
    var done := CommitFate(OK, false, false, false, false, {});
    var refused := CommitFate(EINVAL, true, false, false, false, {});
    var tree := new PhyTree(before, i => OK, i => if i == 1 then refused else done);
    var rc, st;
    ghost var names;
    rc, st, names := StateSave(tree);
    first := ApplyFixedMode(tree, 1000, Full);
    second := ApplyFixedMode(tree, 100, Full);
    restored := Cleanup(tree, st, before, names);
    after := tree.committed;
  }
}
