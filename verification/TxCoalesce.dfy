/**
 * Setting Tx coalescing parameters and restoring them on every way out: net-drv-ts/ethtool/tx_coalesce.c. Every call
 * to the configuration may fail, and a failed call may have taken effect in part.
 */
module TxCoalesce {

  const ADAPTIVE: string := "use_adaptive_tx_coalesce"

  const OK: int := 0
  const EFAIL: int := 1
  const ENOENT: int := 2
  const EACCES: int := 13
  const EINVAL: int := 22

  /** A parameter, the value of the profile and the value saved before the test. */
  datatype Param = Param(name: string, value: nat, prevValue: nat)

  // ---------------------------------------------------------------- the configuration

  /** A commit: its result and what was staged. */
  datatype CommitRecord = CommitRecord(rc: int, staged: map<string, nat>)

  /** Coalescing settings of an interface: committed ones and those set locally and not yet committed. */
  class Coalesce {
    var committed: map<string, nat>
    var staged: map<string, nat>
    /** How many commits of concrete values were made while adaptive Tx coalescing was on. */
    ghost var unsafeCommits: nat
    /** How many calls failed, and what was committed with which result. */
    ghost var faults: nat
    ghost var commitLog: seq<CommitRecord>

    method MayFail() returns (rc: int)
      modifies this`faults
      ensures faults == old(faults) + if rc == OK then 0 else 1
    {
      rc := OK;
      if * {
        faults := faults + 1;
        rc := EFAIL;
      }
    }

    method Get(name: string) returns (rc: int, v: nat)
      modifies this`faults
      ensures faults == old(faults) + if rc == OK then 0 else 1
      ensures rc == OK ==> staged == map[] && name in committed && v == committed[name]
    {
      v := 0;
      if staged != map[] || name !in committed {
        faults := faults + 1;
        return if staged != map[] then EACCES else ENOENT, v;
      }
      rc := MayFail();
      v := committed[name];
    }

    method SetLocal(name: string, v: nat) returns (rc: int)
      modifies this`staged, this`faults
      ensures faults == old(faults) + if rc == OK then 0 else 1
      ensures rc == OK ==> name in committed && staged == old(staged)[name := v]
      ensures rc != OK ==> staged == old(staged)
    {
      if name !in committed {
        faults := faults + 1;
        return ENOENT;
      }
      rc := MayFail();
      if rc == OK {
        staged := staged[name := v];
      }
    }

    /** A regular SET of one parameter. */
    method Set(name: string, v: nat) returns (rc: int)
      modifies this`committed, this`faults
      ensures faults == old(faults) + if rc == OK then 0 else 1
      ensures rc == OK ==> name in old(committed) && committed == old(committed)[name := v]
      ensures rc != OK ==>
        committed == old(committed) || (name in old(committed) && committed == old(committed)[name := v])
    {
      if name !in committed {
        faults := faults + 1;
        return ENOENT;
      }
      rc := MayFail();
      if rc != OK {
        if * { committed := committed[name := v]; }
        return;
      }
      committed := committed[name := v];
    }

    /** A commit that fails may apply any part of what is staged, and may keep it staged or drop it. */
    method Commit() returns (rc: int)
      modifies this
      ensures faults == old(faults) + if rc == OK then 0 else 1
      ensures commitLog == old(commitLog) + [CommitRecord(rc, old(staged))]
      ensures rc == OK ==> committed == old(committed) + old(staged) && staged == map[]
      ensures rc != OK ==> Between(old(committed), old(staged), committed) && (staged == old(staged) || staged == map[])
      ensures unsafeCommits == old(unsafeCommits) + if AdaptiveOn(old(committed)) && old(staged) != map[] then 1 else 0
    {
      if AdaptiveOn(committed) && staged != map[] {
        unsafeCommits := unsafeCommits + 1;
      }
      rc := *;
      commitLog := commitLog + [CommitRecord(rc, staged)];
      if rc == OK {
        committed := committed + staged;
        staged := map[];
        return;
      }
      faults := faults + 1;
      var part: set<string> := *;
      committed := map k | k in committed :: if k in part && k in staged then staged[k] else committed[k];
      if * {
        staged := map[];
      }
    }
  }

  predicate AdaptiveOn(c: map<string, nat>) {
    ADAPTIVE in c && c[ADAPTIVE] != 0
  }

  /** Some of the staged values are applied. */
  predicate Between(c: map<string, nat>, staged: map<string, nat>, c': map<string, nat>) {
    c'.Keys == c.Keys && forall k :: k in c ==> c'[k] == c[k] || (k in staged && c'[k] == staged[k])
  }

  // ---------------------------------------------------------------- profiles

  datatype Profile =
    | Disabled | TimeOnly | FramesOnly | TimeFrames | Irq | IrqUsecs | IrqFrames
    | Adaptive | AdaptiveLowTime | AdaptiveLowFrames | AdaptiveHighTime | AdaptiveHighFrames | AdaptiveRate
    | Invalid

  predicate EnablesAdaptive(p: Profile) {
    match p
    case Adaptive | AdaptiveLowTime | AdaptiveLowFrames | AdaptiveHighTime | AdaptiveHighFrames | AdaptiveRate => true
    case _ => false
  }

  function P(name: string, value: nat): Param {
    Param(name, value, 0)
  }

  function ProfileParams(p: Profile): (r: seq<Param>)
    ensures r != []
  {
    match p
    case Disabled => [P("tx_coalesce_usecs", 0), P("tx_max_coalesced_frames", 1)]
    case TimeOnly => [P("tx_coalesce_usecs", 100), P("tx_max_coalesced_frames", 0)]
    case FramesOnly => [P("tx_coalesce_usecs", 0), P("tx_max_coalesced_frames", 16)]
    case TimeFrames => [P("tx_coalesce_usecs", 100), P("tx_max_coalesced_frames", 16)]
    case Irq => [P("tx_coalesce_usecs_irq", 50), P("tx_max_coalesced_frames_irq", 8)]
    case IrqUsecs => [P("tx_coalesce_usecs_irq", 50)]
    case IrqFrames => [P("tx_max_coalesced_frames_irq", 8)]
    case Adaptive => [P(ADAPTIVE, 1)]
    case AdaptiveLowTime => [P("tx_coalesce_usecs_low", 10), P(ADAPTIVE, 1)]
    case AdaptiveLowFrames => [P("tx_max_coalesced_frames_low", 1), P(ADAPTIVE, 1)]
    case AdaptiveHighTime => [P("tx_coalesce_usecs_high", 200), P(ADAPTIVE, 1)]
    case AdaptiveHighFrames => [P("tx_max_coalesced_frames_high", 32), P(ADAPTIVE, 1)]
    case AdaptiveRate =>
      [P("pkt_rate_low", 1000), P("pkt_rate_high", 10000), P("rate_sample_interval", 1), P(ADAPTIVE, 1)]
    case Invalid => [P("tx_coalesce_usecs", 0), P("tx_max_coalesced_frames", 0)]
  }

  /** The two tables agree: a profile lists the adaptive flag, last and set, exactly if it enables adaptive Tx. */
  lemma ProfilesConsistent(p: Profile)
    ensures EnablesAdaptive(p) <==> exists i :: 0 <= i < |ProfileParams(p)| && ProfileParams(p)[i].name == ADAPTIVE
    ensures forall i :: 0 <= i < |ProfileParams(p)| && ProfileParams(p)[i].name == ADAPTIVE ==>
      i == |ProfileParams(p)| - 1 && ProfileParams(p)[i].value == 1
  {
    var ps := ProfileParams(p);
    if EnablesAdaptive(p) {
      assert ps[|ps| - 1].name == ADAPTIVE;
    }
    assert ADAPTIVE[0] == 'u';
    assert forall i :: 0 <= i < |ps| && !(EnablesAdaptive(p) && i == |ps| - 1) ==> ps[i].name[0] != 'u';
  }

  // ---------------------------------------------------------------- steps of the test

  /** What is set locally: all parameters but the adaptive flag. */
  function LocalValues(ps: seq<Param>, restore: bool): map<string, nat> {
    if ps == [] then map[]
    else
      var init, p := LocalValues(ps[..|ps| - 1], restore), ps[|ps| - 1];
      if p.name == ADAPTIVE then init else init[p.name := if restore then p.prevValue else p.value]
  }

  predicate IsLocalName(ps: seq<Param>, k: string) {
    k != ADAPTIVE && exists i :: 0 <= i < |ps| && ps[i].name == k
  }

  lemma {:induction false} LocalKeys(ps: seq<Param>, restore: bool)
    ensures forall k :: k in LocalValues(ps, restore) <==> IsLocalName(ps, k)
  {
    if ps != [] {
      var n := |ps| - 1;
      LocalKeys(ps[..n], restore);
      forall k ensures k in LocalValues(ps, restore) <==> IsLocalName(ps, k) {
        if IsLocalName(ps, k) && k != ps[n].name {
          var i :| 0 <= i < |ps| && ps[i].name == k;
          assert ps[..n][i].name == k;
        }
        if IsLocalName(ps[..n], k) {
          var i :| 0 <= i < n && ps[..n][i].name == k;
          assert ps[i].name == k;
        }
      }
    }
  }

  /** The saved values are those of this configuration. */
  predicate SavedFrom(ps: seq<Param>, c: map<string, nat>) {
    forall i :: 0 <= i < |ps| ==> ps[i].name in c && ps[i].prevValue == c[ps[i].name]
  }

  lemma {:induction false} LocalRestores(ps: seq<Param>, c: map<string, nat>)
    requires SavedFrom(ps, c)
    ensures forall k :: k in LocalValues(ps, true) ==> k in c && LocalValues(ps, true)[k] == c[k]
  {
    if ps != [] {
      LocalRestores(ps[..|ps| - 1], c);
    }
  }

  method SetParamsLocally(cfg: Coalesce, params: array<Param>, restore: bool) returns (rc: int)
    modifies cfg`staged, cfg`faults
    ensures cfg.faults == old(cfg.faults) + if rc == OK then 0 else 1
    ensures rc == OK ==> cfg.staged == old(cfg.staged) + LocalValues(params[..], restore)
    ensures forall k :: k in cfg.staged ==> k in old(cfg.staged) || IsLocalName(params[..], k)
  {
    ghost var ps := params[..];
    assert ps[..0] == [];
    for i := 0 to params.Length
      invariant cfg.faults == old(cfg.faults)
      invariant cfg.staged == old(cfg.staged) + LocalValues(ps[..i], restore)
    {
      LocalStep(ps, i, restore);
      LocalPrefix(ps, i, restore);
      if params[i].name != ADAPTIVE {
        var v := if restore then params[i].prevValue else params[i].value;
        UpdateAfterAdd(old(cfg.staged), LocalValues(ps[..i], restore), params[i].name, v);
        rc := cfg.SetLocal(params[i].name, v);
        if rc != OK { return; }
      }
    }
    assert ps[..params.Length] == ps;
    LocalPrefix(ps, params.Length, restore);
    rc := OK;
  }

  lemma UpdateAfterAdd(m: map<string, nat>, l: map<string, nat>, k: string, v: nat)
    ensures (m + l)[k := v] == m + l[k := v]
  {
  }

  lemma LocalPrefix(ps: seq<Param>, i: nat, restore: bool)
    requires i <= |ps|
    ensures forall k :: k in LocalValues(ps[..i], restore) ==> IsLocalName(ps, k)
  {
    LocalKeys(ps[..i], restore);
    forall k | k in LocalValues(ps[..i], restore) ensures IsLocalName(ps, k) {
      var j :| 0 <= j < i && ps[..i][j].name == k;
      assert ps[j].name == k;
    }
  }

  lemma LocalStep(ps: seq<Param>, i: nat, restore: bool)
    requires i < |ps|
    ensures LocalValues(ps[..i + 1], restore) ==
      if ps[i].name == ADAPTIVE then LocalValues(ps[..i], restore)
      else LocalValues(ps[..i], restore)[ps[i].name := if restore then ps[i].prevValue else ps[i].value]
  {
    assert ps[..i + 1][..i] == ps[..i];
  }

  method SaveProfileParams(cfg: Coalesce, params: array<Param>) returns (rc: int)
    modifies params, cfg`faults
    ensures cfg.faults == old(cfg.faults) + if rc == OK then 0 else 1
    ensures forall i :: 0 <= i < params.Length ==>
      params[i].name == old(params[i].name) && params[i].value == old(params[i].value)
    ensures rc == OK ==> SavedFrom(params[..], cfg.committed)
    ensures rc == OK && params.Length > 0 ==> cfg.staged == map[]
  {
    var i := 0;
    while i < params.Length
      invariant 0 <= i <= params.Length
      invariant forall j :: 0 <= j < params.Length ==>
        params[j].name == old(params[j].name) && params[j].value == old(params[j].value)
      invariant forall j :: 0 <= j < i ==>
        params[j].name in cfg.committed && params[j].prevValue == cfg.committed[params[j].name]
      invariant i > 0 ==> cfg.staged == map[]
      invariant cfg.faults == old(cfg.faults)
    {
      var v;
      rc, v := cfg.Get(params[i].name);
      if rc != OK { return; }
      params[i] := params[i].(prevValue := v);
      i := i + 1;
    }
    rc := OK;
  }

  predicate Applied(ps: seq<Param>, c: map<string, nat>) {
    forall i :: 0 <= i < |ps| ==> ps[i].name in c && c[ps[i].name] == ps[i].value
  }

  method CheckProfileParams(cfg: Coalesce, params: array<Param>) returns (ok: bool)
    modifies cfg`faults
    ensures ok ==> Applied(params[..], cfg.committed) && cfg.faults == old(cfg.faults)
    ensures !ok ==> cfg.faults > old(cfg.faults) || !Applied(params[..], cfg.committed)
  {
    var i := 0;
    while i < params.Length
      invariant 0 <= i <= params.Length
      invariant forall j :: 0 <= j < i ==>
        params[j].name in cfg.committed && cfg.committed[params[j].name] == params[j].value
      invariant cfg.faults == old(cfg.faults)
    {
      var rc, actual := cfg.Get(params[i].name);
      if rc != OK || actual != params[i].value { return false; }
      i := i + 1;
    }
    ok := true;
  }

  // ---------------------------------------------------------------- the test and its cleanup

  /** What the cleanup knows: was the profile saved, was the adaptive flag, and which value it had. */
  datatype Saved = Saved(params: bool, adaptive: bool, prevAdaptive: nat)

  const NOTHING_SAVED: Saved := Saved(false, false, 0)

  /** What the body of the test may leave for the cleanup, c0 being the configuration before. */
  ghost predicate Leaves(c0: map<string, nat>, c: map<string, nat>, staged: map<string, nat>, ps: seq<Param>,
                         p: Profile, s: Saved) {
    && c.Keys == c0.Keys
    && (s.params ==> SavedFrom(ps, c0) && forall k :: k in staged ==> IsLocalName(ps, k))
    && (!s.params ==> c == c0 && !s.adaptive)
    && (s.adaptive ==> ADAPTIVE in c0 && s.prevAdaptive == c0[ADAPTIVE])
    && (forall k :: k in c0 && k != ADAPTIVE && !IsLocalName(ps, k) ==> c[k] == c0[k])
    // Only a known adaptive flag is touched, and only when the profile or the flag calls for it.
    && (ADAPTIVE in c0 && (!s.adaptive || (!EnablesAdaptive(p) && s.prevAdaptive == 0)) ==> c[ADAPTIVE] == c0[ADAPTIVE])
  }

  lemma CommitLeaves(c0: map<string, nat>, c: map<string, nat>, staged: map<string, nat>, c': map<string, nat>,
                     staged': map<string, nat>, ps: seq<Param>, p: Profile, s: Saved)
    requires Leaves(c0, c, staged, ps, p, s) && s.params
    requires forall k :: k in staged ==> k in c
    requires c' == c + staged || Between(c, staged, c')
    requires staged' == staged || staged' == map[]
    ensures Leaves(c0, c', staged', ps, p, s) && (ADAPTIVE in c0 ==> c'[ADAPTIVE] == c[ADAPTIVE])
  {
    assert ADAPTIVE !in staged;
  }

  /** Saving what the test changes, and turning adaptive Tx off if the profile or its state calls for it. */
  method Prepare(cfg: Coalesce, profile: Profile, params: array<Param>)
    returns (ready: bool, s: Saved, disableFailed: bool)
    requires params.Length > 0
    modifies cfg`committed, cfg`faults, params
    ensures cfg.faults == old(cfg.faults) + if ready then 0 else 1
    ensures ready ==> "tx_coalesce_usecs" in old(cfg.committed)
    ensures forall i :: 0 <= i < params.Length ==>
      params[i].name == old(params[i].name) && params[i].value == old(params[i].value)
    ensures Leaves(old(cfg.committed), cfg.committed, cfg.staged, params[..], profile, s)
    ensures s.params ==> cfg.staged == map[]
    ensures !s.adaptive ==> cfg.committed == old(cfg.committed)
    ensures s.adaptive && !disableFailed ==> cfg.committed[ADAPTIVE] == 0 || EnablesAdaptive(profile)
    ensures ready ==> s.params && s.adaptive && !disableFailed && cfg.committed[ADAPTIVE] == 0
  {
    ready, s, disableFailed := false, NOTHING_SAVED, false;
    var rc, v;
    rc, v := cfg.Get("tx_coalesce_usecs");
    if rc != OK { return; }
    rc := SaveProfileParams(cfg, params);
    if rc != OK { return; }
    s := s.(params := true);
    rc, v := cfg.Get(ADAPTIVE);
    if rc != OK { return; }
    s := s.(adaptive := true, prevAdaptive := v);
    if EnablesAdaptive(profile) || v != 0 {
      rc := cfg.Set(ADAPTIVE, 0);
      if rc != OK {
        disableFailed := true;
        return;
      }
    }
    ready := true;
  }

  lemma StagedKnown(ps: seq<Param>, c: map<string, nat>)
    requires SavedFrom(ps, c)
    ensures forall k :: IsLocalName(ps, k) ==> k in c
  {
  }

  /** What the tables guarantee: no parameter twice, and the adaptive flag, if the profile enables it, set. */
  ghost predicate WellFormed(table: seq<Param>, profile: Profile) {
    && (forall i, j :: 0 <= i < j < |table| ==> table[i].name != table[j].name)
    && (EnablesAdaptive(profile) <==> exists i :: 0 <= i < |table| && table[i].name == ADAPTIVE)
    && (forall i :: 0 <= i < |table| && table[i].name == ADAPTIVE ==> table[i].value == 1)
  }

  lemma ProfilesWellFormed(p: Profile)
    ensures WellFormed(ProfileParams(p), p)
  {
    var ps := ProfileParams(p);
    assert forall i, j :: 0 <= i < j < |ps| ==> |ps[i].name| != |ps[j].name|;
    ProfilesConsistent(p);
  }

  /** The parameters are those of the table, whatever values were saved with them. */
  predicate FromTable(ps: seq<Param>, table: seq<Param>) {
    && |ps| == |table|
    && forall i :: 0 <= i < |ps| ==> ps[i].name == table[i].name && ps[i].value == table[i].value
  }

  lemma {:induction false} LocalApplies(ps: seq<Param>)
    requires forall i, j :: 0 <= i < j < |ps| ==> ps[i].name != ps[j].name
    ensures forall i :: 0 <= i < |ps| && ps[i].name != ADAPTIVE ==>
      ps[i].name in LocalValues(ps, false) && LocalValues(ps, false)[ps[i].name] == ps[i].value
    ensures ADAPTIVE !in LocalValues(ps, false)
  {
    if ps != [] {
      LocalApplies(ps[..|ps| - 1]);
    }
  }

  /** When no call fails the profile ends up applied. */
  lemma ProfileApplied(ps: seq<Param>, table: seq<Param>, profile: Profile, c: map<string, nat>)
    requires FromTable(ps, table) && WellFormed(table, profile)
    ensures !EnablesAdaptive(profile) ==> Applied(ps, c + LocalValues(ps, false))
    ensures EnablesAdaptive(profile) ==> Applied(ps, (c + LocalValues(ps, false))[ADAPTIVE := 1])
  {
    LocalApplies(ps);
  }

  /** Exactly one commit was tried since then. */
  twostate predicate CommittedOnce(cfg: Coalesce)
    reads cfg
  {
    |cfg.commitLog| == |old(cfg.commitLog)| + 1 && old(cfg.commitLog) <= cfg.commitLog
  }

  /** Setting the values of the profile locally and committing them. */
  method CommitProfile(cfg: Coalesce, profile: Profile, params: array<Param>, s: Saved, ghost c0: map<string, nat>)
    returns (rc: int, tried: bool)
    requires Leaves(c0, cfg.committed, cfg.staged, params[..], profile, s) && s.params && s.adaptive
    requires cfg.staged == map[] && cfg.committed[ADAPTIVE] == 0
    modifies cfg
    ensures Leaves(c0, cfg.committed, cfg.staged, params[..], profile, s) && cfg.committed[ADAPTIVE] == 0
    ensures cfg.faults == old(cfg.faults) + if rc == OK then 0 else 1
    ensures cfg.unsafeCommits == old(cfg.unsafeCommits)
    ensures cfg.commitLog == old(cfg.commitLog)
      + if tried then [CommitRecord(rc, LocalValues(params[..], false))] else []
    ensures rc == OK ==>
      tried && cfg.committed == old(cfg.committed) + LocalValues(params[..], false) && cfg.staged == map[]
  {
    ghost var ps := params[..];
    tried := false;
    rc := SetParamsLocally(cfg, params, false);
    if rc != OK { return; }
    StagedKnown(ps, c0);
    ghost var c1, staged1 := cfg.committed, cfg.staged;
    assert map[] + LocalValues(ps, false) == LocalValues(ps, false);
    rc := cfg.Commit();
    tried := true;
    CommitLeaves(c0, c1, staged1, cfg.committed, cfg.staged, ps, profile, s);
  }

  /** Turning adaptive Tx on if the profile says so, and reading everything back. */
  method EnableAndCheck(cfg: Coalesce, profile: Profile, params: array<Param>, s: Saved, ghost c0: map<string, nat>)
    returns (passed: bool)
    requires Leaves(c0, cfg.committed, cfg.staged, params[..], profile, s) && s.params && s.adaptive
    requires cfg.staged == map[]
    requires !EnablesAdaptive(profile) ==> Applied(params[..], cfg.committed)
    requires EnablesAdaptive(profile) ==> Applied(params[..], cfg.committed[ADAPTIVE := 1])
    modifies cfg`committed, cfg`faults
    ensures Leaves(c0, cfg.committed, cfg.staged, params[..], profile, s)
    ensures cfg.faults >= old(cfg.faults) && (passed <==> cfg.faults == old(cfg.faults))
    ensures passed ==> Applied(params[..], cfg.committed)
    ensures !EnablesAdaptive(profile) ==> cfg.committed == old(cfg.committed)
  {
    passed := false;
    if EnablesAdaptive(profile) {
      var rc := cfg.Set(ADAPTIVE, 1);
      if rc != OK { return; }
    }
    passed := CheckProfileParams(cfg, params);
  }

  /**
   * The body of the test, up to the success or the first failure. `disableFailed` says whether turning adaptive Tx
   * off was tried and failed. For a valid profile the test passes exactly when no call fails, and then the profile is
   * applied; the invalid one passes exactly when the commit was tried and returned EINVAL, which is then the only call
   * that failed.
   */
  method TestBody(cfg: Coalesce, profile: Profile, params: array<Param>)
    returns (passed: bool, s: Saved, disableFailed: bool)
    requires params.Length > 0 && WellFormed(params[..], profile)
    modifies cfg, params
    ensures Leaves(old(cfg.committed), cfg.committed, cfg.staged, params[..], profile, s)
    ensures FromTable(params[..], old(params[..]))
    ensures !s.params ==> cfg.staged == old(cfg.staged)
    ensures s.adaptive && !disableFailed ==> cfg.unsafeCommits == old(cfg.unsafeCommits)
    ensures s.adaptive && !disableFailed && !EnablesAdaptive(profile) ==> cfg.committed[ADAPTIVE] == 0
    ensures !s.adaptive ==> cfg.unsafeCommits == old(cfg.unsafeCommits) && cfg.committed == old(cfg.committed)
    ensures cfg.faults >= old(cfg.faults)
    ensures passed ==> s.params && s.adaptive && !disableFailed && "tx_coalesce_usecs" in old(cfg.committed)
    ensures profile != Invalid ==> (passed <==> cfg.faults == old(cfg.faults))
    ensures passed && profile != Invalid ==> Applied(params[..], cfg.committed)
    ensures cfg.commitLog == old(cfg.commitLog) || (s.params && CommittedOnce(cfg)
      && cfg.commitLog[|old(cfg.commitLog)|].staged == LocalValues(params[..], false))
    ensures profile == Invalid ==>
      (passed <==> |cfg.commitLog| > |old(cfg.commitLog)| && cfg.commitLog[|old(cfg.commitLog)|].rc == EINVAL)
    ensures profile == Invalid && passed ==> cfg.faults == old(cfg.faults) + 1
  {
    passed := false;
    var ready;
    ghost var c0, table := cfg.committed, params[..];
    ready, s, disableFailed := Prepare(cfg, profile, params);
    ghost var ps, c1 := params[..], cfg.committed;
    assert FromTable(ps, table);
    if !ready { return; }
    var rc, tried := CommitProfile(cfg, profile, params, s, c0);
    if profile == Invalid {
      passed := tried && rc == EINVAL;
      return;
    }
    if rc != OK { return; }
    ProfileApplied(ps, table, profile, c1);
    passed := EnableAndCheck(cfg, profile, params, s, c0);
  }

  lemma RestoreCommit(c0: map<string, nat>, c: map<string, nat>, leftover: map<string, nat>, ps: seq<Param>,
                      p: Profile, s: Saved)
    requires Leaves(c0, c, leftover, ps, p, s) && s.params
    ensures var c' := c + (leftover + LocalValues(ps, true));
      c'.Keys == c0.Keys && forall k :: k in c0 ==> if k == ADAPTIVE then c'[k] == c[k] else c'[k] == c0[k]
  {
    LocalKeys(ps, true);
    LocalRestores(ps, c0);
    assert forall k :: k in leftover ==> k in LocalValues(ps, true);
  }

  /** The saved values are set locally and committed; a commit is tried even if setting failed. */
  method RestoreParams(cfg: Coalesce, profile: Profile, params: array<Param>, s: Saved, ghost c0: map<string, nat>)
    returns (ok: bool)
    requires Leaves(c0, cfg.committed, cfg.staged, params[..], profile, s) && s.params
    modifies cfg
    ensures cfg.faults >= old(cfg.faults) && (ok <==> cfg.faults == old(cfg.faults))
    ensures ok ==> cfg.staged == map[] && cfg.committed.Keys == c0.Keys
    ensures ok ==> forall k :: k in c0 ==> cfg.committed[k] == if k == ADAPTIVE then old(cfg.committed)[k] else c0[k]
    ensures !AdaptiveOn(old(cfg.committed)) ==> cfg.unsafeCommits == old(cfg.unsafeCommits)
    ensures CommittedOnce(cfg)
  {
    ok := true;
    ghost var c1, leftover := cfg.committed, cfg.staged;
    var rc := SetParamsLocally(cfg, params, true);
    if rc != OK { ok := false; }
    rc := cfg.Commit();
    if rc != OK { ok := false; }
    if ok {
      RestoreCommit(c0, c1, leftover, params[..], profile, s);
    }
  }

  lemma TurnedOff(c0: map<string, nat>, c: map<string, nat>, staged: map<string, nat>, ps: seq<Param>, p: Profile,
                  s: Saved)
    requires Leaves(c0, c, staged, ps, p, s) && s.params && s.adaptive && EnablesAdaptive(p)
    ensures Leaves(c0, c[ADAPTIVE := 0], staged, ps, p, s)
  {
  }

  /** The cleanup goes on after a failed call; ok says that no call failed, disableFailed that turning off did. */
  method Cleanup(cfg: Coalesce, profile: Profile, params: array<Param>, s: Saved, ghost c0: map<string, nat>)
    returns (ok: bool, disableFailed: bool)
    requires Leaves(c0, cfg.committed, cfg.staged, params[..], profile, s)
    modifies cfg
    ensures cfg.faults >= old(cfg.faults) && (ok <==> cfg.faults == old(cfg.faults))
    ensures if s.params then CommittedOnce(cfg) else cfg.commitLog == old(cfg.commitLog)
    ensures ok && s.params ==> cfg.committed == c0 && cfg.staged == map[]
    ensures !s.params ==>
      cfg.committed == c0 && cfg.staged == old(cfg.staged) && cfg.unsafeCommits == old(cfg.unsafeCommits)
    ensures s.adaptive && !disableFailed && (EnablesAdaptive(profile) || old(cfg.committed)[ADAPTIVE] == 0)
      ==> cfg.unsafeCommits == old(cfg.unsafeCommits)
  {
    ok, disableFailed := true, false;
    if !s.params { return; }
    var rc;
    if s.adaptive && EnablesAdaptive(profile) {
      TurnedOff(c0, cfg.committed, cfg.staged, params[..], profile, s);
      rc := cfg.Set(ADAPTIVE, 0);
      if rc != OK { ok, disableFailed := false, true; }
    }
    var restored := RestoreParams(cfg, profile, params, s, c0);
    if !restored { ok := false; }
    if s.adaptive && s.prevAdaptive != 0 {
      rc := cfg.Set(ADAPTIVE, s.prevAdaptive);
      if rc != OK { ok := false; }
    }
  }

  /** The invalid profile sets both limits to zero. */
  lemma InvalidValues(ps: seq<Param>)
    requires FromTable(ps, ProfileParams(Invalid))
    ensures LocalValues(ps, false) == map["tx_coalesce_usecs" := 0, "tx_max_coalesced_frames" := 0]
  {
    assert |ADAPTIVE| == 24 && |ps[0].name| == 17 && |ps[1].name| == 23;
    assert ps[..1][..0] == [];
    assert LocalValues(ps[..1], false) == map["tx_coalesce_usecs" := 0];
  }

  /**
   * The whole test for any profile, failing anywhere. A valid profile passes and is cleaned up exactly when no call
   * fails. The invalid one passes exactly when its two zero limits were committed, before the commit of the cleanup,
   * and refused with EINVAL. When the calls of the cleanup succeed the entire configuration is the one before the test
   * and nothing stays staged. When the adaptive flag could be read and no attempt to turn it off failed, concrete
   * values were only ever committed while it was off.
   */
  method RunTest(cfg: Coalesce, profile: Profile) returns (passed: bool, s: Saved, disableFailed: bool, cleanupOk: bool)
    modifies cfg
    ensures profile != Invalid ==> (passed && cleanupOk <==> cfg.faults == old(cfg.faults))
    ensures profile == Invalid ==>
      (passed <==> |cfg.commitLog| == |old(cfg.commitLog)| + 2 && cfg.commitLog[|old(cfg.commitLog)|].rc == EINVAL)
    ensures profile == Invalid && passed ==>
      cfg.commitLog[|old(cfg.commitLog)|].staged == map["tx_coalesce_usecs" := 0, "tx_max_coalesced_frames" := 0]
    ensures passed ==> s.params && s.adaptive && "tx_coalesce_usecs" in old(cfg.committed)
    ensures s.params && cleanupOk ==> cfg.committed == old(cfg.committed) && cfg.staged == map[]
    ensures !s.params ==> cfg.committed == old(cfg.committed) && cfg.staged == old(cfg.staged)
    ensures s.adaptive && !disableFailed ==> cfg.unsafeCommits == old(cfg.unsafeCommits)
  {
    var table := ProfileParams(profile);
    var params := new Param[|table|](i requires 0 <= i < |table| => table[i]);
    assert params[..] == table;
    ProfilesWellFormed(profile);
    ghost var c0 := cfg.committed;
    passed, s, disableFailed := TestBody(cfg, profile, params);
    if profile == Invalid {
      InvalidValues(params[..]);
    }
    var failedAgain;
    cleanupOk, failedAgain := Cleanup(cfg, profile, params, s, c0);
    disableFailed := disableFailed || failedAgain;
  }
}
