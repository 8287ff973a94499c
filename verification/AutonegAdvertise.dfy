/**
 * Choosing the preferred and the fallback mode, and what the link negotiates after they are advertised
 * (net-drv-ts/ethtool/autoneg_advertise.c).
 */
module AutonegAdvertise {
  import opened Common
  import opened PhyModes
  import opened PhyConfig

  function PairPriorityCmp(speed1: int, duplex1: Duplex, speed2: int, duplex2: Duplex): int {
    if speed1 != speed2 then if speed1 > speed2 then 1 else -1
    else if duplex1 != duplex2 && duplex1 == Full then 1
    else if duplex1 != duplex2 && duplex2 == Full then -1
    else 0
  }

  /** On known duplexes the comparison says which mode is better, which is that of the higher rank. */
  lemma CmpIsRank(m: ModeInfo, n: ModeInfo)
    requires m.duplex != UnknownDuplex && n.duplex != UnknownDuplex
    ensures var c := PairPriorityCmp(m.speed, m.duplex, n.speed, n.duplex);
      && (c > 0 <==> Better(m, n)) && (c < 0 <==> Better(n, m)) && (c == 0 <==> SamePair(m, n))
      && (c > 0 <==> Rank(m) > Rank(n)) && (c == 0 <==> Rank(m) == Rank(n))
  {
  }

  function Cmp(m: ModeInfo, n: ModeInfo): int {
    PairPriorityCmp(m.speed, m.duplex, n.speed, n.duplex)
  }

  /** The pointers the selection works on; absent ones have their `have` flag cleared. */
  datatype Selection = Selection(pref: Option<ModeInfo>, fallback: Option<ModeInfo>)

  const NOTHING: Selection := Selection(None, None)

  function Update(s: Selection, m: ModeInfo): Selection {
    if s.pref.Some? && Cmp(m, s.pref.value) == 0 then s
    else if s.fallback.Some? && Cmp(m, s.fallback.value) == 0 then s
    else if s.pref.None? || Cmp(m, s.pref.value) > 0 then
      Selection(Some(m), if s.pref.Some? then s.pref else s.fallback)
    else if s.fallback.None? || Cmp(m, s.fallback.value) > 0 then s.(fallback := Some(m))
    else s
  }

  function SelectAll(ms: seq<ModeInfo>): Selection {
    if ms == [] then NOTHING else Update(SelectAll(ms[..|ms| - 1]), ms[|ms| - 1])
  }

  method UpdateCommonNodes(newMode: ModeInfo, s: Selection) returns (r: Selection)
    ensures r == Update(s, newMode)
  {
    r := s;
    if r.pref.Some? && Cmp(newMode, r.pref.value) == 0 { return; }
    if r.fallback.Some? && Cmp(newMode, r.fallback.value) == 0 { return; }
    if r.pref.None? || Cmp(newMode, r.pref.value) > 0 {
      if r.pref.Some? {
        r := r.(fallback := r.pref);
      }
      r := r.(pref := Some(newMode));
      return;
    }
    if r.fallback.None? || Cmp(newMode, r.fallback.value) > 0 {
      r := r.(fallback := Some(newMode));
    }
  }

  /** Link modes that are advertised. */
  function AdvertisedLink(): Eligible {
    (m: ModeInfo) => IsLinkMode(m) && m.advertised
  }

  lemma SelectAppend(ms: seq<ModeInfo>, m: ModeInfo)
    ensures SelectAll(ms + [m]) == Update(SelectAll(ms), m)
  {
    assert (ms + [m])[..|ms|] == ms;
  }

  /** One mode of a side: looked up on the other side, and entered into the selection if both advertise it. */
  method ConsiderMode(m: ModeInfo, peers: seq<ModeInfo>, s: Selection, ghost common: seq<ModeInfo>)
    returns (r: Selection)
    requires s == SelectAll(common)
    ensures r == SelectAll(if IsCommon(m, peers, AdvertisedLink()) then common + [m] else common)
  {
    r := s;
    SelectAppend(common, m);
    if IsLinkMode(m) && m.advertised {
      var peer := FindModeByName(peers, m.name);
      if peer.Some? && IsLinkMode(peer.value) && peer.value.advertised {
        r := UpdateCommonNodes(m, s);
      }
    }
  }

  method FindCommonAdvertisedModes(iut: SavedState, tst: SavedState) returns (found: bool, s: Selection)
    ensures s == SelectAll(CommonModes(iut.modes, tst.modes, AdvertisedLink()))
    ensures found <==> s.pref.Some? && s.fallback.Some?
  {
    s := NOTHING;
    for i := 0 to |iut.modes|
      invariant s == SelectAll(CommonModes(iut.modes[..i], tst.modes, AdvertisedLink()))
    {
      CommonStep(iut.modes, i, tst.modes, AdvertisedLink());
      s := ConsiderMode(iut.modes[i], tst.modes, s, CommonModes(iut.modes[..i], tst.modes, AdvertisedLink()));
    }
    assert iut.modes[..|iut.modes|] == iut.modes;
    found := s.pref.Some? && s.fallback.Some?;
  }

  // ---------------------------------------------------------------- the two best pairs

  predicate KnownDuplex(ms: seq<ModeInfo>) {
    forall i :: 0 <= i < |ms| ==> ms[i].duplex != UnknownDuplex
  }

  /** The first mode of the list with its speed and duplex. */
  ghost predicate FirstOfRank(ms: seq<ModeInfo>, m: ModeInfo) {
    exists i :: 0 <= i < |ms| && ms[i] == m && forall j :: 0 <= j < i ==> Rank(ms[j]) != Rank(m)
  }

  /**
   * The preferred mode is the first with the greatest pair of speed and duplex, the fallback the first with the
   * greatest pair below it; each is missing exactly when there is no such pair.
   */
  ghost predicate TopTwo(ms: seq<ModeInfo>, s: Selection) {
    && (s.pref.None? <==> ms == [])
    && (s.pref.None? ==> s.fallback.None?)
    && (s.pref.Some? ==>
          FirstOfRank(ms, s.pref.value) && forall i :: 0 <= i < |ms| ==> Rank(ms[i]) <= Rank(s.pref.value))
    && (s.fallback.Some? ==>
          && FirstOfRank(ms, s.fallback.value) && Rank(s.fallback.value) < Rank(s.pref.value)
          && forall i :: 0 <= i < |ms| ==> Rank(ms[i]) == Rank(s.pref.value) || Rank(ms[i]) <= Rank(s.fallback.value))
    && (s.pref.Some? && s.fallback.None? ==> forall i :: 0 <= i < |ms| ==> Rank(ms[i]) == Rank(s.pref.value))
  }

  lemma FirstOfRankExtend(ms: seq<ModeInfo>, x: ModeInfo, m: ModeInfo)
    ensures FirstOfRank(ms, m) ==> FirstOfRank(ms + [x], m)
    ensures (forall i :: 0 <= i < |ms| ==> Rank(ms[i]) != Rank(x)) ==> FirstOfRank(ms + [x], x)
  {
    if FirstOfRank(ms, m) {
      var i :| 0 <= i < |ms| && ms[i] == m && forall j :: 0 <= j < i ==> Rank(ms[j]) != Rank(m);
      assert (ms + [x])[i] == m;
    }
    assert (ms + [x])[|ms|] == x;
  }

  lemma TopTwoUpdate(ms: seq<ModeInfo>, s: Selection, x: ModeInfo)
    requires KnownDuplex(ms) && x.duplex != UnknownDuplex && TopTwo(ms, s)
    ensures TopTwo(ms + [x], Update(s, x))
  {
    FirstOfRankExtend(ms, x, x);
    if s.pref.Some? {
      CmpIsRank(x, s.pref.value);
      FirstOfRankExtend(ms, x, s.pref.value);
    }
    if s.fallback.Some? {
      CmpIsRank(x, s.fallback.value);
      FirstOfRankExtend(ms, x, s.fallback.value);
    }
  }

  /** One pass finds the two best pairs. */
  lemma {:induction false} SelectionIsTopTwo(ms: seq<ModeInfo>)
    requires KnownDuplex(ms)
    ensures TopTwo(ms, SelectAll(ms))
  {
    if ms != [] {
      var init := ms[..|ms| - 1];
      SelectionIsTopTwo(init);
      TopTwoUpdate(init, SelectAll(init), ms[|ms| - 1]);
      assert ms == init + [ms[|ms| - 1]];
    }
  }

  /** The selection fails if and only if there are not two modes of different speed or duplex. */
  lemma FailsIffOnePair(ms: seq<ModeInfo>)
    requires KnownDuplex(ms)
    ensures SelectAll(ms).fallback.Some? <==>
      exists i, j :: 0 <= i < |ms| && 0 <= j < |ms| && !SamePair(ms[i], ms[j])
    ensures SelectAll(ms).fallback.Some? ==> SelectAll(ms).pref.Some?
  {
    SelectionIsTopTwo(ms);
    var s := SelectAll(ms);
    forall i, j | 0 <= i < |ms| && 0 <= j < |ms| ensures Rank(ms[i]) == Rank(ms[j]) <==> SamePair(ms[i], ms[j]) {
      RankIsPair(ms[i], ms[j]);
    }
    if s.fallback.Some? {
      var i :| 0 <= i < |ms| && ms[i] == s.fallback.value;
      var j :| 0 <= j < |ms| && ms[j] == s.pref.value;
      assert !SamePair(ms[i], ms[j]);
    }
  }

  // ---------------------------------------------------------------- what is negotiated

  /** Both sides advertise the link mode with this name. */
  predicate BothAdvertise(a: map<string, bool>, b: map<string, bool>, n: string) {
    n in a && a[n] && n in b && b[n] && ParseMode(n).Some?
  }

  /** Autonegotiation settles on the best pair that both sides advertise. */
  ghost predicate Negotiates(a: map<string, bool>, b: map<string, bool>, m: ModeInfo) {
    && BothAdvertise(a, b, m.name) && InfoOf(m.name, m.advertised) == m
    && forall n :: BothAdvertise(a, b, n) ==> !Better(InfoOf(n, true), m)
  }

  /** Exactly the listed link modes are advertised after an apply, whatever was advertised before. */
  lemma AdvertisedAfterApply(c: Config, names: seq<string>, d: Config, mode1: string, mode2: Option<string>)
    requires Enumerates(names, c.adv) && d.adv.Keys == c.adv.Keys
    ensures AdvertisesOnly(AutonegEffect(d, SaveOf(c, names), mode1, mode2).adv, c, mode1, mode2)
  {
    var modes, want := SaveOf(c, names).modes, Listed(mode1, mode2);
    TargetsAreLinks(c, names, want);
    TargetsPointwise(modes, want);
  }

  /** The common modes are, one for each name, the link modes that both sides advertise. */
  lemma CommonByName(c: Config, names: seq<string>, c': Config, names': seq<string>, m: ModeInfo)
    requires Enumerates(names, c.adv) && Enumerates(names', c'.adv)
    ensures m in CommonModes(SaveOf(c, names).modes, SaveOf(c', names').modes, AdvertisedLink())
      <==> BothAdvertise(c.adv, c'.adv, m.name) && m == InfoOf(m.name, true)
  {
    CommonMember(SaveOf(c, names).modes, SaveOf(c', names').modes, AdvertisedLink(), m);
    SavedNamed(c, names, m.name);
    SavedNamed(c', names', m.name);
    LinkModeByName(m.name, true);
    LinkModeByName(m.name, false);
  }

  /** The modes chosen for two saved states. */
  function Chosen(st: SavedState, st': SavedState): Selection {
    SelectAll(CommonModes(st.modes, st'.modes, AdvertisedLink()))
  }

  /** What is known of the two modes chosen: link modes of both sides, the first better than the second. */
  predicate ChosenPair(c: Config, c': Config, p: ModeInfo, f: ModeInfo) {
    && p.name in c.adv && p.name in c'.adv && f.name in c.adv && f.name in c'.adv
    && ParseMode(p.name).Some? && ParseMode(f.name).Some?
    && p == InfoOf(p.name, p.advertised) && f == InfoOf(f.name, f.advertised)
    && Better(p, f)
  }

  /** Worse than the limit, if there is one. */
  predicate Below(limit: Option<ModeInfo>, m: ModeInfo) {
    limit.Some? ==> Better(limit.value, m)
  }

  /** A mode of the list below the limit, and none of those is better. */
  predicate BestInList(ms: seq<ModeInfo>, m: ModeInfo, limit: Option<ModeInfo>) {
    m in ms && Below(limit, m) && forall x :: x in ms && Below(limit, x) ==> !Better(x, m)
  }

  /** What the selection means for the members of the list. */
  lemma SelectionByMembers(ms: seq<ModeInfo>)
    requires KnownDuplex(ms)
    ensures var s := SelectAll(ms);
      && (s.pref.None? ==> ms == [] && s.fallback.None?)
      && (s.pref.Some? ==> BestInList(ms, s.pref.value, None))
      && (s.pref.Some? && s.fallback.Some? ==> BestInList(ms, s.fallback.value, s.pref))
      && (s.pref.Some? && s.fallback.None? ==> forall x :: x in ms ==> !Better(s.pref.value, x))
  {
    SelectionIsTopTwo(ms);
    var s := SelectAll(ms);
    forall x, y | x in ms && y in ms ensures Rank(x) > Rank(y) <==> Better(x, y) {
      RankIsBetter(x, y);
    }
    assert s.pref.Some? ==> s.pref.value in ms;
    assert s.fallback.Some? ==> s.fallback.value in ms;
  }

  /** The best mode that both sides advertise, of those below the limit. */
  ghost predicate BestOf(c: Config, c': Config, m: ModeInfo, limit: Option<ModeInfo>) {
    && BothAdvertise(c.adv, c'.adv, m.name) && m == InfoOf(m.name, true) && Below(limit, m)
    && forall n :: BothAdvertise(c.adv, c'.adv, n) && Below(limit, InfoOf(n, true)) ==> !Better(InfoOf(n, true), m)
  }

  /**
   * The selection by what is advertised: the preferred mode is the best that both sides advertise, the fallback the
   * best of those that are worse, and each is missing exactly when there is none.
   */
  lemma ChosenExact(c: Config, names: seq<string>, c': Config, names': seq<string>)
    requires Enumerates(names, c.adv) && Enumerates(names', c'.adv)
    ensures var s := Chosen(SaveOf(c, names), SaveOf(c', names'));
      && (s.pref.None? ==> s.fallback.None? && forall n :: !BothAdvertise(c.adv, c'.adv, n))
      && (s.pref.Some? ==> BestOf(c, c', s.pref.value, None))
      && (s.pref.Some? && s.fallback.Some? ==> BestOf(c, c', s.fallback.value, s.pref))
      && (s.pref.Some? && s.fallback.None? ==>
            forall n :: BothAdvertise(c.adv, c'.adv, n) ==> !Better(s.pref.value, InfoOf(n, true)))
  {
    var common := CommonModes(SaveOf(c, names).modes, SaveOf(c', names').modes, AdvertisedLink());
    CommonMembers(c, names, c', names', common);
    SelectionByMembers(common);
    var s := SelectAll(common);
    assert s.pref.Some? ==> BestInList(common, s.pref.value, None);
  }

  lemma CommonMembers(c: Config, names: seq<string>, c': Config, names': seq<string>, common: seq<ModeInfo>)
    requires Enumerates(names, c.adv) && Enumerates(names', c'.adv)
    requires common == CommonModes(SaveOf(c, names).modes, SaveOf(c', names').modes, AdvertisedLink())
    ensures forall m :: m in common ==> BothAdvertise(c.adv, c'.adv, m.name) && m == InfoOf(m.name, true)
    ensures forall n :: BothAdvertise(c.adv, c'.adv, n) ==> InfoOf(n, true) in common
    ensures KnownDuplex(common)
  {
    forall m ensures m in common <==> BothAdvertise(c.adv, c'.adv, m.name) && m == InfoOf(m.name, true) {
      CommonByName(c, names, c', names', m);
    }
    forall i | 0 <= i < |common| ensures common[i].duplex != UnknownDuplex {
      assert common[i] in common;
      LinkModeByName(common[i].name, true);
    }
  }

  lemma ChosenAreLinks(c: Config, names: seq<string>, c': Config, names': seq<string>)
    requires Enumerates(names, c.adv) && Enumerates(names', c'.adv)
    requires Chosen(SaveOf(c, names), SaveOf(c', names')).fallback.Some?
    ensures var s := Chosen(SaveOf(c, names), SaveOf(c', names'));
      s.pref.Some? && ChosenPair(c, c', s.pref.value, s.fallback.value)
  {
    ChosenExact(c, names, c', names');
  }

  /** Exactly these link modes of a side are advertised. */
  predicate AdvertisesOnly(adv: map<string, bool>, c: Config, mode1: string, mode2: Option<string>) {
    adv.Keys == c.adv.Keys
    && forall n :: n in c.adv && ParseMode(n).Some? ==> (adv[n] <==> n == mode1 || mode2 == Some(n))
  }

  lemma BothListed(a: map<string, bool>, b: map<string, bool>, c: Config, c': Config, p: ModeInfo, f: ModeInfo)
    requires ChosenPair(c, c', p, f)
    requires AdvertisesOnly(a, c, p.name, Some(f.name)) && AdvertisesOnly(b, c', p.name, Some(f.name))
    ensures Negotiates(a, b, p)
  {
    RankByName(p);
    RankByName(f);
    forall n | BothAdvertise(a, b, n) ensures !Better(InfoOf(n, true), p) {
      assert n == p.name || n == f.name;
    }
  }

  lemma OneDropped(a: map<string, bool>, b: map<string, bool>, c: Config, c': Config, p: ModeInfo, f: ModeInfo)
    requires ChosenPair(c, c', p, f)
    requires AdvertisesOnly(a, c, f.name, None) && AdvertisesOnly(b, c', p.name, Some(f.name))
    ensures Negotiates(a, b, f) && Negotiates(b, a, f)
  {
    RankByName(f);
    forall n | BothAdvertise(a, b, n) || BothAdvertise(b, a, n) ensures n == f.name {
    }
  }

  /**
   * Whatever the two sides advertised before: once both advertise the preferred and the fallback mode the link
   * negotiates the preferred one, and once either side drops it the link negotiates the fallback.
   */
  lemma Renegotiation(c: Config, names: seq<string>, c': Config, names': seq<string>)
    requires Enumerates(names, c.adv) && Enumerates(names', c'.adv)
    requires Chosen(SaveOf(c, names), SaveOf(c', names')).fallback.Some?
    ensures
      var st, st' := SaveOf(c, names), SaveOf(c', names');
      var s := Chosen(st, st');
      s.pref.Some? &&
      var p, f := s.pref.value, s.fallback.value;
      var d, d' := AutonegEffect(c, st, p.name, Some(f.name)), AutonegEffect(c', st', p.name, Some(f.name));
      && Better(p, f)
      && d.autoneg == AutonegOn && d'.autoneg == AutonegOn
      && Negotiates(d.adv, d'.adv, p)
      && Negotiates(AutonegEffect(d, st, f.name, None).adv, d'.adv, f)
      && Negotiates(d.adv, AutonegEffect(d', st', f.name, None).adv, f)
  {
    var st, st' := SaveOf(c, names), SaveOf(c', names');
    ChosenAreLinks(c, names, c', names');
    var p, f := Chosen(st, st').pref.value, Chosen(st, st').fallback.value;
    AdvertisedAfterApply(c, names, c, p.name, Some(f.name));
    AdvertisedAfterApply(c', names', c', p.name, Some(f.name));
    var d, d' := AutonegEffect(c, st, p.name, Some(f.name)), AutonegEffect(c', st', p.name, Some(f.name));
    AdvertisedAfterApply(c, names, d, f.name, None);
    AdvertisedAfterApply(c', names', d', f.name, None);
    BothListed(d.adv, d'.adv, c, c', p, f);
    OneDropped(AutonegEffect(d, st, f.name, None).adv, d'.adv, c, c', p, f);
    OneDropped(AutonegEffect(d', st', f.name, None).adv, d.adv, c', c, p, f);
  }

  lemma RankByName(m: ModeInfo)
    requires m == InfoOf(m.name, m.advertised)
    ensures SamePair(InfoOf(m.name, true), m)
  {
  }

  /** There is one answer: two modes that are both negotiated have the same speed and duplex. */
  lemma NegotiationUnique(a: map<string, bool>, b: map<string, bool>, m: ModeInfo, n: ModeInfo)
    requires Negotiates(a, b, m) && Negotiates(a, b, n)
    ensures SamePair(m, n)
  {
    RankByName(m);
    RankByName(n);
    LinkModeByName(m.name, m.advertised);
    LinkModeByName(n.name, n.advertised);
    RankIsPair(m, n);
  }
}
