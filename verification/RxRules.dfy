/**
 * Filling the table of receive classification rules until it refuses, and draining it again: too_many_rx_rules() of
 * talib_net_drv_ts/rpc.c. Every ioctl may fail.
 */
module RxRules {
  import opened Common

  const MAX_PORT: int := 0xffff

  datatype Rule = Rule(srcPort: nat, dstPort: nat, queue: nat)

  /**
   * The table of a network interface. Which insertions the device refuses and which deletions fail is an input, by
   * the number of the call.
   */
  class RuleTable {
    const refuse: nat -> bool
    const failDelete: nat -> bool
    var rules: map<uint32, Rule>
    var inserts: nat
    /** The locations it was asked to clear. */
    var deletions: seq<uint32>

    constructor (rules: map<uint32, Rule>, refuse: nat -> bool, failDelete: nat -> bool)
      ensures this.rules == rules && this.refuse == refuse && this.failDelete == failDelete
      ensures inserts == 0 && deletions == []
    {
      this.rules, this.refuse, this.failDelete, inserts, deletions := rules, refuse, failDelete, 0, [];
    }

    /**
     * ETHTOOL_SRXCLSRLINS: at a free location of the driver's choice, if it finds one, or at the given one, replacing
     * what is there. The location used is reported back.
     */
    method Insert(anyLocation: bool, location: uint32, rule: Rule) returns (rc: int, realLoc: uint32)
      modifies this`rules, this`inserts
      ensures inserts == old(inserts) + 1
      ensures rc < 0 ==> rules == old(rules)
      ensures rc >= 0 ==> rules == old(rules)[realLoc := rule] && !refuse(old(inserts))
      ensures rc >= 0 && anyLocation ==> realLoc !in old(rules)
      ensures !anyLocation ==> realLoc == location && (rc < 0 <==> refuse(old(inserts)))
    {
      realLoc := *;
      if !anyLocation {
        realLoc := location;
      }
      var refused := refuse(inserts) || (anyLocation && realLoc in rules);
      inserts := inserts + 1;
      if refused {
        return -1, realLoc;
      }
      rules := rules[realLoc := rule];
      rc := 0;
    }

    /** ETHTOOL_SRXCLSRLDEL. */
    method Delete(location: uint32) returns (rc: int)
      modifies this`rules, this`deletions
      ensures rc < 0 <==> failDelete(|old(deletions)|)
      ensures rules == if rc < 0 then old(rules) else old(rules) - {location}
      ensures deletions == old(deletions) + [location]
    {
      rc := if failDelete(|deletions|) then -1 else 0;
      deletions := deletions + [location];
      if rc == 0 {
        rules := rules - {location};
      }
    }
  }

  /** The first call from number k on that is refused, or `end`. */
  function FirstRefused(refuse: nat -> bool, k: nat, end: nat): (r: nat)
    requires k <= end
    ensures k <= r <= end
    decreases end - k
  {
    if k == end || refuse(k) then k else FirstRefused(refuse, k + 1, end)
  }

  lemma {:induction false} FirstRefusedIs(refuse: nat -> bool, k: nat, end: nat, r: nat)
    requires k <= r <= end && NoneRefused(refuse, k, r)
    requires r == end || refuse(r)
    ensures FirstRefused(refuse, k, end) == r
    decreases r - k
  {
    if k < r {
      FirstRefusedIs(refuse, k + 1, end, r);
    }
  }

  /** How many rules the device accepts at explicit locations. */
  ghost function Capacity(table: RuleTable): nat
    reads table
  {
    FirstRefused(table.refuse, table.inserts, table.inserts + MAX_PORT * MAX_PORT) - table.inserts
  }

  /** Number of a pair of ports in the order in which they are tried. */
  function PairNumber(srcPort: int, dstPort: int): int {
    (srcPort - 1) * MAX_PORT + (dstPort - 1)
  }

  /** Rule k is for pair number k, with the queue chosen for it. */
  predicate InOrder(inserted: seq<Rule>, queueOf: nat -> nat) {
    forall k :: 0 <= k < |inserted| ==>
      && 1 <= inserted[k].srcPort <= MAX_PORT && 1 <= inserted[k].dstPort <= MAX_PORT
      && PairNumber(inserted[k].srcPort, inserted[k].dstPort) == k
      && inserted[k].queue == queueOf(k)
  }

  /** The table holds the inserted rules at the recorded locations and is the old one elsewhere. */
  predicate Filled(table: map<uint32, Rule>, before: map<uint32, Rule>, added: seq<uint32>, inserted: seq<Rule>) {
    && |added| == |inserted| && Distinct(added)
    && (forall k :: 0 <= k < |added| ==> added[k] in table && table[added[k]] == inserted[k])
    && SameElsewhere(table, before, added)
  }

  predicate SameElsewhere(table: map<uint32, Rule>, before: map<uint32, Rule>, added: seq<uint32>) {
    && (forall l :: l in table && l !in added ==> l in before && before[l] == table[l])
    && (forall l :: l in before && l !in added ==> l in table)
  }

  /** Where rules go: free places of the old table under "any", locations 0, 1, 2, ... otherwise. */
  predicate Placed(anyLocation: bool, before: map<uint32, Rule>, added: seq<uint32>) {
    forall k :: 0 <= k < |added| ==> if anyLocation then added[k] !in before else added[k] == k
  }

  lemma FilledAppend(table: map<uint32, Rule>, before: map<uint32, Rule>, added: seq<uint32>, inserted: seq<Rule>,
                     loc: uint32, rule: Rule)
    requires Filled(table, before, added, inserted) && loc !in added
    ensures Filled(table[loc := rule], before, added + [loc], inserted + [rule])
  {
    var added' := added + [loc];
    assert forall l :: l in added' <==> l in added || l == loc;
  }

  /** Everything known about the table and the records while it is being filled. */
  ghost predicate Progress(table: map<uint32, Rule>, before: map<uint32, Rule>, anyLocation: bool,
                           added: seq<uint32>, inserted: seq<Rule>, queueOf: nat -> nat) {
    Filled(table, before, added, inserted) && Placed(anyLocation, before, added) && InOrder(inserted, queueOf)
  }

  /** No insertion among these calls was refused. */
  predicate NoneRefused(refuse: nat -> bool, first: nat, end: nat) {
    forall k :: first <= k < end ==> !refuse(k)
  }

  /** One attempt to add a rule and record where it went. */
  method AddRule(table: RuleTable, anyLocation: bool, location: uint32, rule: Rule, locs: seq<uint32>,
                 ghost before: map<uint32, Rule>, ghost rules: seq<Rule>, ghost queueOf: nat -> nat, ghost first: nat)
    returns (ok: bool, added: seq<uint32>, ghost inserted: seq<Rule>)
    requires Progress(table.rules, before, anyLocation, locs, rules, queueOf)
    requires 1 <= rule.srcPort <= MAX_PORT && 1 <= rule.dstPort <= MAX_PORT && rule.queue == queueOf(|locs|)
    requires PairNumber(rule.srcPort, rule.dstPort) == |locs|
    requires !anyLocation ==> location == |locs|
    requires NoneRefused(table.refuse, first, table.inserts)
    modifies table`rules, table`inserts
    ensures table.inserts == old(table.inserts) + 1
    ensures ok ==> NoneRefused(table.refuse, first, table.inserts)
    ensures !ok ==> anyLocation || table.refuse(old(table.inserts))
    ensures Progress(table.rules, before, anyLocation, added, inserted, queueOf)
    ensures |added| == |locs| + if ok then 1 else 0
  {
    ghost var was := table.rules;
    var rc, realLoc := table.Insert(anyLocation, location, rule);
    if rc < 0 {
      return false, locs, rules;
    }
    assert realLoc !in locs;
    FilledAppend(was, before, locs, rules, realLoc, rule);
    return true, locs + [realLoc], rules + [rule];
  }

  /** Rules are inserted for one pair of ports after the other until one is refused or all pairs are used. */
  method Fill(table: RuleTable, anyLocation: bool, queueOf: nat -> nat)
    returns (rulesCount: uint32, refused: bool, added: seq<uint32>, ghost inserted: seq<Rule>)
    modifies table`rules, table`inserts
    ensures Progress(table.rules, old(table.rules), anyLocation, added, inserted, queueOf)
    ensures rulesCount == |added| <= MAX_PORT * MAX_PORT
    ensures table.inserts == old(table.inserts) + rulesCount + if refused then 1 else 0
    ensures refused <==> rulesCount < MAX_PORT * MAX_PORT
    ensures !anyLocation ==> rulesCount == old(Capacity(table))
  {
    ghost var before, first := table.rules, table.inserts;
    rulesCount, refused, added, inserted := 0, false, [], [];
    var location: uint32 := if anyLocation then 0xffff_ffff else 0;
    var srcPort := 1;
    label fill:
    while srcPort <= MAX_PORT
      invariant 1 <= srcPort <= MAX_PORT + 1 && !refused && table.inserts == first + rulesCount
      invariant NoneRefused(table.refuse, first, table.inserts)
      invariant rulesCount == |added| == PairNumber(srcPort, 1)
      invariant !anyLocation ==> location == rulesCount
      invariant Progress(table.rules, before, anyLocation, added, inserted, queueOf)
    {
      var dstPort := 1;
      while dstPort <= MAX_PORT
        invariant 1 <= dstPort <= MAX_PORT + 1 && !refused && table.inserts == first + rulesCount
        invariant NoneRefused(table.refuse, first, table.inserts)
        invariant rulesCount == |added| == PairNumber(srcPort, dstPort)
        invariant !anyLocation ==> location == rulesCount
        invariant Progress(table.rules, before, anyLocation, added, inserted, queueOf)
      {
        var rule := Rule(srcPort, dstPort, queueOf(rulesCount));
        var ok;
        ok, added, inserted := AddRule(table, anyLocation, location, rule, added, before, inserted, queueOf, first);
        if !ok {
          refused := true;
          break fill;
        }
        rulesCount := rulesCount + 1;
        if !anyLocation {
          location := rulesCount;
        }
        dstPort := dstPort + 1;
      }
      srcPort := srcPort + 1;
    }
    if !anyLocation {
      FirstRefusedIs(table.refuse, first, first + MAX_PORT * MAX_PORT, first + rulesCount);
    }
  }

  /** None of these deletions fails. */
  predicate DeletesOk(failDelete: nat -> bool, first: nat, count: nat) {
    forall k :: first <= k < first + count ==> !failDelete(k)
  }

  method Drain(table: RuleTable, added: seq<uint32>) returns (result: int)
    requires Distinct(added)
    modifies table`rules, table`deletions
    ensures table.deletions == old(table.deletions) + added
    ensures result == if DeletesOk(table.failDelete, |old(table.deletions)|, |added|) then 0 else -1
    ensures SameElsewhere(table.rules, old(table.rules), added)
    ensures forall l :: l in table.rules ==> l in old(table.rules) && table.rules[l] == old(table.rules)[l]
    ensures result == 0 ==> forall k :: 0 <= k < |added| ==> added[k] !in table.rules
  {
    result := 0;
    for i := 0 to |added|
      invariant table.deletions == old(table.deletions) + added[..i]
      invariant result == if DeletesOk(table.failDelete, |old(table.deletions)|, i) then 0 else -1
      invariant forall l :: l in table.rules ==> l in old(table.rules) && table.rules[l] == old(table.rules)[l]
      invariant forall l :: l in old(table.rules) && l !in added ==> l in table.rules
      invariant result == 0 ==> forall k :: 0 <= k < i ==> added[k] !in table.rules
    {
      var rc := table.Delete(added[i]);
      if rc < 0 {
        result := -1;
      }
      assert added[..i + 1] == added[..i] + [added[i]];
    }
    assert added[..|added|] == added;
  }

  /**
   * The whole call: fill, then drain. Rule k is for pair of ports number k, the count is that of the rules inserted,
   * and each recorded location is cleared exactly once. When every deletion succeeds, what is missing are the rules at
   * these locations, so the table is the initial one if and only if the driver chose free locations or no initial rule
   * was at a location below the number of rules the device accepts.
   */
  method TooManyRxRules(table: RuleTable, anyLocation: bool, queueOf: nat -> nat)
    returns (result: int, rulesCount: uint32, refused: bool, ghost added: seq<uint32>, ghost inserted: seq<Rule>)
    modifies table
    ensures rulesCount == |added| == |inserted| && rulesCount <= MAX_PORT * MAX_PORT
    ensures rulesCount <= 65535 * 65535 && (refused <==> rulesCount < 65535 * 65535)
    ensures !anyLocation ==> rulesCount == old(Capacity(table))
    ensures table.inserts == old(table.inserts) + rulesCount + if refused then 1 else 0
    ensures InOrder(inserted, queueOf)
    ensures Distinct(added) && Placed(anyLocation, old(table.rules), added)
    ensures table.deletions == old(table.deletions) + added
    ensures SameElsewhere(table.rules, old(table.rules), added)
    ensures result == if DeletesOk(table.failDelete, |old(table.deletions)|, rulesCount) then 0 else -1
    ensures result == 0 ==> table.rules == old(table.rules) - (set l | l in added)
    ensures result == 0 ==>
      (table.rules == old(table.rules) <==>
        anyLocation || forall l :: l in old(table.rules) ==> l >= old(Capacity(table)))
  {
    ghost var before := table.rules;
    var locs;
    rulesCount, refused, locs, inserted := Fill(table, anyLocation, queueOf);
    added := locs;
    ghost var filled := table.rules;
    result := Drain(table, locs);
    if result == 0 {
      Restored(anyLocation, before, filled, table.rules, added, inserted);
    }
  }

  lemma Restored(anyLocation: bool, before: map<uint32, Rule>, filled: map<uint32, Rule>, table: map<uint32, Rule>,
                 added: seq<uint32>, inserted: seq<Rule>)
    requires Filled(filled, before, added, inserted) && Placed(anyLocation, before, added)
    requires SameElsewhere(table, filled, added) && forall k :: 0 <= k < |added| ==> added[k] !in table
    requires forall l :: l in table ==> l in filled && table[l] == filled[l]
    ensures table == before - (set l | l in added)
    ensures table == before <==> anyLocation || forall l :: l in before ==> l >= |added|
  {
    assert forall l :: l in added ==> l !in table;
    if anyLocation || forall l :: l in before ==> l >= |added| {
      forall k | 0 <= k < |added| ensures added[k] !in before {
      }
    } else {
      var l :| l in before && l < |added|;
      assert added[l] == l;
    }
  }

  /** An initial rule at location 0 is overwritten and then deleted with the rule that replaced it. */
  method InitialRuleLost(rule: Rule) returns (result: int, before: map<uint32, Rule>, after: map<uint32, Rule>)
    ensures result == 0 && before == map[0 := rule] && after == map[]
  {
    before := map[0 := rule];
    var table := new RuleTable(before, k => k >= 1, k => false);
    FirstRefusedIs(table.refuse, table.inserts, table.inserts + MAX_PORT * MAX_PORT, 1);
    var rulesCount, refused;
    ghost var added, inserted;
    result, rulesCount, refused, added, inserted := TooManyRxRules(table, false, k => 0);
    assert added[0] == 0;
    after := table.rules;
  }

  datatype Verdict = Pass | RulesPresent | CallFailed | NothingAdded

  /** How many of the calls to insert a rule were refused, when rounds came to these counts. */
  function Refusals(counts: seq<int>): nat {
    if counts == [] then 0
    else Refusals(counts[..|counts| - 1]) + if counts[|counts| - 1] < 65535 * 65535 then 1 else 0
  }

  lemma CountsAppend(counts: seq<int>, n: int)
    ensures Sum(counts + [n]) == Sum(counts) + n
    ensures Refusals(counts + [n]) == Refusals(counts) + if n < 65535 * 65535 then 1 else 0
  {
    assert (counts + [n])[..|counts|] == counts;
  }

  /** How many rules are accepted from insertion number `start` on. */
  function AcceptedFrom(refuse: nat -> bool, start: nat): nat {
    FirstRefused(refuse, start, start + 65535 * 65535) - start
  }

  /** Every round added as many rules as the device accepted from where the round before had come to. */
  predicate Accepted(refuse: nat -> bool, first: nat, counts: seq<int>) {
    counts == []
    || (var init := counts[..|counts| - 1];
        var start := first + Sum(init) + Refusals(init);
        Accepted(refuse, first, init) && start >= 0 && counts[|counts| - 1] == AcceptedFrom(refuse, start))
  }

  lemma AcceptedAppend(refuse: nat -> bool, first: nat, counts: seq<int>, n: int)
    requires Accepted(refuse, first, counts)
    requires var start := first + Sum(counts) + Refusals(counts); start >= 0 && n == AcceptedFrom(refuse, start)
    ensures Accepted(refuse, first, counts + [n])
  {
    assert (counts + [n])[..|counts|] == counts;
  }

  /** Some round added fewer rules than the one before. */
  predicate Decreases(counts: seq<int>) {
    exists i :: 0 < i < |counts| && counts[i] < counts[i - 1]
  }

  lemma DecreasesAppend(counts: seq<int>, n: int)
    ensures Decreases(counts + [n]) <==> Decreases(counts) || (counts != [] && n < counts[|counts| - 1])
  {
    var all := counts + [n];
    assert forall j :: 0 <= j < |counts| ==> all[j] == counts[j];
    if counts != [] && n < counts[|counts| - 1] {
      assert all[|counts|] < all[|counts| - 1];
    }
  }

  /**
   * What the rounds so far did to the table: `counts` are the numbers of rules added, and deleted again, since it had
   * met `first` insertions and `deleted` deletions.
   */
  predicate Rounds(refuse: nat -> bool, inserts: nat, deletions: nat, first: nat, deleted: nat, anyLocation: bool,
                   counts: seq<int>) {
    && inserts == first + Sum(counts) + Refusals(counts)
    && deletions == deleted + Sum(counts)
    && (!anyLocation ==> Accepted(refuse, first, counts))
  }

  /** These rounds added some rules each and lost none. */
  predicate GoodRounds(failDelete: nat -> bool, deleted: nat, counts: seq<int>) {
    && (forall k :: 0 <= k < |counts| ==> counts[k] > 0)
    && Sum(counts) >= 0 && DeletesOk(failDelete, deleted, Sum(counts))
  }

  /** The rounds but for a last bad one. */
  function Good(v: Verdict, counts: seq<int>): seq<int> {
    if v == Pass || counts == [] then counts else counts[..|counts| - 1]
  }

  /** What the rounds came to decides the verdict: the four cases exclude each other. */
  predicate VerdictOf(failDelete: nat -> bool, v: Verdict, deleted: nat, iters: nat, counts: seq<int>) {
    && |counts| <= iters && GoodRounds(failDelete, deleted, Good(v, counts))
    && match v
       case Pass => |counts| == iters
       case RulesPresent => counts == []
       case NothingAdded => counts != [] && counts[|counts| - 1] == 0
       case CallFailed =>
         && counts != [] && counts[|counts| - 1] > 0
         && !DeletesOk(failDelete, deleted + Sum(Good(v, counts)), counts[|counts| - 1])
  }

  /** One more round, which may be the last. */
  method Round(table: RuleTable, anyLocation: bool, queueOf: nat -> nat, ghost first: nat, ghost deleted: nat,
               ghost iters: nat, ghost counts: seq<int>, prev: int, warned: bool)
    returns (v: Verdict, rulesCount: uint32, warned': bool, ghost all: seq<int>)
    requires table.rules == map[] && |counts| < iters
    requires prev == LastCount(counts) && (warned <==> Decreases(counts))
    requires Rounds(table.refuse, table.inserts, |table.deletions|, first, deleted, anyLocation, counts)
    requires GoodRounds(table.failDelete, deleted, counts)
    modifies table
    ensures |all| == |counts| + 1 && rulesCount == LastCount(all)
    ensures warned' <==> Decreases(if v == Pass then all else Good(v, all))
    ensures Rounds(table.refuse, table.inserts, |table.deletions|, first, deleted, anyLocation, all)
    ensures v != RulesPresent
    ensures if v == Pass then GoodRounds(table.failDelete, deleted, all)
            else VerdictOf(table.failDelete, v, deleted, iters, all)
    ensures v != CallFailed ==> table.rules == map[]
  {
    var result, refused;
    ghost var added, inserted;
    result, rulesCount, refused, added, inserted := TooManyRxRules(table, anyLocation, queueOf);
    all := counts + [rulesCount];
    assert all[..|counts|] == counts;
    CountsAppend(counts, rulesCount);
    if !anyLocation {
      AcceptedAppend(table.refuse, first, counts, rulesCount);
    }
    v := if result < 0 then CallFailed else if rulesCount == 0 then NothingAdded else Pass;
    warned' := CheckCount(v, prev, rulesCount, warned, counts);
  }

  function LastCount(counts: seq<int>): int {
    if counts == [] then 0 else counts[|counts| - 1]
  }

  /** Is the number of rules below that of the round before? */
  method CheckCount(v: Verdict, prev: int, rulesCount: uint32, warned: bool, ghost counts: seq<int>) returns (r: bool)
    requires prev == LastCount(counts) && (counts != [] ==> prev > 0)
    requires warned <==> Decreases(counts)
    ensures r <==> Decreases(if v == Pass then counts + [rulesCount] else counts)
  {
    DecreasesAppend(counts, rulesCount);
    r := warned || (v == Pass && prev > 0 && rulesCount < prev);
  }

  /** The rounds after the table was found empty. */
  method RunRounds(table: RuleTable, anyLocation: bool, iters: nat, queueOf: nat -> nat)
    returns (v: Verdict, warned: bool, ghost counts: seq<int>)
    requires table.rules == map[]
    modifies table
    ensures v != RulesPresent
    ensures Rounds(table.refuse, table.inserts, |table.deletions|, old(table.inserts), |old(table.deletions)|,
                   anyLocation, counts)
    ensures if v == Pass then |counts| == iters && GoodRounds(table.failDelete, |old(table.deletions)|, counts)
            else VerdictOf(table.failDelete, v, |old(table.deletions)|, iters, counts)
    ensures v != CallFailed ==> table.rules == map[]
    ensures warned <==> Decreases(if v == Pass then counts else Good(v, counts))
  {
    v, warned, counts := Pass, false, [];
    var prev := 0;
    for i := 0 to iters
      invariant table.rules == map[] && v == Pass && |counts| == i
      invariant Rounds(table.refuse, table.inserts, |table.deletions|, old(table.inserts), |old(table.deletions)|,
                       anyLocation, counts)
      invariant GoodRounds(table.failDelete, |old(table.deletions)|, counts)
      invariant prev == LastCount(counts) && (warned <==> Decreases(counts))
    {
      v, prev, warned, counts :=
        Round(table, anyLocation, queueOf, old(table.inserts), |old(table.deletions)|, iters, counts, prev, warned);
      if v != Pass { return; }
    }
  }

  /**
   * The test around it (net-drv-ts/rss/too_many_rx_rules.c): it insists on an empty table, and then fills and drains
   * it again and again. `counts` are the numbers of rules added in the rounds, with those of a last bad one. The table
   * is empty again after every round in which no deletion fails, and the warning is given exactly when the number of
   * rules goes down.
   */
  method RunTest(table: RuleTable, anyLocation: bool, iters: nat, queueOf: nat -> nat)
    returns (v: Verdict, warned: bool, ghost counts: seq<int>)
    modifies table
    ensures v == RulesPresent <==> old(table.rules) != map[]
    ensures v == RulesPresent ==> table.rules == old(table.rules) && counts == []
    ensures Rounds(table.refuse, table.inserts, |table.deletions|, old(table.inserts), |old(table.deletions)|,
                   anyLocation, counts)
    ensures VerdictOf(table.failDelete, v, |old(table.deletions)|, iters, counts)
    ensures v == Pass || v == NothingAdded ==> table.rules == map[]
    ensures warned <==> Decreases(Good(v, counts))
  {
    if table.rules != map[] { return RulesPresent, false, []; }
    v, warned, counts := RunRounds(table, anyLocation, iters, queueOf);
  }

  /** Two inserted rules never have the same pair of ports, and the count fits 32 bits. */
  lemma PairsDiffer(inserted: seq<Rule>, queueOf: nat -> nat, j: nat, k: nat)
    requires InOrder(inserted, queueOf) && j < k < |inserted|
    ensures (inserted[j].srcPort, inserted[j].dstPort) != (inserted[k].srcPort, inserted[k].dstPort)
    ensures MAX_PORT * MAX_PORT < TWO32
  {
    assert PairNumber(inserted[j].srcPort, inserted[j].dstPort) == j;
    assert PairNumber(inserted[k].srcPort, inserted[k].dstPort) == k;
  }
}
