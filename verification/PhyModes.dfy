/** PHY modes and what their names say: net-drv-ts/lib/net_drv_phy.c. */
module PhyModes {
  import opened Common

  datatype Duplex = Half | Full | UnknownDuplex

  const SPEED_UNKNOWN: int := -1
  const INT_MAX: int := 0x7fff_ffff
  const ULONG_MAX: int := 0xffff_ffff_ffff_ffff

  /** One exact PHY mode. */
  datatype ModeInfo = ModeInfo(name: string, advertised: bool, speed: int, duplex: Duplex)

  /** Both speed and duplex are known: the others are pause or FEC capabilities. */
  predicate IsLinkMode(m: ModeInfo) {
    m.speed != SPEED_UNKNOWN && m.duplex != UnknownDuplex
  }

  // ---------------------------------------------------------------- strtoul() in base 10

  predicate IsSpace(c: char) {
    c == ' ' || '\t' <= c <= '\r'
  }

  predicate IsDigit(c: char) {
    '0' <= c <= '9'
  }

  predicate AllDigits(s: string) {
    forall i :: 0 <= i < |s| ==> IsDigit(s[i])
  }

  function SkipSpaces(s: string, i: nat): (r: nat)
    requires i <= |s|
    ensures i <= r <= |s|
    decreases |s| - i
  {
    if i < |s| && IsSpace(s[i]) then SkipSpaces(s, i + 1) else i
  }

  function SkipDigits(s: string, i: nat): (r: nat)
    requires i <= |s|
    ensures i <= r <= |s|
    ensures forall j :: i <= j < r ==> IsDigit(s[j])
    decreases |s| - i
  {
    if i < |s| && IsDigit(s[i]) then SkipDigits(s, i + 1) else i
  }

  function DecimalValue(s: string): nat
    requires AllDigits(s)
  {
    if s == [] then 0 else 10 * DecimalValue(s[..|s| - 1]) + (s[|s| - 1] as int - '0' as int)
  }

  /** The value and where parsing stopped; nothing is parsed when there are no digits. */
  function Strtoul(s: string): (r: (nat, nat))
    ensures r.1 <= |s|
  {
    var start := SkipSpaces(s, 0);
    var signed := start < |s| && (s[start] == '+' || s[start] == '-');
    var first := if signed then start + 1 else start;
    var end := SkipDigits(s, first);
    if end == first then (0, 0)
    else
      var v := DecimalValue(s[first..end]);
      if v > ULONG_MAX then (ULONG_MAX, end)
      else if signed && s[start] == '-' && v > 0 then (TWO64 - v, end)
      else (v, end)
  }

  // ---------------------------------------------------------------- the mode name parser

  /** The rest of the string from the last underscore on, empty if there is none. */
  function FromLastUnderscore(s: string): string {
    if s == [] then []
    else
      var rest := FromLastUnderscore(s[1..]);
      if rest != [] then rest else if s[0] == '_' then s else []
  }

  /** Speed and duplex of a link mode name such as 1000baseT_Full; nothing for other names. */
  function ParseMode(name: string): Option<(int, Duplex)> {
    var (speed, end) := Strtoul(name);
    var suffix := FromLastUnderscore(name);
    if end == 0 || speed > INT_MAX || !("base" <= name[end..]) then None
    else if suffix == "_Full" then Some((speed, Full))
    else if suffix == "_Half" then Some((speed, Half))
    else if name == "10000baseR_FEC" then Some((speed, Full))
    else None
  }

  /** The description of a mode, from its name and whether it is advertised. */
  function InfoOf(name: string, advertised: bool): (r: ModeInfo)
    ensures r.name == name && r.advertised == advertised
  {
    var parsed := ParseMode(name);
    if parsed.None? then ModeInfo(name, advertised, SPEED_UNKNOWN, UnknownDuplex)
    else ModeInfo(name, advertised, parsed.value.0, parsed.value.1)
  }

  /** A name is that of a link mode when it can be parsed. */
  lemma LinkModeByName(name: string, advertised: bool)
    ensures IsLinkMode(InfoOf(name, advertised)) <==> ParseMode(name).Some?
    ensures IsLinkMode(InfoOf(name, advertised)) ==>
      InfoOf(name, advertised).speed >= 0 && InfoOf(name, advertised).duplex in {Half, Full}
  {
  }

  lemma {:induction false} DigitsSkipped(s: string, i: nat, n: nat)
    requires i <= n < |s| && (forall j :: i <= j < n ==> IsDigit(s[j])) && !IsDigit(s[n])
    ensures SkipDigits(s, i) == n
    decreases n - i
  {
    if i < n { DigitsSkipped(s, i + 1, n); }
  }

  lemma {:induction false} UnderscoreFound(s: string, suffix: string)
    requires suffix != [] && suffix[0] == '_' && forall j :: 1 <= j < |suffix| ==> suffix[j] != '_'
    ensures FromLastUnderscore(s + suffix) == suffix
  {
    if s == [] {
      assert s + suffix == suffix;
      NoUnderscore(suffix[1..]);
    } else {
      UnderscoreFound(s[1..], suffix);
      assert (s + suffix)[1..] == s[1..] + suffix;
    }
  }

  lemma {:induction false} NoUnderscore(s: string)
    requires forall j :: 0 <= j < |s| ==> s[j] != '_'
    ensures FromLastUnderscore(s) == []
  {
    if s != [] { NoUnderscore(s[1..]); }
  }

  function DuplexSuffix(duplex: Duplex): string {
    if duplex == Full then "_Full" else "_Half"
  }

  /** The name of a mode of the given speed, written in decimal, on some medium. */
  function ModeName(digits: string, media: string, duplex: Duplex): string {
    digits + "base" + media + DuplexSuffix(duplex)
  }

  /**
   * Round trip: a name made of a decimal speed, a medium and a duplex, whatever characters the medium has, is parsed
   * back if and only if the speed fits an int.
   */
  lemma ParseModeName(digits: string, media: string, duplex: Duplex)
    requires digits != [] && AllDigits(digits) && duplex != UnknownDuplex
    ensures ParseMode(ModeName(digits, media, duplex))
      == if DecimalValue(digits) <= INT_MAX then Some((DecimalValue(digits), duplex)) else None
  {
    var name := ModeName(digits, media, duplex);
    var n := |digits|;
    assert name[..n] == digits;
    assert name[n..n + 4] == "base";
    assert name[n] == 'b' && name[0] == digits[0];
    assert SkipSpaces(name, 0) == 0;
    DigitsSkipped(name, 0, n);
    assert name[0..n] == digits;
    assert "base" <= name[n..];
    UnderscoreFound(digits + "base" + media, DuplexSuffix(duplex));
    assert digits + "base" + media + DuplexSuffix(duplex) == name;
  }

  predicate EndsWith(s: string, suffix: string) {
    |suffix| <= |s| && s[|s| - |suffix|..] == suffix
  }

  lemma {:induction false} FromLastIsSuffix(s: string)
    ensures EndsWith(s, FromLastUnderscore(s))
  {
    if s != [] { FromLastIsSuffix(s[1..]); }
  }

  lemma LastSuffix(s: string, suffix: string)
    requires suffix != [] && suffix[0] == '_' && forall j :: 1 <= j < |suffix| ==> suffix[j] != '_'
    ensures FromLastUnderscore(s) == suffix <==> EndsWith(s, suffix)
  {
    FromLastIsSuffix(s);
    if EndsWith(s, suffix) {
      var k := |s| - |suffix|;
      assert s == s[..k] + suffix;
      UnderscoreFound(s[..k], suffix);
    }
  }

  /** The duplex that the end of a name says, if any; one name says it without. */
  predicate NameHasDuplex(name: string, duplex: Duplex) {
    match duplex
    case Full => EndsWith(name, "_Full") || name == "10000baseR_FEC"
    case Half => EndsWith(name, "_Half")
    case UnknownDuplex => false
  }

  /**
   * A number as strtoul() takes it at the start of a name: white space up to a, a sign up to b, and digits up to e,
   * where the word "base" is.
   */
  predicate NumberAt(name: string, a: nat, b: nat, e: nat) {
    && a <= b < e <= |name| && b <= a + 1
    && (forall j :: 0 <= j < a ==> IsSpace(name[j]))
    && (b == a + 1 ==> name[a] == '+' || name[a] == '-')
    && (forall j :: b <= j < e ==> IsDigit(name[j]))
    && "base" <= name[e..]
  }

  predicate Negative(name: string, a: nat, b: nat)
    requires a <= b <= |name|
  {
    a < b && name[a] == '-'
  }

  lemma {:induction false} SpacesSkipped(s: string, i: nat, n: nat)
    requires i <= n < |s| && (forall j :: i <= j < n ==> IsSpace(s[j])) && !IsSpace(s[n])
    ensures SkipSpaces(s, i) == n
    decreases n - i
  {
    if i < n { SpacesSkipped(s, i + 1, n); }
  }

  lemma {:induction false} SkippedAreSpaces(s: string, i: nat)
    requires i <= |s|
    ensures forall j :: i <= j < SkipSpaces(s, i) ==> IsSpace(s[j])
    decreases |s| - i
  {
    if i < |s| && IsSpace(s[i]) { SkippedAreSpaces(s, i + 1); }
  }

  /** What strtoul() makes of such a name. */
  lemma NumberParsed(name: string, a: nat, b: nat, e: nat)
    requires NumberAt(name, a, b, e)
    ensures var (v, end) := Strtoul(name);
      && end == e
      && v == if DecimalValue(name[b..e]) > ULONG_MAX then ULONG_MAX
              else if Negative(name, a, b) && DecimalValue(name[b..e]) > 0 then TWO64 - DecimalValue(name[b..e])
              else DecimalValue(name[b..e])
  {
    assert name[e] == 'b' by {
      assert "base"[0] == name[e..][0];
    }
    SpacesSkipped(name, 0, a);
    DigitsSkipped(name, b, e);
  }

  lemma NumberFound(name: string) returns (a: nat, b: nat, e: nat)
    requires ParseMode(name).Some?
    ensures NumberAt(name, a, b, e)
  {
    a := SkipSpaces(name, 0);
    SkippedAreSpaces(name, 0);
    b := if a < |name| && (name[a] == '+' || name[a] == '-') then a + 1 else a;
    e := SkipDigits(name, b);
  }

  /** The speed that a name starts with; a negative number counts from 2^64 down. */
  ghost predicate NameHasSpeed(name: string, speed: int) {
    exists a: nat, b: nat, e: nat ::
      NumberAt(name, a, b, e) && SignedValue(DecimalValue(name[b..e]), Negative(name, a, b)) == speed
  }

  function SignedValue(v: nat, negative: bool): nat {
    if negative && 0 < v < TWO64 then TWO64 - v else v
  }

  lemma SuffixParsed(name: string, duplex: Duplex)
    ensures NameHasDuplex(name, duplex) <==>
      var suffix := FromLastUnderscore(name);
      && duplex != UnknownDuplex
      && (if suffix == "_Full" then duplex == Full
          else if suffix == "_Half" then duplex == Half
          else duplex == Full && name == "10000baseR_FEC")
  {
    LastSuffix(name, "_Full");
    LastSuffix(name, "_Half");
    if name == "10000baseR_FEC" {
      assert name[|name| - 5..] == "R_FEC"[..0] + "e"[..0] + name[9..];
      assert name[|name| - 1] == 'C' && "_Full"[4] == 'l' && "_Half"[4] == 'f';
    }
  }

  /**
   * Parsing is exact: a name gives a speed and a duplex if and only if it starts with that number and the word "base",
   * the number fits an int, as it is or counted from 2^64 down after a minus, and its end says the duplex.
   */
  lemma ParseExact(name: string, speed: int, duplex: Duplex)
    ensures ParseMode(name) == Some((speed, duplex)) <==>
      NameHasDuplex(name, duplex) && speed <= INT_MAX && NameHasSpeed(name, speed)
  {
    if ParseMode(name) == Some((speed, duplex)) {
      SpeedRead(name);
      SuffixParsed(name, duplex);
    }
    if NameHasDuplex(name, duplex) && speed <= INT_MAX && NameHasSpeed(name, speed) {
      SpeedTaken(name, speed);
      SuffixParsed(name, duplex);
    }
  }

  lemma SpeedRead(name: string)
    requires ParseMode(name).Some?
    ensures NameHasSpeed(name, ParseMode(name).value.0) && ParseMode(name).value.0 <= INT_MAX
  {
    var a, b, e := NumberFound(name);
    NumberParsed(name, a, b, e);
  }

  lemma SpeedTaken(name: string, speed: int)
    requires speed <= INT_MAX && NameHasSpeed(name, speed)
    ensures var (v, end) := Strtoul(name); v == speed && end != 0 && "base" <= name[end..]
  {
    var a: nat, b: nat, e: nat :|
      NumberAt(name, a, b, e) && SignedValue(DecimalValue(name[b..e]), Negative(name, a, b)) == speed;
    NumberParsed(name, a, b, e);
  }

  lemma DecimalSnoc(digits: string, d: char)
    requires AllDigits(digits) && IsDigit(d)
    ensures AllDigits(digits + [d])
    ensures DecimalValue(digits + [d]) == 10 * DecimalValue(digits) + (d as int - '0' as int)
  {
    assert (digits + [d])[..|digits|] == digits;
  }

  lemma TenThousand()
    ensures AllDigits("10000") && DecimalValue("10000") == 10000
  {
    DecimalSnoc([], '1');
    DecimalSnoc([] + ['1'], '0');
    DecimalSnoc([] + ['1'] + ['0'], '0');
    DecimalSnoc([] + ['1'] + ['0'] + ['0'], '0');
    DecimalSnoc([] + ['1'] + ['0'] + ['0'] + ['0'], '0');
    assert "10000" == [] + ['1'] + ['0'] + ['0'] + ['0'] + ['0'];
  }

  /** The one name with another suffix. */
  lemma FecName()
    ensures ParseMode("10000baseR_FEC") == Some((10000, Full))
  {
    var digits, name := "10000", "10000" + "base" + "R_FEC";
    TenThousand();
    assert name[0..5] == digits;
    assert name[5..] == "base" + "R_FEC";
    assert forall j :: 0 <= j < 5 ==> name[j] == digits[j];
    assert NumberAt(name, 0, 0, 5);
    assert name == "10000baseR_FEC";
    ParseExact(name, 10000, Full);
  }

  // ---------------------------------------------------------------- modes that two sides have in common

  /** The first mode with this name. */
  function FirstNamed(modes: seq<ModeInfo>, name: string): (r: Option<ModeInfo>)
    ensures r.Some? ==> r.value in modes && r.value.name == name
    ensures r.None? <==> forall i :: 0 <= i < |modes| ==> modes[i].name != name
  {
    if modes == [] then None
    else if modes[0].name == name then Some(modes[0])
    else FirstNamed(modes[1..], name)
  }

  /** What is found is the first mode with the name. */
  lemma {:induction false} FirstNamedAt(modes: seq<ModeInfo>, name: string, i: nat)
    requires i < |modes| && modes[i].name == name && forall j :: 0 <= j < i ==> modes[j].name != name
    ensures FirstNamed(modes, name) == Some(modes[i])
  {
    if i > 0 { FirstNamedAt(modes[1..], name, i - 1); }
  }

  method FindModeByName(modes: seq<ModeInfo>, name: string) returns (r: Option<ModeInfo>)
    ensures r == FirstNamed(modes, name)
  {
    var i := 0;
    while i < |modes|
      invariant 0 <= i <= |modes|
      invariant FirstNamed(modes, name) == FirstNamed(modes[i..], name)
    {
      if modes[i].name == name {
        return Some(modes[i]);
      }
      i := i + 1;
    }
    return None;
  }

  /** Which modes of a side count. */
  type Eligible = ModeInfo -> bool

  predicate IsCommon(m: ModeInfo, peers: seq<ModeInfo>, eligible: Eligible) {
    var peer := FirstNamed(peers, m.name);
    eligible(m) && peer.Some? && eligible(peer.value)
  }

  /** The modes that count on both sides, in the order of the first. */
  function CommonModes(modes: seq<ModeInfo>, peers: seq<ModeInfo>, eligible: Eligible): (r: seq<ModeInfo>)
    ensures |r| <= |modes|
  {
    if modes == [] then []
    else
      var m := modes[|modes| - 1];
      CommonModes(modes[..|modes| - 1], peers, eligible) + if IsCommon(m, peers, eligible) then [m] else []
  }

  lemma CommonStep(modes: seq<ModeInfo>, i: nat, peers: seq<ModeInfo>, eligible: Eligible)
    requires i < |modes|
    ensures CommonModes(modes[..i + 1], peers, eligible)
         == if IsCommon(modes[i], peers, eligible) then CommonModes(modes[..i], peers, eligible) + [modes[i]]
            else CommonModes(modes[..i], peers, eligible)
  {
    assert modes[..i + 1][..i] == modes[..i];
  }

  lemma {:induction false} CommonMember(modes: seq<ModeInfo>, peers: seq<ModeInfo>, eligible: Eligible, m: ModeInfo)
    ensures m in CommonModes(modes, peers, eligible) <==> m in modes && IsCommon(m, peers, eligible)
  {
    if modes != [] {
      var n := |modes| - 1;
      CommonMember(modes[..n], peers, eligible, m);
      assert modes == modes[..n] + [modes[n]];
    }
  }

  /** Order of preference: higher speed first, then full duplex. */
  function Rank(m: ModeInfo): int {
    2 * m.speed + if m.duplex == Full then 1 else 0
  }

  predicate SamePair(m: ModeInfo, n: ModeInfo) {
    m.speed == n.speed && m.duplex == n.duplex
  }

  /** The better of two modes has the higher speed, or the same speed and full duplex against half. */
  predicate Better(m: ModeInfo, n: ModeInfo) {
    m.speed > n.speed || (m.speed == n.speed && m.duplex == Full && n.duplex == Half)
  }

  lemma RankIsBetter(m: ModeInfo, n: ModeInfo)
    requires m.duplex != UnknownDuplex && n.duplex != UnknownDuplex
    ensures Rank(m) > Rank(n) <==> Better(m, n)
    ensures Better(m, n) || Better(n, m) || SamePair(m, n)
  {
  }

  /** Among link modes the rank is the pair of speed and duplex. */
  lemma RankIsPair(m: ModeInfo, n: ModeInfo)
    requires m.duplex != UnknownDuplex && n.duplex != UnknownDuplex
    ensures Rank(m) == Rank(n) <==> SamePair(m, n)
  {
  }
}
