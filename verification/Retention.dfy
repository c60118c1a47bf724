/** Retention policies: which of them governs a (source, kind) pair, dimension by
    dimension, and when vectors are sure not to outlive their events. */
module Retention {
  import opened Prelude
  import opened Sorting
  import Text

  /** Durations are counted in nanoseconds. */
  type Duration = nat

  const NANOS_PER_MS := 1_000_000

  datatype Policy = Policy(
    matchSource: Option<string>,
    matchKind: Option<string>,
    maxAge: Option<Duration>,
    maxCount: Option<int>,
    maxBytes: Option<int>,
    vectorMaxAge: Option<Duration>)

  datatype Effective = Effective(
    maxAgeMs: Option<int>,
    maxCount: Option<int>,
    maxBytes: Option<int>,
    vectorMaxAgeMs: Option<int>)

  datatype Dimension = Age | Count | Bytes | VectorAge

  const UNSET: Effective := Effective(None, None, None, None)

  predicate IsEmpty(eff: Effective) {
    eff.maxAgeMs.None? && eff.maxCount.None? && eff.maxBytes.None? && eff.vectorMaxAgeMs.None?
  }

  function DurationToMs(d: Duration): int {
    Min(d / NANOS_PER_MS, I64_MAX)
  }

  function ToMs(d: Option<Duration>): Option<int> {
    if d.None? then None else Some(DurationToMs(d.value))
  }

  /** "name@vN" without its version. */
  function BareKind(kind: string): string {
    if kind == [] || kind[0] == '@' then [] else [kind[0]] + BareKind(kind[1..])
  }

  predicate Matches(p: Policy, source: string, kind: string) {
    (p.matchSource.None? || p.matchSource.value == source) &&
    (p.matchKind.None? || p.matchKind.value == BareKind(kind) || p.matchKind.value == kind)
  }

  /** A named source must be the event's own, a named kind its kind or a kind of which it is a version. */
  ghost predicate Applies(p: Policy, source: string, kind: string) {
    (p.matchSource.Some? ==> source == p.matchSource.value) &&
    (p.matchKind.Some? ==>
      kind == p.matchKind.value || (p.matchKind.value + "@" <= kind && '@' !in p.matchKind.value))
  }

  lemma {:induction false} BareKindExactlyWhen(kind: string, name: string)
    ensures BareKind(kind) == name <==> '@' !in name && (name == kind || name + "@" <= kind)
  {
    if kind != [] && name != [] {
      assert (name + "@")[0] == name[0];
      if kind[0] != '@' && kind[0] == name[0] {
        BareKindExactlyWhen(kind[1..], name[1..]);
        assert name == [name[0]] + name[1..] && kind == [kind[0]] + kind[1..];
        assert name + "@" == [name[0]] + (name[1..] + "@");
      }
    }
  }

  lemma {:induction false} MatchesExactlyWhen(p: Policy, source: string, kind: string)
    ensures Matches(p, source, kind) <==> Applies(p, source, kind)
  {
    if p.matchKind.Some? {
      BareKindExactlyWhen(kind, p.matchKind.value);
    }
  }

  function Tier(p: Policy): nat {
    if p.matchSource.Some? then 0 else if p.matchKind.Some? then 1 else 2
  }

  predicate TierLeq(a: Policy, b: Policy) {
    Tier(a) <= Tier(b)
  }

  /** What a policy sets in one dimension. */
  function Setting(p: Policy, dim: Dimension): Option<int> {
    match dim
    case Age => ToMs(p.maxAge)
    case Count => p.maxCount
    case Bytes => p.maxBytes
    case VectorAge => ToMs(p.vectorMaxAge)
  }

  ghost predicate Sets(p: Policy, dim: Dimension) {
    match dim
    case Age => p.maxAge.Some?
    case Count => p.maxCount.Some?
    case Bytes => p.maxBytes.Some?
    case VectorAge => p.vectorMaxAge.Some?
  }

  /** Whole milliseconds, as far as the machine's integers go. */
  ghost predicate InMs(d: Duration, ms: int) {
    0 <= ms <= I64_MAX && ms * 1_000_000 <= d && (ms < I64_MAX ==> d < (ms + 1) * 1_000_000)
  }

  /** The value a policy gives to a dimension it sets. */
  ghost predicate Gives(p: Policy, dim: Dimension, v: int) {
    Sets(p, dim) &&
    match dim
    case Age => InMs(p.maxAge.value, v)
    case Count => p.maxCount.value == v
    case Bytes => p.maxBytes.value == v
    case VectorAge => InMs(p.vectorMaxAge.value, v)
  }

  lemma {:induction false} SettingIsGiven(p: Policy, dim: Dimension)
    ensures Setting(p, dim).Some? <==> Sets(p, dim)
    ensures forall v :: Setting(p, dim) == Some(v) <==> Gives(p, dim, v)
  {
    forall v ensures Setting(p, dim) == Some(v) <==> Gives(p, dim, v) {
      match dim {
        case Age => if p.maxAge.Some? { WholeMs(p.maxAge.value, v); }
        case VectorAge => if p.vectorMaxAge.Some? { WholeMs(p.vectorMaxAge.value, v); }
        case _ =>
      }
    }
  }

  lemma {:induction false} WholeMs(d: Duration, ms: int)
    ensures DurationToMs(d) == ms <==> InMs(d, ms)
  {
    var q := d / NANOS_PER_MS;
    assert d == q * NANOS_PER_MS + d % NANOS_PER_MS;
  }

  ghost function InEffect(eff: Effective, dim: Dimension): Option<int> {
    match dim
    case Age => eff.maxAgeMs
    case Count => eff.maxCount
    case Bytes => eff.maxBytes
    case VectorAge => eff.vectorMaxAgeMs
  }

  function Matching(policies: seq<Policy>, source: string, kind: string): seq<Policy> {
    if policies == [] then []
    else (if Matches(policies[0], source, kind) then [policies[0]] else [])
         + Matching(policies[1..], source, kind)
  }

  function FirstSetting(ps: seq<Policy>, dim: Dimension): Option<int> {
    if ps == [] then None
    else if Setting(ps[0], dim).Some? then Setting(ps[0], dim)
    else FirstSetting(ps[1..], dim)
  }

  function FirstSettings(ps: seq<Policy>): Effective {
    Effective(FirstSetting(ps, Age), FirstSetting(ps, Count), FirstSetting(ps, Bytes), FirstSetting(ps, VectorAge))
  }

  /** Value form of `ResolveEffective`, for use in specifications. */
  function Resolve(policies: seq<Policy>, source: string, kind: string): Effective {
    FirstSettings(Sort(Matching(policies, source, kind), TierLeq))
  }

  lemma {:induction false} FirstSettingSnoc(ps: seq<Policy>, p: Policy, dim: Dimension)
    ensures FirstSetting(ps + [p], dim)
            == if FirstSetting(ps, dim).None? then Setting(p, dim) else FirstSetting(ps, dim)
  {
    if ps == [] {
      assert [p][1..] == [];
      assert ps + [p] == [p];
    } else {
      assert (ps + [p])[1..] == ps[1..] + [p];
      FirstSettingSnoc(ps[1..], p, dim);
    }
  }

  /** Fill in what is still unset. */
  function Absorb(eff: Effective, p: Policy): Effective {
    Effective(
      if eff.maxAgeMs.None? then ToMs(p.maxAge) else eff.maxAgeMs,
      if eff.maxCount.None? then p.maxCount else eff.maxCount,
      if eff.maxBytes.None? then p.maxBytes else eff.maxBytes,
      if eff.vectorMaxAgeMs.None? then ToMs(p.vectorMaxAge) else eff.vectorMaxAgeMs)
  }

  lemma {:induction false} AbsorbNext(ps: seq<Policy>, i: nat)
    requires i < |ps|
    ensures FirstSettings(ps[..i + 1]) == Absorb(FirstSettings(ps[..i]), ps[i])
  {
    assert ps[..i + 1] == ps[..i] + [ps[i]];
    FirstSettingSnoc(ps[..i], ps[i], Age);
    FirstSettingSnoc(ps[..i], ps[i], Count);
    FirstSettingSnoc(ps[..i], ps[i], Bytes);
    FirstSettingSnoc(ps[..i], ps[i], VectorAge);
  }

  method SelectMatching(policies: seq<Policy>, source: string, kind: string) returns (matching: seq<Policy>)
    ensures matching == Matching(policies, source, kind)
  {
    matching := [];
    assert policies == policies[0..];
    for i := 0 to |policies|
      invariant matching + Matching(policies[i..], source, kind) == Matching(policies, source, kind)
    {
      assert policies[i..][1..] == policies[i + 1..];
      if Matches(policies[i], source, kind) {
        matching := matching + [policies[i]];
      }
    }
  }

  /** Most specific tier first, config order within a tier; the first policy to set a dimension
      decides it. */
  method ResolveEffective(policies: seq<Policy>, source: string, kind: string) returns (eff: Effective)
    ensures eff == Resolve(policies, source, kind)
  {
    var matching := SelectMatching(policies, source, kind);
    var sorted := Sort(matching, TierLeq);
    eff := UNSET;
    for i := 0 to |sorted|
      invariant eff == FirstSettings(sorted[..i])
    {
      AbsorbNext(sorted, i);
      eff := Absorb(eff, sorted[i]);
    }
    assert sorted[..|sorted|] == sorted;
  }

  // ----- which policy wins -----

  ghost predicate Governs(p: Policy, source: string, kind: string, dim: Dimension) {
    Applies(p, source, kind) && Sets(p, dim)
  }

  lemma {:induction false} GovernsExactlyWhen(p: Policy, source: string, kind: string, dim: Dimension)
    ensures Governs(p, source, kind, dim) <==> Matches(p, source, kind) && Setting(p, dim).Some?
  {
    MatchesExactlyWhen(p, source, kind);
    SettingIsGiven(p, dim);
  }

  /** Entry i goes before entry j: naming a source beats not naming one; among entries that name none,
      naming a kind beats naming none; otherwise the earlier entry wins. */
  ghost predicate Ahead(policies: seq<Policy>, i: int, j: int)
    requires 0 <= i < |policies| && 0 <= j < |policies|
  {
    var p, q := policies[i], policies[j];
    if p.matchSource.Some? != q.matchSource.Some? then p.matchSource.Some?
    else if p.matchSource.None? && p.matchKind.Some? != q.matchKind.Some? then p.matchKind.Some?
    else i < j
  }

  /** Policy i applies, sets the dimension, and goes before every other that does. */
  ghost predicate Winner(policies: seq<Policy>, source: string, kind: string, dim: Dimension, i: int) {
    0 <= i < |policies| && Governs(policies[i], source, kind, dim) &&
    forall j :: 0 <= j < |policies| && Governs(policies[j], source, kind, dim) && j != i ==> Ahead(policies, i, j)
  }

  ghost function SetsDim(dim: Dimension): Policy -> bool {
    (p: Policy) => Setting(p, dim).Some?
  }

  ghost function GovernsDim(source: string, kind: string, dim: Dimension): Policy -> bool {
    (p: Policy) => Matches(p, source, kind) && Setting(p, dim).Some?
  }

  lemma {:induction false} FirstSettingIsFirstWith(ps: seq<Policy>, dim: Dimension)
    ensures FirstSetting(ps, dim)
            == (var f := FirstWith(ps, SetsDim(dim)); if f.None? then None else Setting(f.value, dim))
  {
    if ps == [] {
    } else {
      FirstSettingIsFirstWith(ps[1..], dim);
    }
  }

  lemma {:induction false} BestOfMatching(policies: seq<Policy>, source: string, kind: string, dim: Dimension)
    ensures Best(Matching(policies, source, kind), TierLeq, SetsDim(dim))
            == Best(policies, TierLeq, GovernsDim(source, kind, dim))
  {
    if policies == [] {
    } else {
      BestOfMatching(policies[1..], source, kind, dim);
      var rest := Matching(policies[1..], source, kind);
      assert ([policies[0]] + rest)[1..] == rest;
      assert [] + rest == rest;
    }
  }

  /** Each effective dimension is the winner's setting, and unset exactly when nobody governs it. */
  lemma {:induction false} ResolutionPicksWinner(policies: seq<Policy>, source: string, kind: string, dim: Dimension)
    ensures var v := InEffect(Resolve(policies, source, kind), dim);
            if v.None? then forall j :: 0 <= j < |policies| ==> !Governs(policies[j], source, kind, dim)
            else exists i :: Winner(policies, source, kind, dim, i) && Gives(policies[i], dim, v.value)
                             && Setting(policies[i], dim) == v
  {
    var ms := Matching(policies, source, kind);
    var has := GovernsDim(source, kind, dim);
    FirstSettingIsFirstWith(Sort(ms, TierLeq), dim);
    FirstOfSorted(ms, TierLeq, SetsDim(dim));
    BestOfMatching(policies, source, kind, dim);
    BestIsLeastFirst(policies, TierLeq, has);
    forall j | 0 <= j < |policies| ensures has(policies[j]) <==> Governs(policies[j], source, kind, dim) {
      GovernsExactlyWhen(policies[j], source, kind, dim);
    }
    if Best(policies, TierLeq, has).Some? {
      var i :| LeastFirst(policies, TierLeq, has, i) && policies[i] == Best(policies, TierLeq, has).value;
      SettingIsGiven(policies[i], dim);
      assert Winner(policies, source, kind, dim, i) by {
        forall j | 0 <= j < |policies| && Governs(policies[j], source, kind, dim) && j != i
          ensures Ahead(policies, i, j)
        {
          assert has(policies[j]);
        }
      }
    } else {
      forall j | 0 <= j < |policies| ensures !Governs(policies[j], source, kind, dim) {
        assert !has(policies[j]);
      }
    }
  }

  // ----- from the configuration to policies -----

  /** A `[[retention]]` entry; ages are still texts. */
  datatype Entry = Entry(
    matchSource: Option<string>,
    matchKind: Option<string>,
    maxAge: Option<string>,
    maxCount: Option<int>,
    maxBytes: Option<int>,
    vectorMaxAge: Option<string>)

  const NANOS_PER_SEC := 1_000_000_000

  function DigitRun(s: string): (n: nat)
    ensures n <= |s|
  {
    if s == [] || !Text.IsDigit(s[0]) then 0 else 1 + DigitRun(s[1..])
  }

  function UnitSeconds(unit: string): Option<nat> {
    if unit == "s" then Some(1)
    else if unit == "m" then Some(60)
    else if unit == "h" then Some(3600)
    else if unit == "d" then Some(86_400)
    else None
  }

  /** The seconds a unit letter stands for. */
  ghost predicate Unit(unit: string, seconds: nat) {
    (unit == "s" && seconds == 1) || (unit == "m" && seconds == 60) ||
    (unit == "h" && seconds == 60 * 60) || (unit == "d" && seconds == 24 * 60 * 60)
  }

  /** The text, blanks at its ends aside, is a number in decimal digits and a unit. */
  ghost predicate Written(text: string, digits: string, unit: string, seconds: nat) {
    Text.Trimmed(text, digits + unit) && digits != [] && Text.AllDigits(digits) && Unit(unit, seconds)
  }

  /** A whole number and a unit; the seconds must fit 64 bits. */
  function ParseDuration(text: string): Option<Duration> {
    var s := Text.Trim(text);
    var n := Text.ParseU64(s[..DigitRun(s)]);
    var unit := UnitSeconds(s[DigitRun(s)..]);
    if n.None? || unit.None? || n.value * unit.value > Text.U64_MAX then None
    else Some(n.value * unit.value * NANOS_PER_SEC)
  }

  lemma {:induction false} DigitRunSplits(digits: string, unit: string)
    requires Text.AllDigits(digits) && unit != [] && !Text.IsDigit(unit[0])
    ensures DigitRun(digits + unit) == |digits|
  {
    if digits == [] {
      assert digits + unit == unit;
    } else {
      assert digits[0] in digits && forall c :: c in digits[1..] ==> c in digits;
      assert (digits + unit)[1..] == digits[1..] + unit;
      DigitRunSplits(digits[1..], unit);
    }
  }

  lemma {:induction false} DigitRunDigits(s: string)
    ensures Text.AllDigits(s[..DigitRun(s)])
  {
    if s != [] && Text.IsDigit(s[0]) {
      DigitRunDigits(s[1..]);
      assert s[..DigitRun(s)] == [s[0]] + s[1..][..DigitRun(s[1..])];
    }
  }

  lemma {:induction false} WrittenParses(text: string, digits: string, unit: string, seconds: nat)
    requires Written(text, digits, unit, seconds)
    ensures var total := Text.DecimalValue(digits) * seconds;
            ParseDuration(text) == if total <= Text.U64_MAX then Some(total * 1_000_000_000) else None
  {
    var s := digits + unit;
    Text.TrimmedIsTrim(text, s);
    DigitRunSplits(digits, unit);
    assert s[..|digits|] == digits && s[|digits|..] == unit;
    assert digits[0] in digits;
    assert UnitSeconds(unit) == Some(seconds);
    assert Text.DecimalValue(digits) <= Text.DecimalValue(digits) * seconds;
  }

  /** What can be read as a duration: exactly a whole number with one of the units s, m, h and d, blanks
      around it allowed, whose seconds fit 64 bits; and it reads as that many seconds. */
  lemma {:induction false} ReadsExactlyWhen(text: string, d: Duration)
    ensures ParseDuration(text) == Some(d) <==>
              exists digits, unit, seconds :: Written(text, digits, unit, seconds) &&
                Text.DecimalValue(digits) * seconds <= Text.U64_MAX &&
                d == Text.DecimalValue(digits) * seconds * 1_000_000_000
  {
    forall digits, unit, seconds | Written(text, digits, unit, seconds)
      ensures var total := Text.DecimalValue(digits) * seconds;
              ParseDuration(text) == if total <= Text.U64_MAX then Some(total * 1_000_000_000) else None
    {
      WrittenParses(text, digits, unit, seconds);
    }
    if ParseDuration(text) == Some(d) {
      var digits, unit, seconds := ParsedIsWritten(text);
    }
  }

  lemma {:induction false} ParsedIsWritten(text: string) returns (digits: string, unit: string, seconds: nat)
    requires ParseDuration(text).Some?
    ensures Written(text, digits, unit, seconds)
  {
    var s := Text.Trim(text);
    digits, unit := s[..DigitRun(s)], s[DigitRun(s)..];
    seconds := UnitSeconds(unit).value;
    assert digits + unit == s;
    Text.TrimTrims(text);
    DigitRunDigits(s);
  }

  predicate Readable(age: Option<string>) {
    age.Some? ==> ParseDuration(age.value).Some?
  }

  /** What the startup check asks of an entry. It reads the ages only if both are set. */
  predicate Accepted(e: Entry) {
    (e.matchSource.Some? || e.matchKind.Some?) &&
    (e.maxAge.Some? && e.vectorMaxAge.Some? ==>
      Readable(e.maxAge) && Readable(e.vectorMaxAge) &&
      ParseDuration(e.vectorMaxAge.value).value <= ParseDuration(e.maxAge.value).value)
  }

  /** Reports the first offending entry, if any. */
  method CheckRetention(entries: seq<Entry>) returns (r: Result<(), nat>)
    ensures r.Ok? <==> forall e :: e in entries ==> Accepted(e)
    ensures r.Err? ==> r.error < |entries| && !Accepted(entries[r.error])
                       && forall j :: 0 <= j < r.error ==> Accepted(entries[j])
  {
    for i := 0 to |entries|
      invariant forall j :: 0 <= j < i ==> Accepted(entries[j])
    {
      var e := entries[i];
      assert e in entries;
      if e.matchSource.None? && e.matchKind.None? {
        return Err(i);
      }
      if e.maxAge.Some? && e.vectorMaxAge.Some? {
        var raw := ParseDuration(e.maxAge.value);
        if raw.None? {
          return Err(i);
        }
        var vec := ParseDuration(e.vectorMaxAge.value);
        if vec.None? || vec.value > raw.value {
          return Err(i);
        }
      }
    }
    return Ok(());
  }

  function ReadAge(age: Option<string>): Option<Duration> {
    if age.None? then None else ParseDuration(age.value)
  }

  function ToPolicy(e: Entry): Policy {
    Policy(e.matchSource, e.matchKind, ReadAge(e.maxAge), e.maxCount, e.maxBytes, ReadAge(e.vectorMaxAge))
  }

  /** The policy says what the entry says, with its ages read. */
  ghost predicate BuiltFrom(p: Policy, e: Entry) {
    p.matchSource == e.matchSource && p.matchKind == e.matchKind &&
    p.maxCount == e.maxCount && p.maxBytes == e.maxBytes &&
    (if e.maxAge.None? then p.maxAge.None? else p.maxAge.Some? && p.maxAge == ParseDuration(e.maxAge.value)) &&
    (if e.vectorMaxAge.None? then p.vectorMaxAge.None?
     else p.vectorMaxAge.Some? && p.vectorMaxAge == ParseDuration(e.vectorMaxAge.value))
  }

  predicate Buildable(e: Entry) {
    Readable(e.maxAge) && Readable(e.vectorMaxAge)
  }

  /** One policy per entry, in order, or the first entry with an age that cannot be read. */
  method BuildPolicies(entries: seq<Entry>) returns (r: Result<seq<Policy>, nat>)
    ensures r.Ok? <==> forall e :: e in entries ==> Buildable(e)
    ensures r.Ok? ==> |r.value| == |entries|
    ensures r.Ok? ==> forall i :: 0 <= i < |entries| ==>
              BuiltFrom(r.value[i], entries[i]) && r.value[i] == ToPolicy(entries[i])
    ensures r.Err? ==> r.error < |entries| && !Buildable(entries[r.error])
                       && forall j :: 0 <= j < r.error ==> Buildable(entries[j])
  {
    var out: seq<Policy> := [];
    for i := 0 to |entries|
      invariant |out| == i
      invariant forall j :: 0 <= j < i ==>
                  Buildable(entries[j]) && BuiltFrom(out[j], entries[j]) && out[j] == ToPolicy(entries[j])
    {
      var e := entries[i];
      assert e in entries;
      var maxAge, vectorMaxAge := ReadAge(e.maxAge), ReadAge(e.vectorMaxAge);
      if (e.maxAge.Some? && maxAge.None?) || (e.vectorMaxAge.Some? && vectorMaxAge.None?) {
        return Err(i);
      }
      out := out + [Policy(e.matchSource, e.matchKind, maxAge, e.maxCount, e.maxBytes, vectorMaxAge)];
    }
    return Ok(out);
  }

  predicate OneSided(e: Entry) {
    e.maxAge.Some? != e.vectorMaxAge.Some?
  }

  /** What the check guarantees of a policy built from an entry. */
  predicate EntryOk(p: Policy) {
    (p.matchSource.Some? || p.matchKind.Some?) &&
    (p.maxAge.Some? && p.vectorMaxAge.Some? ==> p.vectorMaxAge.value <= p.maxAge.value)
  }

  /** A checked entry can still be unreadable: exactly when it sets one age and that one does not
      parse. Otherwise its policy is what the check promises. */
  lemma CheckedEntryBuildsExactlyWhen(e: Entry)
    requires Accepted(e)
    ensures Buildable(e) <==> (OneSided(e) ==> ReadAge(e.maxAge).Some? || ReadAge(e.vectorMaxAge).Some?)
    ensures Buildable(e) ==> EntryOk(ToPolicy(e))
  {
  }

  /** Any text without a unit, in a one-sided entry, passes the check and then fails to build. */
  lemma UnreadableAgeSlipsThrough(name: string, n: nat)
    ensures var e := Entry(Some(name), None, Some(Text.Decimal(n)), None, None, None);
            Accepted(e) && !Buildable(e)
  {
    Text.DecimalReadsBack(n);
    var ds := Text.Decimal(n);
    assert ds[0] in ds && ds[|ds| - 1] in ds;
    assert Text.IsDigit(ds[0]) && Text.IsDigit(ds[|ds| - 1]);
    assert Text.Trim(ds) == ds;
    AllDigitsRun(ds);
  }

  lemma {:induction false} AllDigitsRun(s: string)
    requires Text.AllDigits(s)
    ensures DigitRun(s) == |s|
  {
    if s == [] {
    } else {
      assert s[0] in s && forall c :: c in s[1..] ==> c in s;
      AllDigitsRun(s[1..]);
    }
  }

  // ----- vectors and the events they come from -----

  predicate VectorAgeExceeds(eff: Effective) {
    eff.vectorMaxAgeMs.Some? && eff.maxAgeMs.Some? && eff.vectorMaxAgeMs.value > eff.maxAgeMs.value
  }

  /** Events expire by age and their vectors later, or never. */
  predicate VectorsOutlive(eff: Effective) {
    eff.maxAgeMs.Some? && (eff.vectorMaxAgeMs.None? || VectorAgeExceeds(eff))
  }

  predicate BothAgesOrNeither(p: Policy) {
    p.maxAge.Some? <==> p.vectorMaxAge.Some?
  }

  lemma {:induction false} DurationMonotone(a: Duration, b: Duration)
    requires a <= b
    ensures DurationToMs(a) <= DurationToMs(b)
  {
  }

  /** Entries that set both ages or neither, and pass the check, resolve safely everywhere. */
  lemma {:induction false} VectorsNeverOutlive(policies: seq<Policy>, source: string, kind: string)
    requires forall p :: p in policies ==> EntryOk(p) && BothAgesOrNeither(p)
    ensures !VectorsOutlive(Resolve(policies, source, kind))
    ensures Resolve(policies, source, kind).vectorMaxAgeMs.Some? <==> Resolve(policies, source, kind).maxAgeMs.Some?
  {
    var eff := Resolve(policies, source, kind);
    ResolutionPicksWinner(policies, source, kind, Age);
    ResolutionPicksWinner(policies, source, kind, VectorAge);
    forall j | 0 <= j < |policies|
      ensures Governs(policies[j], source, kind, Age) <==> Governs(policies[j], source, kind, VectorAge)
    {
      assert BothAgesOrNeither(policies[j]);
    }
    if eff.vectorMaxAgeMs.Some? && eff.maxAgeMs.Some? {
      var i :| Winner(policies, source, kind, VectorAge, i) && Setting(policies[i], VectorAge) == eff.vectorMaxAgeMs;
      var j :| Winner(policies, source, kind, Age, j) && Setting(policies[j], Age) == eff.maxAgeMs;
      assert i == j;
      assert policies[i] in policies;
      DurationMonotone(policies[i].vectorMaxAge.value, policies[i].maxAge.value);
    }
  }

  lemma {:induction false} OneWinner(policies: seq<Policy>, source: string, kind: string, dim: Dimension, i: int,
                                     j: int)
    requires Winner(policies, source, kind, dim, i) && Winner(policies, source, kind, dim, j)
    ensures i == j
  {
  }

  /** Entry j decides the vector age, entry i the age, and j's is the longer. */
  ghost predicate Outvoted(policies: seq<Policy>, source: string, kind: string, i: int, j: int) {
    Winner(policies, source, kind, Age, i) && Winner(policies, source, kind, VectorAge, j) &&
    Setting(policies[j], VectorAge).value > Setting(policies[i], Age).value
  }

  /** Entry i decides the age of events, and nothing stops vectors from outliving them. */
  ghost predicate Unprotected(policies: seq<Policy>, source: string, kind: string, i: int) {
    Winner(policies, source, kind, Age, i) &&
    ((forall j :: 0 <= j < |policies| ==> !Governs(policies[j], source, kind, VectorAge)) ||
     exists j :: j != i && Outvoted(policies, source, kind, i, j))
  }

  /** A checked list lets vectors outlive the events of a pair if and only if some entry wins the age
      there and either none sets a vector age or a different entry wins that with a longer one. */
  lemma {:induction false} OutliveExactlyWhen(policies: seq<Policy>, source: string, kind: string)
    requires forall p :: p in policies ==> EntryOk(p)
    ensures VectorsOutlive(Resolve(policies, source, kind)) <==> exists i :: Unprotected(policies, source, kind, i)
  {
    if VectorsOutlive(Resolve(policies, source, kind)) {
      OutlivesUnprotected(policies, source, kind);
    }
    if i :| Unprotected(policies, source, kind, i) {
      UnprotectedOutlives(policies, source, kind, i);
    }
  }

  lemma {:induction false} OutlivesUnprotected(policies: seq<Policy>, source: string, kind: string)
    requires forall p :: p in policies ==> EntryOk(p)
    requires VectorsOutlive(Resolve(policies, source, kind))
    ensures exists i :: Unprotected(policies, source, kind, i)
  {
    var eff := Resolve(policies, source, kind);
    ResolutionPicksWinner(policies, source, kind, Age);
    ResolutionPicksWinner(policies, source, kind, VectorAge);
    var i :| Winner(policies, source, kind, Age, i) && Setting(policies[i], Age) == eff.maxAgeMs;
    if eff.vectorMaxAgeMs.Some? {
      var j :| Winner(policies, source, kind, VectorAge, j) && Setting(policies[j], VectorAge) == eff.vectorMaxAgeMs;
      assert Outvoted(policies, source, kind, i, j);
      if i == j {
        assert policies[i] in policies;
        DurationMonotone(policies[i].vectorMaxAge.value, policies[i].maxAge.value);
      }
    }
    assert Unprotected(policies, source, kind, i);
  }

  lemma {:induction false} UnprotectedOutlives(policies: seq<Policy>, source: string, kind: string, i: int)
    requires Unprotected(policies, source, kind, i)
    ensures VectorsOutlive(Resolve(policies, source, kind))
  {
    var eff := Resolve(policies, source, kind);
    ResolutionPicksWinner(policies, source, kind, Age);
    ResolutionPicksWinner(policies, source, kind, VectorAge);
    var a :| Winner(policies, source, kind, Age, a) && Setting(policies[a], Age) == eff.maxAgeMs;
    OneWinner(policies, source, kind, Age, a, i);
    if eff.vectorMaxAgeMs.Some? {
      var v :| Winner(policies, source, kind, VectorAge, v) && Setting(policies[v], VectorAge) == eff.vectorMaxAgeMs;
      var j :| j != i && Outvoted(policies, source, kind, i, j);
      OneWinner(policies, source, kind, VectorAge, v, j);
    }
  }

  // Whether a list is safe for all pairs can be decided on finitely many.

  function NamedSources(policies: seq<Policy>): set<string> {
    set p | p in policies && p.matchSource.Some? :: p.matchSource.value
  }

  function NamedKinds(policies: seq<Policy>): set<string> {
    set p | p in policies && p.matchKind.Some? :: p.matchKind.value
  }

  function NameLengths(policies: seq<Policy>): nat {
    if policies == [] then 0
    else |UnwrapOr(policies[0].matchSource, "")| + |UnwrapOr(policies[0].matchKind, "")| + NameLengths(policies[1..])
  }

  function Letters(n: nat): (s: string)
    ensures |s| == n && '@' !in s
  {
    if n == 0 then "" else "x" + Letters(n - 1)
  }

  /** A name longer than any in the list. */
  function FreshName(policies: seq<Policy>): string {
    Letters(NameLengths(policies) + 1)
  }

  lemma {:induction false} NamesAreShort(policies: seq<Policy>, p: Policy)
    requires p in policies
    ensures p.matchSource.Some? ==> |p.matchSource.value| <= NameLengths(policies)
    ensures p.matchKind.Some? ==> |p.matchKind.value| <= NameLengths(policies)
  {
    if policies[0] != p {
      assert policies == [policies[0]] + policies[1..];
      NamesAreShort(policies[1..], p);
    }
  }

  lemma {:induction false} BareHasNoAt(kind: string)
    ensures '@' !in BareKind(kind) && |BareKind(kind)| <= |kind|
    ensures '@' !in kind ==> BareKind(kind) == kind
  {
    if kind != [] && kind[0] != '@' {
      assert kind == [kind[0]] + kind[1..];
      BareHasNoAt(kind[1..]);
    }
  }

  function TestSources(policies: seq<Policy>): set<string> {
    NamedSources(policies) + {FreshName(policies)}
  }

  function TestKinds(policies: seq<Policy>): set<string> {
    NamedKinds(policies) + {FreshName(policies)}
  }

  /** A named source or kind stands for itself, a version of a named kind for that kind, and the
      fresh name for all others. */
  function SourceLike(policies: seq<Policy>, source: string): string {
    if source in NamedSources(policies) then source else FreshName(policies)
  }

  function KindLike(policies: seq<Policy>, kind: string): string {
    if kind in NamedKinds(policies) then kind
    else if BareKind(kind) in NamedKinds(policies) then BareKind(kind)
    else FreshName(policies)
  }

  lemma {:induction false} SourceLikeMatches(policies: seq<Policy>, p: Policy, source: string)
    requires p in policies && p.matchSource.Some?
    ensures p.matchSource.value == SourceLike(policies, source) <==> p.matchSource.value == source
  {
    NamesAreShort(policies, p);
  }

  lemma {:induction false} KindLikeMatches(policies: seq<Policy>, p: Policy, kind: string)
    requires p in policies && p.matchKind.Some?
    ensures var like := KindLike(policies, kind);
            p.matchKind.value == BareKind(like) || p.matchKind.value == like
            <==> p.matchKind.value == BareKind(kind) || p.matchKind.value == kind
  {
    NamesAreShort(policies, p);
    BareHasNoAt(kind);
    BareHasNoAt(BareKind(kind));
    BareHasNoAt(FreshName(policies));
  }

  lemma {:induction false} SameMatching(policies: seq<Policy>, s: string, k: string, s': string, k': string)
    requires forall p :: p in policies ==> (Matches(p, s, k) <==> Matches(p, s', k'))
    ensures Matching(policies, s, k) == Matching(policies, s', k')
  {
    if policies == [] {
    } else {
      assert policies[0] in policies;
      SameMatching(policies[1..], s, k, s', k');
    }
  }

  lemma {:induction false} ResolvesLike(policies: seq<Policy>, source: string, kind: string)
    ensures Resolve(policies, source, kind)
            == Resolve(policies, SourceLike(policies, source), KindLike(policies, kind))
  {
    var s, k := SourceLike(policies, source), KindLike(policies, kind);
    forall p | p in policies ensures Matches(p, source, kind) <==> Matches(p, s, k) {
      if p.matchSource.Some? { SourceLikeMatches(policies, p, source); }
      if p.matchKind.Some? { KindLikeMatches(policies, p, kind); }
    }
    SameMatching(policies, source, kind, s, k);
  }

  /** A list keeps vectors from outliving events by age for every pair if and only if it does so for
      the named sources and kinds and one fresh name of each. */
  lemma {:induction false} SafeEverywhereExactlyWhen(policies: seq<Policy>)
    ensures (forall s, k :: !VectorsOutlive(Resolve(policies, s, k))) <==>
            (forall s, k :: s in TestSources(policies) && k in TestKinds(policies) ==>
              !VectorsOutlive(Resolve(policies, s, k)))
  {
    if forall s, k :: s in TestSources(policies) && k in TestKinds(policies) ==>
         !VectorsOutlive(Resolve(policies, s, k))
    {
      forall s, k ensures !VectorsOutlive(Resolve(policies, s, k)) {
        ResolvesLike(policies, s, k);
        assert SourceLike(policies, s) in TestSources(policies) && KindLike(policies, k) in TestKinds(policies);
      }
    }
  }

  /** A partner that makes a one-sided entry resolve unsafely. */
  function Partner(p: Policy): Policy {
    if p.maxAge.None?
    then p.(maxAge := Some(0), vectorMaxAge := None)
    else p.(maxAge := None, vectorMaxAge := Some(p.maxAge.value + NANOS_PER_MS))
  }

  /** The shape condition cannot be weakened entry by entry: any entry that sets just one of
      the ages (and is not already at the end of the scale) passes the check together with a
      partner, and the two resolve to a vector age longer than the age of events. */
  lemma {:induction false} OneSidedEntryCanOutlive(p: Policy)
    requires EntryOk(p) && !BothAgesOrNeither(p)
    requires p.vectorMaxAge.Some? ==> DurationToMs(p.vectorMaxAge.value) > 0
    requires p.maxAge.Some? ==> DurationToMs(p.maxAge.value) < I64_MAX
    ensures EntryOk(Partner(p))
    ensures VectorAgeExceeds(Resolve([p, Partner(p)], UnwrapOr(p.matchSource, ""), UnwrapOr(p.matchKind, "")))
  {
    var q := Partner(p);
    var s, k := UnwrapOr(p.matchSource, ""), UnwrapOr(p.matchKind, "");
    ResolutionPicksWinner([p, q], s, k, Age);
    ResolutionPicksWinner([p, q], s, k, VectorAge);
    assert Governs(p, s, k, Age) || Governs(q, s, k, Age);
    assert [p, q][0] == p && [p, q][1] == q;
    var eff := Resolve([p, q], s, k);
    assert eff.maxAgeMs.Some? && eff.vectorMaxAgeMs.Some?;
    var a :| Winner([p, q], s, k, Age, a) && Setting([p, q][a], Age) == eff.maxAgeMs;
    var v :| Winner([p, q], s, k, VectorAge, v) && Setting([p, q][v], VectorAge) == eff.vectorMaxAgeMs;
  }

  /** Together these two resolve unsafely for a pair the first one matches. */
  ghost predicate UnsafeWith(p: Policy, q: Policy, source: string, kind: string) {
    EntryOk(q) && Applies(p, source, kind) && VectorsOutlive(Resolve([p, q], source, kind))
  }

  lemma {:induction false} UnsafeNeedsRoom(p: Policy, q: Policy, source: string, kind: string)
    requires EntryOk(p) && p.maxAge.None? && p.vectorMaxAge.Some? && UnsafeWith(p, q, source, kind)
    ensures DurationToMs(p.vectorMaxAge.value) > 0
  {
    OutlivesUnprotected([p, q], source, kind);
    var i :| Unprotected([p, q], source, kind, i);
    assert [p, q][0] == p && [p, q][1] == q && Governs(p, source, kind, VectorAge);
    var j :| j != i && Outvoted([p, q], source, kind, i, j);
  }

  lemma {:induction false} AgeAloneOutlives(p: Policy)
    requires p.maxAge.Some? && p.vectorMaxAge.None?
    ensures var s, k := UnwrapOr(p.matchSource, ""), UnwrapOr(p.matchKind, "");
            Applies(p, s, k) && VectorsOutlive(Resolve([p, p], s, k))
  {
    var s, k := UnwrapOr(p.matchSource, ""), UnwrapOr(p.matchKind, "");
    var ps := [p, p];
    assert Winner(ps, s, k, Age, 0);
    assert Unprotected(ps, s, k, 0);
    UnprotectedOutlives(ps, s, k, 0);
  }

  /** A checked entry that sets one age only takes part in an unsafe resolution of a pair it matches
      if and only if it is not a vector age below one millisecond. */
  lemma {:induction false} OneSidedUnsafeExactlyWhen(p: Policy)
    requires EntryOk(p) && !BothAgesOrNeither(p)
    ensures (exists q, s, k :: UnsafeWith(p, q, s, k)) <==>
              (p.vectorMaxAge.Some? ==> DurationToMs(p.vectorMaxAge.value) > 0)
  {
    if q, s, k :| UnsafeWith(p, q, s, k) {
      if p.vectorMaxAge.Some? {
        UnsafeNeedsRoom(p, q, s, k);
      }
    }
    if p.vectorMaxAge.None? {
      AgeAloneOutlives(p);
      assert UnsafeWith(p, p, UnwrapOr(p.matchSource, ""), UnwrapOr(p.matchKind, ""));
    } else if DurationToMs(p.vectorMaxAge.value) > 0 {
      OneSidedEntryCanOutlive(p);
      assert UnsafeWith(p, Partner(p), UnwrapOr(p.matchSource, ""), UnwrapOr(p.matchKind, ""));
    }
  }
}
