/** Vectors a pass leaves behind without the events they were made from. */
module Dangling {
  import opened Prelude
  import opened Events
  import opened ColdTable
  import opened Retention
  import opened SweepLaws
  import opened SweepPlan
  import opened SweepPass
  import V = VectorIndex

  function EffectiveFor(policies: seq<Policy>, p: Pair): Effective {
    Resolve(policies, p.source, p.kind)
  }

  /** The vector and its event are both stored, under the same pair. */
  predicate Together(s: Stores, p: Pair, id: EventId) {
    id in s.cold && id in s.vectors && PairOf(s.cold[id]) == p && VectorPair(s.vectors[id]) == p
  }

  predicate Dangles(s: Stores, id: EventId) {
    id in s.vectors && id !in s.cold
  }

  // ----- one vector -----

  lemma {:induction false} DroppedRow(s0: Stores, s: Stores, r: Report, policies: seq<Policy>, now: int, id: EventId)
    requires Finished(s0, policies, now, s, r) && !r.dryRun && id in s0.cold
    ensures var p := PairOf(s0.cold[id]);
            id !in s.cold <==> id in Oldest(s0.cold, p, EffectiveFor(policies, p), now)
  {
    var plan := PlanFor(s0, policies, now, r.dryRun);
    assert PairsIn(s0.cold) - {} == PairsIn(s0.cold);
    assert s.cold == KeptRows(s0.cold, plan, PairsIn(s0.cold));
    assert PairOf(s0.cold[id]) in PairsIn(s0.cold);
  }

  /** A pass parts a vector from its event if and only if the event is among its pair's rows to go
      and the vector has no age to go by, or has not reached it. */
  lemma {:induction false} DanglesExactlyWhen(s0: Stores, s: Stores, r: Report, policies: seq<Policy>, now: int,
                                              p: Pair, id: EventId)
    requires Finished(s0, policies, now, s, r) && !r.dryRun && Together(s0, p, id)
    ensures var eff := EffectiveFor(policies, p);
            Dangles(s, id) <==>
              id in Oldest(s0.cold, p, eff, now) &&
              (eff.vectorMaxAgeMs.None? || s0.vectors[id].ts >= ClampI64(now - eff.vectorMaxAgeMs.value))
  {
    DroppedRow(s0, s, r, policies, now, id);
    DroppedVector(s0, s, r, policies, now, id);
    DoomedMember(s0.vectors, id, EffectiveFor(policies, p), now);
    assert p in PairsIn(s0.cold);
  }

  // ----- which settings can part them -----

  /** Only age removes events, and vectors go no later. A byte limit at the top of the scale never
      removes anything, because the running sum saturates there. */
  predicate KeepsTogether(eff: Effective) {
    eff.maxCount.None? && (eff.maxBytes.Some? ==> eff.maxBytes.value >= I64_MAX) && !VectorsOutlive(eff)
  }

  /** An event and its vector carry the same time. */
  predicate Paired(s: Stores, p: Pair, id: EventId) {
    Together(s, p, id) && s.vectors[id].ts == s.cold[id].ts
  }

  lemma {:induction false} NoByteDemand(t: Table, p: Pair, eff: Effective)
    requires WellKeyed(t) && (eff.maxBytes.Some? ==> eff.maxBytes.value >= I64_MAX)
    ensures ByBytes(t, p, eff) == 0
  {
    RowsAreRows(t, p);
  }

  lemma {:induction false} OnlyExpiredGo(t: Table, p: Pair, eff: Effective, now: int, id: EventId)
    requires WellKeyed(t) && eff.maxCount.None? && (eff.maxBytes.Some? ==> eff.maxBytes.value >= I64_MAX)
    requires id in Oldest(t, p, eff, now)
    ensures id in t && eff.maxAgeMs.Some? && t[id].ts < ClampI64(now - eff.maxAgeMs.value)
  {
    NoByteDemand(t, p, eff);
    var q, n := Rows(t, p), Removed(t, p, eff, now);
    var k :| k in q[..n] && k.id == id;
    var i :| 0 <= i < n && q[i] == k;
    LeadingRowIsOlder(t, p, ClampI64(now - eff.maxAgeMs.value), i);
  }

  /** Under such settings no pass ever parts them. */
  lemma {:induction false} SafeSettingsKeepTogether(s0: Stores, s: Stores, r: Report, policies: seq<Policy>, now: int,
                                                    p: Pair, id: EventId)
    requires Finished(s0, policies, now, s, r) && !r.dryRun && Paired(s0, p, id)
    requires KeepsTogether(EffectiveFor(policies, p))
    ensures !Dangles(s, id)
  {
    var eff := EffectiveFor(policies, p);
    DanglesExactlyWhen(s0, s, r, policies, now, p, id);
    if id in Oldest(s0.cold, p, eff, now) {
      OnlyExpiredGo(s0.cold, p, eff, now, id);
    }
  }

  // ----- and under all others some pass does -----

  /** A pass so far, its table well keyed. */
  ghost predicate GoingOn(s0: Stores, policies: seq<Policy>, now: int, todo: set<Pair>, s: Stores, r: Report) {
    Underway(s0, policies, now, todo, s, r) && WellKeyed(s.cold) && !r.dryRun
  }

  lemma {:induction false} OneMoreRound(s0: Stores, policies: seq<Policy>, now: int, todo: set<Pair>, s: Stores,
                                        r: Report, p: Pair)
      returns (s': Stores, r': Report)
    requires GoingOn(s0, policies, now, todo, s, r) && p in todo
    ensures GoingOn(s0, policies, now, todo - {p}, s', r')
  {
    var line := LineFor(s, policies, now, r.dryRun, p);
    RoundKeepsPass(s0, policies, now, todo, s, r, p);
    s', r' := Execute(s, line, r.dryRun), Record(r, line.entry, line.warnings);
  }

  lemma {:induction false} PassGoesThrough(s0: Stores, policies: seq<Policy>, now: int, todo: set<Pair>, s: Stores,
                                           r: Report)
      returns (end: Stores, report: Report)
    requires GoingOn(s0, policies, now, todo, s, r)
    ensures Finished(s0, policies, now, end, report) && !report.dryRun
    decreases |todo|
  {
    if todo == {} {
      end, report := s, r;
    } else {
      var p :| p in todo;
      var s', r' := OneMoreRound(s0, policies, now, todo, s, r, p);
      end, report := PassGoesThrough(s0, policies, now, todo - {p}, s', r');
    }
  }

  /** Some pass over some stores parts a vector of this pair from its event. */
  ghost predicate CanDangle(policies: seq<Policy>, p: Pair) {
    exists s0, now, s, r, id ::
      Finished(s0, policies, now, s, r) && !r.dryRun && Paired(s0, p, id) && Dangles(s, id)
  }

  /** Stores in which every event has its vector. */
  function WithVectors(t: Table): Stores {
    Stores(t, map id | id in t :: V.VectorRecord(id, t[id].source, t[id].kind, t[id].ts, false, "", []))
  }

  lemma {:induction false} RemovalParts(policies: seq<Policy>, p: Pair, t: Table, now: int)
    requires WellKeyed(t) && forall id :: id in t ==> PairOf(t[id]) == p
    requires Removed(t, p, EffectiveFor(policies, p), now) > 0
    requires var age := EffectiveFor(policies, p).vectorMaxAgeMs;
             age.Some? ==> forall id :: id in t ==> t[id].ts >= ClampI64(now - age.value)
    ensures CanDangle(policies, p)
  {
    var s0, eff := WithVectors(t), EffectiveFor(policies, p);
    OldestSize(t, p, eff, now);
    var id :| id in Oldest(t, p, eff, now);
    PassBegins(s0, policies, now, false);
    var s, r := PassGoesThrough(s0, policies, now, PairsIn(t), s0, Report([], 0, 0, [], false));
    DanglesExactlyWhen(s0, s, r, policies, now, p, id);
    assert Paired(s0, p, id);
  }

  function Plain(p: Pair, id: EventId, ts: int, semantic: Json): Event {
    Event(id, p.source, p.kind, ts, semantic, None, None, None, None, None, None)
  }

  function Ones(n: nat): (s: string)
    ensures |s| == n
  {
    if n == 0 then "" else "1" + Ones(n - 1)
  }

  lemma {:induction false} AgesAreMachine(policies: seq<Policy>, p: Pair)
    ensures var eff := EffectiveFor(policies, p);
            (eff.maxAgeMs.Some? ==> 0 <= eff.maxAgeMs.value <= I64_MAX) &&
            (eff.vectorMaxAgeMs.Some? ==> 0 <= eff.vectorMaxAgeMs.value <= I64_MAX)
  {
    ResolutionPicksWinner(policies, p.source, p.kind, Age);
    ResolutionPicksWinner(policies, p.source, p.kind, VectorAge);
  }

  /** An event one millisecond past its age, with a vector that is not. */
  lemma {:induction false} AgeParts(policies: seq<Policy>, p: Pair)
    requires VectorsOutlive(EffectiveFor(policies, p))
    ensures CanDangle(policies, p)
  {
    var eff := EffectiveFor(policies, p);
    AgesAreMachine(policies, p);
    var e := Plain(p, 0, -eff.maxAgeMs.value - 1, "1");
    OneRow(p, e);
    assert Expired([KeyOf(e)], -eff.maxAgeMs.value) == 1;
    RemovalParts(policies, p, map[e.id := e], 0);
  }

  /** One event larger than the byte limit. */
  lemma {:induction false} BytesPart(policies: seq<Policy>, p: Pair)
    requires EffectiveFor(policies, p).maxBytes.Some? && EffectiveFor(policies, p).maxBytes.value < I64_MAX
    ensures CanDangle(policies, p)
  {
    var budget := EffectiveFor(policies, p).maxBytes.value;
    AgesAreMachine(policies, p);
    var e := Plain(p, 0, 0, Ones(Max(budget + 1, 1)));
    var t := map[e.id := e];
    OneRow(p, e);
    assert Weight(t, [KeyOf(e)]) == |e.semantic|;
    assert Oversize(t, [KeyOf(e)], budget) == 1;
    RemovalParts(policies, p, t, 0);
  }

  function Numbers(n: nat): set<EventId> {
    if n == 0 then {} else Numbers(n - 1) + {n - 1}
  }

  lemma {:induction false} NumbersAre(n: nat)
    ensures |Numbers(n)| == n && forall i :: i in Numbers(n) <==> 0 <= i < n
  {
    if n == 0 {
    } else {
      NumbersAre(n - 1);
    }
  }

  lemma {:induction false} AllRows(t: Table, p: Pair)
    requires WellKeyed(t) && forall id :: id in t ==> PairOf(t[id]) == p
    ensures |Rows(t, p)| == |t|
  {
    var q := Rows(t, p);
    RowsAreRows(t, p);
    IdsCardinality(t, q);
    forall id | id in t ensures id in Ids(q) {
      assert KeyOf(t[id]) in q;
    }
    assert Ids(q) == t.Keys;
  }

  function Crowd(p: Pair, n: nat): Table {
    map id | id in Numbers(n) :: Plain(p, id, 0, "1")
  }

  lemma {:induction false} CrowdRows(p: Pair, n: nat)
    ensures WellKeyed(Crowd(p, n)) && (forall id :: id in Crowd(p, n) ==> PairOf(Crowd(p, n)[id]) == p)
    ensures |Rows(Crowd(p, n), p)| == n
  {
    var t := Crowd(p, n);
    NumbersAre(n);
    assert t.Keys == Numbers(n);
    AllRows(t, p);
  }

  /** More events than the count limit allows. */
  lemma {:induction false} CountParts(policies: seq<Policy>, p: Pair)
    requires EffectiveFor(policies, p).maxCount.Some?
    ensures CanDangle(policies, p)
  {
    var n := Max(EffectiveFor(policies, p).maxCount.value, 0) + 1;
    AgesAreMachine(policies, p);
    CrowdRows(p, n);
    RemovalParts(policies, p, Crowd(p, n), 0);
  }

  /** Passes can leave a pair's vectors without their events if and only if the pair has a count
      limit, or a byte limit below the top of the scale, or lets vectors outlive its events. */
  lemma {:induction false} CanDangleExactlyWhen(policies: seq<Policy>, p: Pair)
    ensures CanDangle(policies, p) <==> !KeepsTogether(EffectiveFor(policies, p))
  {
    var eff := EffectiveFor(policies, p);
    if VectorsOutlive(eff) {
      AgeParts(policies, p);
    } else if eff.maxCount.Some? {
      CountParts(policies, p);
    } else if eff.maxBytes.Some? && eff.maxBytes.value < I64_MAX {
      BytesPart(policies, p);
    } else if CanDangle(policies, p) {
      var s0, now, s, r, id :| Finished(s0, policies, now, s, r) && !r.dryRun && Paired(s0, p, id) && Dangles(s, id);
      SafeSettingsKeepTogether(s0, s, r, policies, now, p, id);
      assert false;
    }
  }
}
