/** The plan the policies call for, and why it does not matter when a line of it is drawn up. */
module SweepPass {
  import opened Prelude
  import opened Events
  import opened ColdTable
  import opened Retention
  import opened SweepLaws
  import opened SweepPlan
  import V = VectorIndex

  function PairsIn(t: Table): set<Pair> {
    set id | id in t :: PairOf(t[id])
  }

  /** The vectors of one pair that are past their age. */
  function Doomed(v: V.VectorTable, p: Pair, eff: Effective, now: int): set<EventId> {
    if eff.vectorMaxAgeMs.None? then {}
    else set id | id in v && V.Expires(p, ClampI64(now - eff.vectorMaxAgeMs.value), V.ToRow(v[id]))
  }

  lemma {:induction false} DeleteOlderIsDoomed(v: V.VectorTable, p: Pair, eff: Effective, now: int)
    requires eff.vectorMaxAgeMs.Some?
    ensures var v' := V.DeleteOlder(v, p, ClampI64(now - eff.vectorMaxAgeMs.value));
            v' == v - Doomed(v, p, eff, now) && |v| - |v'| == |Doomed(v, p, eff, now)|
  {
    var v' := V.DeleteOlder(v, p, ClampI64(now - eff.vectorMaxAgeMs.value));
    assert v'.Keys == v.Keys - Doomed(v, p, eff, now);
  }

  function Oldest(t: Table, p: Pair, eff: Effective, now: int): set<EventId>
    requires WellKeyed(t)
  {
    Ids(Rows(t, p)[..Removed(t, p, eff, now)])
  }

  function LineFor(s: Stores, policies: seq<Policy>, now: int, dryRun: bool, p: Pair): Line
    requires WellKeyed(s.cold)
  {
    var eff := Resolve(policies, p.source, p.kind);
    var doomed := Doomed(s.vectors, p, eff, now);
    Line(PerPair(p, eff, Tally(s.cold, p, eff, now, dryRun), |doomed|),
         Warnings(s.cold, p, eff, now, dryRun), Oldest(s.cold, p, eff, now), doomed)
  }

  /** Only pairs with rows in the cold store get a line. */
  function PlanFor(s: Stores, policies: seq<Policy>, now: int, dryRun: bool): Plan
    requires WellKeyed(s.cold)
  {
    map p | p in PairsIn(s.cold) :: LineFor(s, policies, now, dryRun, p)
  }

  lemma {:induction false} OldestSize(t: Table, p: Pair, eff: Effective, now: int)
    requires WellKeyed(t)
    ensures |Oldest(t, p, eff, now)| == Removed(t, p, eff, now)
    ensures forall id :: id in Oldest(t, p, eff, now) ==> id in t && PairOf(t[id]) == p
  {
    var n := Removed(t, p, eff, now);
    DropSeparates(t, p, n);
    DropOldestSize(t, p, n);
    MinusSize(t, Oldest(t, p, eff, now));
  }

  lemma {:induction false} LineForFits(s: Stores, policies: seq<Policy>, now: int, dryRun: bool, p: Pair)
    requires WellKeyed(s.cold)
    ensures LineFits(s, p, LineFor(s, policies, now, dryRun, p), dryRun)
  {
    var eff := Resolve(policies, p.source, p.kind);
    OldestSize(s.cold, p, eff, now);
    WarningsFit(p, eff, |Rows(s.cold, p)|, ByAge(s.cold, p, eff, now), ByCount(s.cold, p, eff), dryRun);
  }

  lemma {:induction false} PlanFits(s: Stores, policies: seq<Policy>, now: int, dryRun: bool)
    requires WellKeyed(s.cold)
    ensures Fits(s, PlanFor(s, policies, now, dryRun), dryRun)
  {
    forall p | p in PairsIn(s.cold) ensures LineFits(s, p, LineFor(s, policies, now, dryRun, p), dryRun) {
      LineForFits(s, policies, now, dryRun, p);
    }
  }

  // ----- a line drawn up in mid-pass is the line drawn up at the start -----

  lemma {:induction false} BytesDemandDepends(t0: Table, t: Table, p: Pair, eff: Effective)
    requires WellKeyed(t0) && WellKeyed(t) && Rows(t, p) == Rows(t0, p)
    requires forall id :: id in t ==> id in t0 && t[id] == t0[id]
    ensures ByBytes(t, p, eff) == ByBytes(t0, p, eff)
  {
    RowsAreRows(t, p);
    if eff.maxBytes.Some? {
      OversizeDepends(t0, t, Rows(t0, p), eff.maxBytes.value);
    }
  }

  lemma {:induction false} DemandDepends(t0: Table, t: Table, p: Pair, eff: Effective, now: int)
    requires WellKeyed(t0) && WellKeyed(t) && Rows(t, p) == Rows(t0, p)
    requires forall id :: id in t ==> id in t0 && t[id] == t0[id]
    ensures ByAge(t, p, eff, now) == ByAge(t0, p, eff, now)
    ensures ByCount(t, p, eff) == ByCount(t0, p, eff)
    ensures ByBytes(t, p, eff) == ByBytes(t0, p, eff)
  {
    BytesDemandDepends(t0, t, p, eff);
  }

  lemma {:induction false} SamePairRows(t0: Table, t: Table, p: Pair)
    requires forall id :: id in t && PairOf(t[id]) == p ==> id in t0 && t0[id] == t[id]
    requires forall id :: id in t0 && PairOf(t0[id]) == p ==> id in t && t[id] == t0[id]
    ensures Rows(t, p) == Rows(t0, p)
  {
    assert PairKeys(t, p) == PairKeys(t0, p);
  }

  lemma {:induction false} ColdLineDepends(t0: Table, t: Table, p: Pair, eff: Effective, now: int, dryRun: bool)
    requires WellKeyed(t0) && WellKeyed(t) && Rows(t, p) == Rows(t0, p)
    requires forall id :: id in t ==> id in t0 && t[id] == t0[id]
    ensures Tally(t, p, eff, now, dryRun) == Tally(t0, p, eff, now, dryRun)
    ensures Warnings(t, p, eff, now, dryRun) == Warnings(t0, p, eff, now, dryRun)
    ensures Oldest(t, p, eff, now) == Oldest(t0, p, eff, now)
  {
    DemandDepends(t0, t, p, eff, now);
  }

  lemma {:induction false} LineUnchanged(s: Stores, plan: Plan, done: set<Pair>, policies: seq<Policy>, now: int,
                                         dryRun: bool, p: Pair)
    requires WellKeyed(s.cold) && done <= plan.Keys && p !in done
    ensures WellKeyed(Kept(s, plan, done).cold)
    ensures LineFor(Kept(s, plan, done), policies, now, dryRun, p) == LineFor(s, policies, now, dryRun, p)
  {
    var eff := Resolve(policies, p.source, p.kind);
    UnvisitedRows(s.cold, plan, done, p);
    ColdLineDepends(s.cold, KeptRows(s.cold, plan, done), p, eff, now, dryRun);
    UnvisitedDoomed(s.vectors, plan, done, p, eff, now);
  }

  lemma {:induction false} UnvisitedRows(t: Table, plan: Plan, done: set<Pair>, p: Pair)
    requires WellKeyed(t) && done <= plan.Keys && p !in done
    ensures WellKeyed(KeptRows(t, plan, done)) && Rows(KeptRows(t, plan, done), p) == Rows(t, p)
  {
    SamePairRows(t, KeptRows(t, plan, done), p);
  }

  lemma {:induction false} UnvisitedDoomed(v: V.VectorTable, plan: Plan, done: set<Pair>, p: Pair, eff: Effective,
                                           now: int)
    requires done <= plan.Keys && p !in done
    ensures Doomed(KeptVectors(v, plan, done), p, eff, now) == Doomed(v, p, eff, now)
  {
  }

  /** A pair without a policy has an empty line: executing it changes nothing. */
  lemma {:induction false} EmptyLine(s: Stores, policies: seq<Policy>, now: int, r: Report, p: Pair)
    requires WellKeyed(s.cold) && IsEmpty(Resolve(policies, p.source, p.kind))
    ensures var line := LineFor(s, policies, now, r.dryRun, p);
            Execute(s, line, r.dryRun) == s && Record(r, line.entry, line.warnings) == r
  {
    var line := LineFor(s, policies, now, r.dryRun, p);
    SkippedRound(s.cold, p, Resolve(policies, p.source, p.kind), now);
    assert line.warnings == [] && line.rows == {} && line.vectors == {};
    assert s.cold - {} == s.cold && s.vectors - {} == s.vectors && r.warnings + [] == r.warnings;
  }

  /** A pass from s0 with these pairs still to visit. */
  ghost predicate Underway(s0: Stores, policies: seq<Policy>, now: int, todo: set<Pair>, s: Stores, r: Report) {
    WellKeyed(s0.cold) && todo <= PairsIn(s0.cold) &&
    PassInv(s0, PlanFor(s0, policies, now, r.dryRun), PairsIn(s0.cold) - todo, s, r)
  }

  lemma {:induction false} PassBegins(s0: Stores, policies: seq<Policy>, now: int, dryRun: bool)
    requires WellKeyed(s0.cold)
    ensures Underway(s0, policies, now, PairsIn(s0.cold), s0, Report([], 0, 0, [], dryRun))
  {
    PassStarts(s0, PlanFor(s0, policies, now, dryRun), dryRun);
    assert PairsIn(s0.cold) - PairsIn(s0.cold) == {};
  }

  /** One round, whatever was visited before it. */
  lemma {:induction false} RoundKeepsPass(s0: Stores, policies: seq<Policy>, now: int, todo: set<Pair>, s: Stores,
                                          r: Report, p: Pair)
    requires Underway(s0, policies, now, todo, s, r) && WellKeyed(s.cold) && p in todo
    ensures var line := LineFor(s, policies, now, r.dryRun, p);
            Underway(s0, policies, now, todo - {p}, Execute(s, line, r.dryRun), Record(r, line.entry, line.warnings))
  {
    VisitOne(PairsIn(s0.cold), todo, p);
    RoundGoesOn(s0, PairsIn(s0.cold) - todo, policies, now, s, r, p);
  }

  lemma {:induction false} VisitOne(all: set<Pair>, todo: set<Pair>, p: Pair)
    requires todo <= all && p in todo
    ensures all - (todo - {p}) == all - todo + {p}
  {
  }

  lemma {:induction false} RoundGoesOn(s0: Stores, done: set<Pair>, policies: seq<Policy>, now: int, s: Stores,
                                       r: Report, p: Pair)
    requires WellKeyed(s0.cold) && WellKeyed(s.cold) && p in PairsIn(s0.cold) && p !in done
    requires PassInv(s0, PlanFor(s0, policies, now, r.dryRun), done, s, r)
    ensures var line := LineFor(s, policies, now, r.dryRun, p);
            PassInv(s0, PlanFor(s0, policies, now, r.dryRun), done + {p},
                    Execute(s, line, r.dryRun), Record(r, line.entry, line.warnings))
  {
    PlanFits(s0, policies, now, r.dryRun);
    LineStands(s0, done, policies, now, s, r, p);
    PassGoesOn(s0, PlanFor(s0, policies, now, r.dryRun), done, s, r, p);
  }

  lemma {:induction false} LineStands(s0: Stores, done: set<Pair>, policies: seq<Policy>, now: int, s: Stores,
                                      r: Report, p: Pair)
    requires WellKeyed(s0.cold) && WellKeyed(s.cold) && p in PairsIn(s0.cold) && p !in done
    requires PassInv(s0, PlanFor(s0, policies, now, r.dryRun), done, s, r)
    ensures LineFor(s, policies, now, r.dryRun, p) == PlanFor(s0, policies, now, r.dryRun)[p]
  {
    if !r.dryRun {
      LineUnchanged(s0, PlanFor(s0, policies, now, r.dryRun), done, policies, now, r.dryRun, p);
    }
  }

  ghost predicate Finished(s0: Stores, policies: seq<Policy>, now: int, s: Stores, r: Report) {
    Underway(s0, policies, now, {}, s, r)
  }

  // ----- what a finished pass has done -----

  /** Every pair has lost exactly its oldest max(a, c, b) rows. */
  lemma {:induction false} FinishedRows(s0: Stores, s: Stores, r: Report, policies: seq<Policy>, now: int, p: Pair)
    requires Finished(s0, policies, now, s, r) && !r.dryRun
    ensures Rows(s.cold, p) == Rows(s0.cold, p)[Removed(s0.cold, p, Resolve(policies, p.source, p.kind), now)..]
  {
    var plan := PlanFor(s0, policies, now, r.dryRun);
    var done := PairsIn(s0.cold) - {};
    assert done == PairsIn(s0.cold);
    NoRowsNoPair(s0.cold, p);
    if p in done {
      VisitedRows(s0.cold, plan, done, p, Removed(s0.cold, p, Resolve(policies, p.source, p.kind), now));
    } else {
      SamePairRows(s0.cold, s.cold, p);
    }
  }

  lemma {:induction false} VisitedRows(t: Table, plan: Plan, done: set<Pair>, p: Pair, n: nat)
    requires WellKeyed(t) && done <= plan.Keys && p in done
    requires n <= |Rows(t, p)| && plan[p].rows == Ids(Rows(t, p)[..n])
    ensures Rows(KeptRows(t, plan, done), p) == Rows(t, p)[n..]
  {
    SamePairRows(DropOldest(t, p, n), KeptRows(t, plan, done), p);
    DropOldestRows(t, p, n);
  }

  /** Which vectors are left: those young enough, those of pairs without a vector age, and,
      because pairs are listed from the cold store alone, every vector of a pair that has no
      row there, however old. */
  lemma {:induction false} FinishedVectors(s0: Stores, s: Stores, r: Report, policies: seq<Policy>, now: int,
                                           id: EventId)
    requires Finished(s0, policies, now, s, r) && !r.dryRun && id in s0.vectors
    ensures var v := s0.vectors[id];
            var age := Resolve(policies, v.source, v.kind).vectorMaxAgeMs;
            id !in s.vectors <==>
              Rows(s0.cold, VectorPair(v)) != [] && age.Some? && v.ts < ClampI64(now - age.value)
  {
    var v := s0.vectors[id];
    NoRowsNoPair(s0.cold, VectorPair(v));
    DroppedVector(s0, s, r, policies, now, id);
    DoomedMember(s0.vectors, id, Resolve(policies, v.source, v.kind), now);
  }

  /** That case is real: in a store whose cold events are gone a pass leaves any vector, of any
      age and under any policies. */
  lemma {:induction false} OrphanOutlivesEveryPass(v: V.VectorRecord, policies: seq<Policy>, now: int)
    ensures var s := Stores(map[], map[v.id := v]);
            Finished(s, policies, now, s, Report([], 0, 0, [], false))
  {
    var s := Stores(map[], map[v.id := v]);
    PassBegins(s, policies, now, false);
    assert PairsIn(s.cold) == {};
  }

  lemma {:induction false} DoomedMember(v: V.VectorTable, id: EventId, eff: Effective, now: int)
    requires id in v
    ensures id in Doomed(v, VectorPair(v[id]), eff, now) <==>
              eff.vectorMaxAgeMs.Some? && v[id].ts < ClampI64(now - eff.vectorMaxAgeMs.value)
  {
  }

  lemma {:induction false} DroppedVector(s0: Stores, s: Stores, r: Report, policies: seq<Policy>, now: int, id: EventId)
    requires Finished(s0, policies, now, s, r) && !r.dryRun && id in s0.vectors
    ensures var p := VectorPair(s0.vectors[id]);
            id !in s.vectors <==>
              p in PairsIn(s0.cold) && id in Doomed(s0.vectors, p, Resolve(policies, p.source, p.kind), now)
  {
    var plan := PlanFor(s0, policies, now, r.dryRun);
    assert PairsIn(s0.cold) - {} == PairsIn(s0.cold);
    assert s.vectors == KeptVectors(s0.vectors, plan, PairsIn(s0.cold));
  }

  lemma {:induction false} NoRowsNoPair(t: Table, p: Pair)
    requires WellKeyed(t)
    ensures p in PairsIn(t) <==> Rows(t, p) != []
  {
    RowsAreRows(t, p);
    if p in PairsIn(t) {
      var e :| e in t && PairOf(t[e]) == p;
      assert KeyOf(t[e]) in Rows(t, p);
    }
    if Rows(t, p) != [] {
      assert Rows(t, p)[0] in Rows(t, p);
    }
  }
}
