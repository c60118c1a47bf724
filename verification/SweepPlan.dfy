/** One pass of the sweeper as a plan: a line per pair, fixed by the state the pass starts from,
    and what executing lines one by one leaves in the stores and the report. */
module SweepPlan {
  import opened Events
  import opened ColdTable
  import opened Retention
  import opened SweepLaws
  import V = VectorIndex

  datatype PerPair = PerPair(pair: Pair, effective: Effective, events: nat, vectors: nat)

  datatype Report = Report(perPair: seq<PerPair>, events: nat, vectors: nat, warnings: seq<Warning>, dryRun: bool)

  datatype Stores = Stores(cold: Table, vectors: V.VectorTable)

  /** What a pass does about one pair: what it says, and which ids go. */
  datatype Line = Line(entry: PerPair, warnings: seq<Warning>, rows: set<EventId>, vectors: set<EventId>)

  type Plan = map<Pair, Line>

  function VectorPair(r: V.VectorRecord): Pair {
    Pair(r.source, r.kind)
  }

  ghost predicate LineFits(s: Stores, p: Pair, line: Line, dryRun: bool) {
    line.entry.pair == p &&
    (forall id :: id in line.rows ==> id in s.cold && PairOf(s.cold[id]) == p) &&
    (forall id :: id in line.vectors ==> id in s.vectors && VectorPair(s.vectors[id]) == p) &&
    (!dryRun ==> line.entry.events == |line.rows|) && line.entry.vectors == |line.vectors| &&
    (forall i :: 0 <= i < |line.warnings| ==> line.warnings[i].pair == p) &&
    |line.warnings| <= 2 && (|line.warnings| == 2 ==> line.warnings[0] != line.warnings[1])
  }

  ghost predicate Fits(s: Stores, plan: Plan, dryRun: bool) {
    forall p :: p in plan ==> LineFits(s, p, plan[p], dryRun)
  }

  // ----- the stores -----

  function Execute(s: Stores, line: Line, dryRun: bool): Stores {
    if dryRun then s else Stores(s.cold - line.rows, s.vectors - line.vectors)
  }

  /** The rows and vectors that outlast a real sweep of the pairs in `done`. */
  function KeptRows(t: Table, plan: Plan, done: set<Pair>): Table
    requires done <= plan.Keys
  {
    map id | id in t && !(PairOf(t[id]) in done && id in plan[PairOf(t[id])].rows) :: t[id]
  }

  function KeptVectors(v: V.VectorTable, plan: Plan, done: set<Pair>): V.VectorTable
    requires done <= plan.Keys
  {
    map id | id in v && !(VectorPair(v[id]) in done && id in plan[VectorPair(v[id])].vectors) :: v[id]
  }

  function Kept(s: Stores, plan: Plan, done: set<Pair>): Stores
    requires done <= plan.Keys
  {
    Stores(KeptRows(s.cold, plan, done), KeptVectors(s.vectors, plan, done))
  }

  lemma {:induction false} KeptRowsStep(s: Stores, plan: Plan, done: set<Pair>, p: Pair, dryRun: bool)
    requires done <= plan.Keys && p in plan && p !in done && LineFits(s, p, plan[p], dryRun)
    ensures KeptRows(s.cold, plan, done + {p}) == KeptRows(s.cold, plan, done) - plan[p].rows
    ensures plan[p].rows <= KeptRows(s.cold, plan, done).Keys
  {
  }

  lemma {:induction false} KeptRowsOneMore(s: Stores, plan: Plan, done: set<Pair>, p: Pair, dryRun: bool)
    requires done <= plan.Keys && p in plan && p !in done && LineFits(s, p, plan[p], dryRun)
    ensures KeptRows(s.cold, plan, done + {p}) == KeptRows(s.cold, plan, done) - plan[p].rows
    ensures |KeptRows(s.cold, plan, done + {p})| == |KeptRows(s.cold, plan, done)| - |plan[p].rows|
  {
    KeptRowsStep(s, plan, done, p, dryRun);
    MinusSize(KeptRows(s.cold, plan, done), plan[p].rows);
  }

  lemma {:induction false} KeptVectorsStep(s: Stores, plan: Plan, done: set<Pair>, p: Pair, dryRun: bool)
    requires done <= plan.Keys && p in plan && p !in done && LineFits(s, p, plan[p], dryRun)
    ensures KeptVectors(s.vectors, plan, done + {p}) == KeptVectors(s.vectors, plan, done) - plan[p].vectors
    ensures plan[p].vectors <= KeptVectors(s.vectors, plan, done).Keys
  {
  }

  lemma {:induction false} KeptVectorsOneMore(s: Stores, plan: Plan, done: set<Pair>, p: Pair, dryRun: bool)
    requires done <= plan.Keys && p in plan && p !in done && LineFits(s, p, plan[p], dryRun)
    ensures KeptVectors(s.vectors, plan, done + {p}) == KeptVectors(s.vectors, plan, done) - plan[p].vectors
    ensures |KeptVectors(s.vectors, plan, done + {p})| == |KeptVectors(s.vectors, plan, done)| - |plan[p].vectors|
  {
    KeptVectorsStep(s, plan, done, p, dryRun);
    MinusSize(KeptVectors(s.vectors, plan, done), plan[p].vectors);
  }

  // ----- the report -----

  function SumEvents(entries: seq<PerPair>): nat {
    if entries == [] then 0 else SumEvents(entries[..|entries| - 1]) + entries[|entries| - 1].events
  }

  function SumVectors(entries: seq<PerPair>): nat {
    if entries == [] then 0 else SumVectors(entries[..|entries| - 1]) + entries[|entries| - 1].vectors
  }

  predicate Touched(e: PerPair) {
    e.events > 0 || e.vectors > 0
  }

  function DueEntries(plan: Plan, done: set<Pair>): set<PerPair>
    requires done <= plan.Keys
  {
    set p | p in done && Touched(plan[p].entry) :: plan[p].entry
  }

  function DueWarnings(plan: Plan, done: set<Pair>): set<Warning>
    requires done <= plan.Keys
  {
    set p, w | p in done && w in plan[p].warnings :: w
  }

  /** The report lists exactly the visited pairs that lost (or would lose) something, each once
      and with its own numbers; its totals are the sums; and every warning is there once. */
  ghost predicate Faithful(plan: Plan, done: set<Pair>, r: Report)
    requires done <= plan.Keys
  {
    r.events == SumEvents(r.perPair) && r.vectors == SumVectors(r.perPair) &&
    multiset(r.perPair) == multiset(DueEntries(plan, done)) &&
    multiset(r.warnings) == multiset(DueWarnings(plan, done))
  }

  /** End of a round: totals grow, and the pair is listed if it lost anything. */
  function Record(r: Report, e: PerPair, warnings: seq<Warning>): Report {
    Report(if Touched(e) then r.perPair + [e] else r.perPair,
           r.events + e.events, r.vectors + e.vectors, r.warnings + warnings, r.dryRun)
  }

  lemma {:induction false} SumsSnoc(entries: seq<PerPair>, e: PerPair)
    ensures SumEvents(entries + [e]) == SumEvents(entries) + e.events
    ensures SumVectors(entries + [e]) == SumVectors(entries) + e.vectors
  {
    assert (entries + [e])[..|entries|] == entries;
  }

  lemma {:induction false} AddOne<T>(s: set<T>, x: T)
    requires x !in s
    ensures multiset(s + {x}) == multiset(s) + multiset{x}
  {
  }

  lemma {:induction false} AddAll<T>(s: set<T>, q: seq<T>)
    requires forall i :: 0 <= i < |q| ==> q[i] !in s
    requires |q| <= 2 && (|q| == 2 ==> q[0] != q[1])
    ensures multiset(s + set x | x in q) == multiset(s) + multiset(q)
  {
    if |q| == 2 {
      assert q == [q[0]] + [q[1]];
      assert s + (set x | x in q) == s + {q[0]} + {q[1]};
    } else if |q| == 1 {
      assert q == [q[0]];
      assert s + (set x | x in q) == s + {q[0]};
    } else {
      assert s + (set x | x in q) == s;
    }
  }

  lemma {:induction false} EntriesOneMore(plan: Plan, done: set<Pair>, p: Pair)
    requires done <= plan.Keys && p in plan && p !in done
    requires forall o :: o in plan ==> plan[o].entry.pair == o
    ensures multiset(DueEntries(plan, done + {p})) == multiset(DueEntries(plan, done))
              + if Touched(plan[p].entry) then multiset{plan[p].entry} else multiset{}
  {
    var e, here := plan[p].entry, DueEntries(plan, done);
    if Touched(e) {
      assert DueEntries(plan, done + {p}) == here + {e};
      AddOne(here, e);
    } else {
      assert DueEntries(plan, done + {p}) == here;
    }
  }

  lemma {:induction false} WarningsOneMore(s: Stores, plan: Plan, done: set<Pair>, p: Pair, dryRun: bool)
    requires done <= plan.Keys && p in plan && p !in done && Fits(s, plan, dryRun)
    ensures multiset(DueWarnings(plan, done + {p})) == multiset(DueWarnings(plan, done)) + multiset(plan[p].warnings)
  {
    var here, more := DueWarnings(plan, done), plan[p].warnings;
    assert DueWarnings(plan, done + {p}) == here + set w | w in more;
    forall i | 0 <= i < |more| ensures more[i] !in here {
      assert more[i].pair == p;
    }
    AddAll(here, more);
  }

  lemma {:induction false} RecordFaithful(s: Stores, plan: Plan, done: set<Pair>, p: Pair, r: Report)
    requires done <= plan.Keys && p in plan && p !in done && Fits(s, plan, r.dryRun) && Faithful(plan, done, r)
    ensures Faithful(plan, done + {p}, Record(r, plan[p].entry, plan[p].warnings))
  {
    SumsSnoc(r.perPair, plan[p].entry);
    EntriesOneMore(plan, done, p);
    WarningsOneMore(s, plan, done, p, r.dryRun);
  }

  // ----- a pass so far -----

  /** Where a pass that began at s0 stands once the pairs in `done` are visited. The vector
      total is exact even in a dry run. */
  ghost predicate PassInv(s0: Stores, plan: Plan, done: set<Pair>, s: Stores, r: Report) {
    done <= plan.Keys && Faithful(plan, done, r) &&
    s == (if r.dryRun then s0 else Kept(s0, plan, done)) &&
    r.vectors == |s0.vectors| - |KeptVectors(s0.vectors, plan, done)| &&
    (!r.dryRun ==> r.events == |s0.cold| - |s.cold|)
  }

  lemma {:induction false} PassStarts(s0: Stores, plan: Plan, dryRun: bool)
    ensures PassInv(s0, plan, {}, s0, Report([], 0, 0, [], dryRun))
  {
    assert KeptRows(s0.cold, plan, {}) == s0.cold;
    assert KeptVectors(s0.vectors, plan, {}) == s0.vectors;
  }

  lemma {:induction false} PassGoesOn(s0: Stores, plan: Plan, done: set<Pair>, s: Stores, r: Report, p: Pair)
    requires Fits(s0, plan, r.dryRun) && PassInv(s0, plan, done, s, r) && p in plan && p !in done
    ensures PassInv(s0, plan, done + {p}, Execute(s, plan[p], r.dryRun), Record(r, plan[p].entry, plan[p].warnings))
  {
    KeptRowsOneMore(s0, plan, done, p, r.dryRun);
    KeptVectorsOneMore(s0, plan, done, p, r.dryRun);
    RecordFaithful(s0, plan, done, p, r);
  }
}
