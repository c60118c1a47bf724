/** The retention sweeper: one pass over every pair, deleting from the cold store and the index. */
module Sweeper {
  import opened Prelude
  import opened Events
  import opened ColdTable
  import opened ColdStore
  import opened Retention
  import opened SweepLaws
  import opened SweepPlan
  import opened SweepPass
  import V = VectorIndex

  method AgeStep(cold: ColdStore, p: Pair, eff: Effective, now: int, dryRun: bool) returns (n: nat)
    requires cold.Valid()
    modifies cold`events
    ensures cold.Valid()
    ensures n == ByAge(old(cold.events), p, eff, now)
    ensures cold.events == if dryRun then old(cold.events) else AfterAge(old(cold.events), p, eff, now)
  {
    DropNothing(cold.events, p);
    n := 0;
    if eff.maxAgeMs.Some? {
      n := cold.SweepMaxAge(p, ClampI64(now - eff.maxAgeMs.value), dryRun);
    }
  }

  method CountStep(cold: ColdStore, p: Pair, eff: Effective, dryRun: bool) returns (n: nat, warnings: seq<Warning>)
    requires cold.Valid()
    modifies cold`events
    ensures cold.Valid()
    ensures n == if dryRun then DryCount(old(cold.events), p, eff) else ByCount(old(cold.events), p, eff)
    ensures cold.events == if dryRun then old(cold.events) else AfterCount(old(cold.events), p, eff)
    ensures warnings == if eff.maxCount.None? then [] else Warn(p, Count, |Rows(old(cold.events), p)|)
  {
    DropNothing(cold.events, p);
    n, warnings := 0, [];
    if eff.maxCount.Some? {
      var before := cold.CountForPair(p);
      if before > EXPENSIVE_REWRITE_THRESHOLD {
        warnings := [Warning(p, Count, before)];
      }
      n := cold.SweepMaxCount(p, eff.maxCount.value, dryRun);
    }
  }

  method BytesStep(cold: ColdStore, p: Pair, eff: Effective, dryRun: bool) returns (n: nat, warnings: seq<Warning>)
    requires cold.Valid()
    modifies cold`events
    ensures cold.Valid()
    ensures n == ByBytes(old(cold.events), p, eff)
    ensures cold.events == if dryRun then old(cold.events) else AfterBytes(old(cold.events), p, eff)
    ensures warnings == if eff.maxBytes.None? then [] else Warn(p, Bytes, |Rows(old(cold.events), p)|)
  {
    DropNothing(cold.events, p);
    n, warnings := 0, [];
    if eff.maxBytes.Some? {
      var before := cold.CountForPair(p);
      if before > EXPENSIVE_REWRITE_THRESHOLD {
        warnings := [Warning(p, Bytes, before)];
      }
      n := cold.SweepMaxBytes(p, eff.maxBytes.value, dryRun);
    }
  }

  /** The three dimensions of one pair, in the sweeper's order. */
  method SweepPair(cold: ColdStore, p: Pair, eff: Effective, now: int, dryRun: bool)
    returns (dropped: nat, warnings: seq<Warning>)
    requires cold.Valid()
    modifies cold`events
    ensures cold.Valid()
    ensures dropped == Tally(old(cold.events), p, eff, now, dryRun)
    ensures warnings == Warnings(old(cold.events), p, eff, now, dryRun)
    ensures cold.events == if dryRun then old(cold.events) else AfterAll(old(cold.events), p, eff, now)
  {
    var a := AgeStep(cold, p, eff, now, dryRun);
    var c, w := CountStep(cold, p, eff, dryRun);
    var b, w' := BytesStep(cold, p, eff, dryRun);
    StepsAddUp(old(cold.events), p, eff, now, dryRun);
    WarningsInOrder(old(cold.events), p, eff, now, dryRun);
    return a + c + b, w + w';
  }

  /** No index is an index without rows. */
  ghost function StoresOf(cold: ColdStore, index: V.VectorIndex?): Stores
    reads cold, index
  {
    Stores(cold.events, if index == null then map[] else index.table)
  }

  /** Table and mirror agree. Appends that overlapped sweeps may have left them apart; a pass
      works either way. */
  ghost predicate InStep(index: V.VectorIndex?)
    reads index
  {
    index != null ==> index.InStep()
  }

  /** Sweep (or, dry, count) the vectors of one pair, if there is an index and an age for them. */
  method VectorStep(index: V.VectorIndex?, p: Pair, eff: Effective, now: int, dryRun: bool) returns (n: nat)
    modifies index
    ensures old(InStep(index)) ==> InStep(index)
    ensures index == null ==> n == 0
    ensures index != null ==> n == |Doomed(old(index.table), p, eff, now)|
    ensures index != null ==>
              index.table == if dryRun then old(index.table)
                             else old(index.table) - Doomed(old(index.table), p, eff, now)
  {
    n := 0;
    if index != null && eff.vectorMaxAgeMs.Some? {
      DeleteOlderIsDoomed(index.table, p, eff, now);
      n := index.SweepMaxAge(p, ClampI64(now - eff.vectorMaxAgeMs.value), dryRun);
    }
  }

  /** One round: execute the pair's line. A pair none of whose dimensions is set is skipped. */
  method Round(cold: ColdStore, index: V.VectorIndex?, policies: seq<Policy>, now: int, p: Pair, r: Report)
    returns (r': Report)
    requires cold.Valid()
    modifies cold`events, index
    ensures cold.Valid() && (old(InStep(index)) ==> InStep(index))
    ensures var line := LineFor(old(StoresOf(cold, index)), policies, now, r.dryRun, p);
            StoresOf(cold, index) == Execute(old(StoresOf(cold, index)), line, r.dryRun) &&
            r' == Record(r, line.entry, line.warnings)
  {
    var eff := ResolveEffective(policies, p.source, p.kind);
    if IsEmpty(eff) {
      EmptyLine(StoresOf(cold, index), policies, now, r, p);
      return r;
    }
    var events, warnings := SweepPair(cold, p, eff, now, r.dryRun);
    var vectors := VectorStep(index, p, eff, now, r.dryRun);
    SweepsComposeToMax(old(cold.events), p, eff, now);
    r' := Record(r, PerPair(p, eff, events, vectors), warnings);
  }

  /** One pass. Pairs are visited in some order; the outcome does not depend on it. */
  method SweepAll(cold: ColdStore, index: V.VectorIndex?, policies: seq<Policy>, now: int, dryRun: bool)
    returns (report: Report)
    requires cold.Valid()
    modifies cold`events, index
    ensures cold.Valid() && (old(InStep(index)) ==> InStep(index)) && report.dryRun == dryRun
    ensures Finished(old(StoresOf(cold, index)), policies, now, StoresOf(cold, index), report)
  {
    ghost var s0 := StoresOf(cold, index);
    report := Report([], 0, 0, [], dryRun);
    var todo := PairsIn(cold.events);
    PassBegins(s0, policies, now, dryRun);
    while todo != {}
      invariant cold.Valid() && (old(InStep(index)) ==> InStep(index)) && report.dryRun == dryRun
      invariant Underway(s0, policies, now, todo, StoresOf(cold, index), report)
      decreases todo
    {
      var p :| p in todo;
      RoundKeepsPass(s0, policies, now, todo, StoresOf(cold, index), report, p);
      report := Round(cold, index, policies, now, p, report);
      todo := todo - {p};
    }
  }
}
