/** A pass while others append: the store is let go of between two sweeps, so appends of any batches
    may fall between any two steps. */
module SweepInterleaved {
  import opened Prelude
  import opened Events
  import opened ColdTable
  import opened ColdStore
  import opened ColdHistory
  import opened ColdReplay
  import opened Retention
  import opened SweepLaws

  // ----- the steps of a pass -----

  function AgeSteps(p: Pair, eff: Effective, now: int): seq<Op> {
    if eff.maxAgeMs.None? then [] else [SweepAge(p, ClampI64(now - eff.maxAgeMs.value))]
  }

  function CountSteps(p: Pair, eff: Effective): seq<Op> {
    if eff.maxCount.None? then [] else [SweepCount(p, eff.maxCount.value)]
  }

  function BytesSteps(p: Pair, eff: Effective): seq<Op> {
    if eff.maxBytes.None? then [] else [SweepBytes(p, eff.maxBytes.value)]
  }

  function PairSteps(p: Pair, eff: Effective, now: int): seq<Op> {
    AgeSteps(p, eff, now) + CountSteps(p, eff) + BytesSteps(p, eff)
  }

  function PassSteps(policies: seq<Policy>, now: int, pairs: seq<Pair>): seq<Op> {
    if pairs == [] then []
    else PairSteps(pairs[0], Resolve(policies, pairs[0].source, pairs[0].kind), now)
         + PassSteps(policies, now, pairs[1..])
  }

  function Sweeps(ops: seq<Op>): seq<Op> {
    if ops == [] then []
    else Sweeps(ops[..|ops| - 1]) + (if ops[|ops| - 1].Append? then [] else [ops[|ops| - 1]])
  }

  /** These operations are that pass with appends in between. */
  ghost predicate PassAmongAppends(policies: seq<Policy>, now: int, pairs: seq<Pair>, ops: seq<Op>) {
    Sweeps(ops) == PassSteps(policies, now, pairs)
  }

  // ----- running it -----

  function From(c: Cold, ops: seq<Op>): (r: Cold)
    requires WellKeyed(c.events)
    ensures WellKeyed(r.events)
  {
    if ops == [] then c else Apply(From(c, ops[..|ops| - 1]), ops[|ops| - 1])
  }

  function Total(c: Cold, ops: seq<Op>): nat
    requires WellKeyed(c.events)
  {
    if ops == [] then 0
    else Total(c, ops[..|ops| - 1]) + Counted(From(c, ops[..|ops| - 1]).events, ops[|ops| - 1])
  }

  /** The ids an append adds. */
  function Fresh(t: Table, op: Op): set<EventId> {
    if op.Append? then InsertAll(t, op.batch).Keys - t.Keys else {}
  }

  function Added(c: Cold, ops: seq<Op>): nat
    requires WellKeyed(c.events)
  {
    if ops == [] then 0
    else Added(c, ops[..|ops| - 1]) + |Fresh(From(c, ops[..|ops| - 1]).events, ops[|ops| - 1])|
  }

  /** The object under a pass with appends in between, adding up what the sweeps report. */
  method RunPass(store: ColdStore, policies: seq<Policy>, now: int, pairs: seq<Pair>, ops: seq<Op>)
    returns (total: nat)
    requires store.Valid() && PassAmongAppends(policies, now, pairs, ops)
    modifies store
    ensures store.Valid()
    ensures var c := Cold(old(store.events), old(store.latest));
            Cold(store.events, store.latest) == From(c, ops) && total == Total(c, ops) &&
            |store.events| + total == |c.events| + Added(c, ops)
  {
    ghost var c := Cold(store.events, store.latest);
    total := 0;
    for i := 0 to |ops|
      invariant store.Valid()
      invariant Cold(store.events, store.latest) == From(c, ops[..i]) && total == Total(c, ops[..i])
    {
      assert ops[..i + 1][..i] == ops[..i];
      var n := Perform(store, ops[i]);
      total := total + n;
    }
    assert ops[..|ops|] == ops;
    RowsBalance(c, ops);
  }

  // ----- what it removes and reports -----

  lemma {:induction false} AppendBalances(t: Table, batch: seq<Event>)
    ensures |InsertAll(t, batch)| == |t| + |InsertAll(t, batch).Keys - t.Keys|
  {
    InsertAllKeeps(t, batch);
    var t' := InsertAll(t, batch);
    assert t'.Keys == t.Keys + (t'.Keys - t.Keys);
  }

  lemma {:induction false} StepBalances(t: Table, latest: LatestTable, op: Op)
    requires WellKeyed(t)
    ensures |Apply(Cold(t, latest), op).events| + Counted(t, op) == |t| + |Fresh(t, op)|
  {
    if op.Append? {
      AppendBalances(t, op.batch);
    } else {
      DropOldestSize(t, op.pair, Condemns(t, op));
    }
  }

  /** The total is exactly the number of rows removed: what was there and what came in is either
      still there or counted. */
  lemma {:induction false} RowsBalance(c: Cold, ops: seq<Op>)
    requires WellKeyed(c.events)
    ensures |From(c, ops).events| + Total(c, ops) == |c.events| + Added(c, ops)
  {
    if ops == [] {
    } else {
      var init := ops[..|ops| - 1];
      RowsBalance(c, init);
      StepBalances(From(c, init).events, From(c, init).latest, ops[|ops| - 1]);
    }
  }

  /** Each sweep removes exactly the oldest rows its dimension asks for at that moment, after which it
      asks for none, and leaves the other pairs alone. */
  lemma {:induction false} SweepTakesItsOldest(t: Table, latest: LatestTable, op: Op, o: Pair)
    requires WellKeyed(t) && !op.Append?
    ensures var t' := Apply(Cold(t, latest), op).events;
            WellKeyed(t') && Rows(t', op.pair) == Rows(t, op.pair)[Condemns(t, op)..] && Condemns(t', op) == 0 &&
            (o != op.pair ==> Rows(t', o) == Rows(t, o))
  {
    var n := Condemns(t, op);
    DropOldestRows(t, op.pair, n);
    if o != op.pair {
      OtherPairUntouched(t, op.pair, n, o);
    }
    SweepSettled(t, op);
  }

  lemma {:induction false} SweepSettled(t: Table, op: Op)
    requires WellKeyed(t) && !op.Append? && WellKeyed(DropOldest(t, op.pair, Condemns(t, op)))
    ensures Condemns(DropOldest(t, op.pair, Condemns(t, op)), op) == 0
  {
    var n := Condemns(t, op);
    DropOldestRows(t, op.pair, n);
    match op
    case SweepAge(p, cutoff) => ExpiredAfterDrop(Rows(t, p), cutoff, n);
    case SweepCount(_, _) =>
    case SweepBytes(p, budget) => BytesSettled(t, p, budget);
  }

  lemma {:induction false} BytesSettled(t: Table, p: Pair, budget: int)
    requires WellKeyed(t)
    ensures var n := Condemns(t, SweepBytes(p, budget));
            WellKeyed(DropOldest(t, p, n)) && Condemns(DropOldest(t, p, n), SweepBytes(p, budget)) == 0
  {
    var eff := Effective(None, None, Some(budget), None);
    ByBytesAfterDrop(t, p, eff, ByBytes(t, p, eff));
  }

  /** Step i took this row, as one of the oldest of its own pair. */
  ghost predicate TakenAt(c: Cold, ops: seq<Op>, row: Event, i: nat)
    requires WellKeyed(c.events)
  {
    i < |ops| && !ops[i].Append? && ops[i].pair == PairOf(row) &&
    var t := From(c, ops[..i]).events;
    row.id in Ids(Rows(t, PairOf(row))[..Condemns(t, ops[i])])
  }

  lemma {:induction false} TakenBy(t: Table, op: Op, id: EventId)
    requires WellKeyed(t) && id in t && !op.Append? && id !in DropOldest(t, op.pair, Condemns(t, op))
    ensures PairOf(t[id]) == op.pair && id in Ids(Rows(t, op.pair)[..Condemns(t, op)])
  {
    DropSeparates(t, op.pair, Condemns(t, op));
  }

  lemma {:induction false} StepKeepsOrTakes(t: Table, latest: LatestTable, op: Op, id: EventId)
    requires WellKeyed(t) && id in t
    ensures var t' := Apply(Cold(t, latest), op).events;
            (id in t' && t'[id] == t[id]) ||
            (!op.Append? && PairOf(t[id]) == op.pair && id in Ids(Rows(t, op.pair)[..Condemns(t, op)]))
  {
    if op.Append? {
      InsertAllKeeps(t, op.batch);
    } else if id !in DropOldest(t, op.pair, Condemns(t, op)) {
      TakenBy(t, op, id);
    }
  }

  lemma {:induction false} TakenStaysTaken(c: Cold, ops: seq<Op>, op: Op, row: Event, i: nat)
    requires WellKeyed(c.events) && TakenAt(c, ops, row, i)
    ensures TakenAt(c, ops + [op], row, i)
  {
    assert (ops + [op])[..i] == ops[..i];
  }

  lemma {:induction false} TakenNow(c: Cold, ops: seq<Op>, op: Op, row: Event)
    requires WellKeyed(c.events) && !op.Append? && op.pair == PairOf(row)
    requires row.id in Ids(Rows(From(c, ops).events, op.pair)[..Condemns(From(c, ops).events, op)])
    ensures TakenAt(c, ops + [op], row, |ops|)
  {
    assert (ops + [op])[..|ops|] == ops;
  }

  /** A row stays as it is until some sweep of its pair takes it among the oldest. */
  lemma {:induction false} GoneMeansTaken(c: Cold, ops: seq<Op>, id: EventId)
    requires WellKeyed(c.events) && id in c.events
    ensures var t := From(c, ops).events;
            (id in t && t[id] == c.events[id]) || exists i :: TakenAt(c, ops, c.events[id], i)
  {
    if ops == [] {
    } else {
      var init, op := ops[..|ops| - 1], ops[|ops| - 1];
      assert ops == init + [op];
      GoneMeansTaken(c, init, id);
      GoneOneMore(c, init, op, id);
    }
  }

  lemma {:induction false} GoneOneMore(c: Cold, init: seq<Op>, op: Op, id: EventId)
    requires WellKeyed(c.events) && id in c.events
    requires var t := From(c, init).events;
             (id in t && t[id] == c.events[id]) || exists i :: TakenAt(c, init, c.events[id], i)
    ensures var t := Apply(From(c, init), op).events;
            (id in t && t[id] == c.events[id]) || exists i :: TakenAt(c, init + [op], c.events[id], i)
  {
    var t, row := From(c, init).events, c.events[id];
    if id in t && t[id] == row {
      StepKeepsOrTakes(t, From(c, init).latest, op, id);
      if !op.Append? && PairOf(row) == op.pair && id in Ids(Rows(t, op.pair)[..Condemns(t, op)]) {
        TakenNow(c, init, op, row);
      }
    } else {
      var i :| TakenAt(c, init, row, i);
      TakenStaysTaken(c, init, op, row, i);
    }
  }

  // ----- without appends in between -----

  lemma {:induction false} FromConcat(c: Cold, a: seq<Op>, b: seq<Op>)
    requires WellKeyed(c.events)
    ensures From(c, a + b) == From(From(c, a), b)
    ensures Total(c, a + b) == Total(c, a) + Total(From(c, a), b)
  {
    if b == [] {
      assert a + b == a;
    } else {
      assert (a + b)[..|a + b| - 1] == a + b[..|b| - 1];
      FromConcat(c, a, b[..|b| - 1]);
    }
  }

  lemma {:induction false} AtMostOne(c: Cold, op: Op)
    requires WellKeyed(c.events)
    ensures From(c, [op]) == Apply(c, op) && Total(c, [op]) == Counted(c.events, op)
    ensures From(c, []) == c && Total(c, []) == 0
  {
    assert [op][..0] == [];
  }

  lemma {:induction false} AgeStepIs(c: Cold, p: Pair, eff: Effective, now: int)
    requires WellKeyed(c.events)
    ensures From(c, AgeSteps(p, eff, now)).events == AfterAge(c.events, p, eff, now)
    ensures Total(c, AgeSteps(p, eff, now)) == ByAge(c.events, p, eff, now)
  {
    DropNothing(c.events, p);
    AtMostOne(c, SweepAge(p, ClampI64(now - UnwrapOr(eff.maxAgeMs, 0))));
  }

  lemma {:induction false} CountStepIs(c: Cold, p: Pair, eff: Effective)
    requires WellKeyed(c.events)
    ensures From(c, CountSteps(p, eff)).events == AfterCount(c.events, p, eff)
    ensures Total(c, CountSteps(p, eff)) == ByCount(c.events, p, eff)
  {
    DropNothing(c.events, p);
    AtMostOne(c, SweepCount(p, UnwrapOr(eff.maxCount, 0)));
  }

  lemma {:induction false} BytesStepIs(c: Cold, p: Pair, eff: Effective)
    requires WellKeyed(c.events)
    ensures From(c, BytesSteps(p, eff)).events == AfterBytes(c.events, p, eff)
    ensures Total(c, BytesSteps(p, eff)) == ByBytes(c.events, p, eff)
  {
    DropNothing(c.events, p);
    AtMostOne(c, SweepBytes(p, UnwrapOr(eff.maxBytes, 0)));
  }

  lemma {:induction false} ThreeInARow(c: Cold, a: seq<Op>, n: seq<Op>, b: seq<Op>)
    requires WellKeyed(c.events)
    ensures From(c, a + n + b) == From(From(From(c, a), n), b)
    ensures Total(c, a + n + b) == Total(c, a) + Total(From(c, a), n) + Total(From(From(c, a), n), b)
  {
    FromConcat(c, a + n, b);
    FromConcat(c, a, n);
  }

  lemma {:induction false} StepsRunInTurn(c: Cold, p: Pair, eff: Effective, now: int)
    requires WellKeyed(c.events)
    ensures From(c, PairSteps(p, eff, now)).events == AfterAll(c.events, p, eff, now)
    ensures Total(c, PairSteps(p, eff, now)) == SweepLaws.Reported(c.events, p, eff, now)
  {
    var c1 := From(c, AgeSteps(p, eff, now));
    var c2 := From(c1, CountSteps(p, eff));
    ThreeInARow(c, AgeSteps(p, eff, now), CountSteps(p, eff), BytesSteps(p, eff));
    AgeStepIs(c, p, eff, now);
    CountStepIs(c1, p, eff);
    BytesStepIs(c2, p, eff);
  }

  /** The steps of one pair, run without a break, are the sweeps that compose to the maximum. */
  lemma {:induction false} UnbrokenStepsCompose(c: Cold, p: Pair, eff: Effective, now: int)
    requires WellKeyed(c.events)
    ensures From(c, PairSteps(p, eff, now)).events == DropOldest(c.events, p, Removed(c.events, p, eff, now))
    ensures Total(c, PairSteps(p, eff, now)) == Removed(c.events, p, eff, now)
  {
    StepsRunInTurn(c, p, eff, now);
    SweepsComposeToMax(c.events, p, eff, now);
  }
}
