/** Whole runs of the cold store: any interleaving of appends and sweeps, against the
    history of everything ever appended. */
module ColdHistory {
  import opened Events
  import opened ColdTable

  datatype Cold = Cold(events: Table, latest: LatestTable)

  datatype Op =
    | Append(batch: seq<Event>)
    | SweepAge(pair: Pair, cutoff: int)
    | SweepCount(pair: Pair, keep: int)
    | SweepBytes(pair: Pair, budget: int)

  const EMPTY: Cold := Cold(map[], map[])

  /** How many of its pair's oldest rows a sweep removes. */
  function Condemns(t: Table, op: Op): (n: nat)
    requires WellKeyed(t) && !op.Append?
    ensures n <= |Rows(t, op.pair)|
  {
    var q := Rows(t, op.pair);
    RowsAreRows(t, op.pair);
    match op
    case SweepAge(_, cutoff) => ExpiredSplits(q, cutoff); Expired(q, cutoff)
    case SweepCount(_, keep) => Surplus(q, keep)
    case SweepBytes(_, budget) => OversizeSplits(t, q, budget); Oversize(t, q, budget)
  }

  /** The effect `ColdStore.Append` and the `ColdStore.SweepMax...` methods are proved to have. */
  function Apply(c: Cold, op: Op): (r: Cold)
    requires WellKeyed(c.events)
    ensures WellKeyed(r.events)
  {
    match op
    case Append(batch) =>
      InsertAllWellKeyed(c.events, batch);
      Cold(InsertAll(c.events, batch), UpsertAll(c.latest, batch))
    case _ =>
      c.(events := DropOldest(c.events, op.pair, Condemns(c.events, op)))
  }

  function Run(ops: seq<Op>): (c: Cold)
    ensures WellKeyed(c.events)
  {
    if ops == [] then EMPTY else Apply(Run(ops[..|ops| - 1]), ops[|ops| - 1])
  }

  function Appended(op: Op): seq<Event> {
    if op.Append? then op.batch else []
  }

  /** Everything ever appended, in arrival order, with batch boundaries forgotten. */
  function History(ops: seq<Op>): seq<Event> {
    if ops == [] then [] else History(ops[..|ops| - 1]) + Appended(ops[|ops| - 1])
  }

  // ----- `latest` is the first-arrived event with the greatest ts -----

  ghost predicate FirstNewest(h: seq<Event>, p: Pair, i: int) {
    0 <= i < |h| && PairOf(h[i]) == p &&
    forall j :: 0 <= j < |h| && PairOf(h[j]) == p ==>
      h[j].ts <= h[i].ts && (h[j].ts == h[i].ts ==> i <= j)
  }

  ghost predicate Mentions(h: seq<Event>, p: Pair) {
    exists i :: 0 <= i < |h| && PairOf(h[i]) == p
  }

  /** One more event takes over exactly when it is strictly newer, or the first of its pair. */
  lemma {:induction false} FirstNewestStep(h: seq<Event>, e: Event, p: Pair, i: int)
    requires FirstNewest(h, p, i)
    ensures FirstNewest(h + [e], p, if PairOf(e) == p && e.ts > h[i].ts then |h| else i)
  {
  }

  lemma {:induction false} FirstNewestStart(h: seq<Event>, e: Event)
    requires !Mentions(h, PairOf(e))
    ensures FirstNewest(h + [e], PairOf(e), |h|)
  {
    forall j | 0 <= j < |h| ensures PairOf((h + [e])[j]) != PairOf(e) {
      assert PairOf(h[j]) != PairOf(e);
    }
  }

  lemma {:induction false} MentionsSnoc(h: seq<Event>, e: Event, p: Pair)
    ensures Mentions(h + [e], p) <==> Mentions(h, p) || PairOf(e) == p
  {
    if Mentions(h, p) {
      var i :| 0 <= i < |h| && PairOf(h[i]) == p;
      assert PairOf((h + [e])[i]) == p;
    }
    assert (h + [e])[|h|] == e;
  }

  lemma {:induction false} UpsertKeepsFirstNewest(h: seq<Event>, e: Event, p: Pair, i: int, row: Event)
    requires FirstNewest(h, p, i) && ReadsBack(row, h[i])
    ensures var row' := if PairOf(e) == p && e.ts > row.ts then Stored(e) else row;
            exists k :: FirstNewest(h + [e], p, k) && ReadsBack(row', (h + [e])[k])
  {
    FirstNewestStep(h, e, p, i);
    var k := if PairOf(e) == p && e.ts > h[i].ts then |h| else i;
    assert (h + [e])[k] == if k == i then h[i] else e;
  }

  lemma {:induction false} UpsertsFindFirstNewest(h: seq<Event>, p: Pair)
    ensures p in UpsertAll(map[], h) <==> Mentions(h, p)
    ensures p in UpsertAll(map[], h) ==>
              exists i :: FirstNewest(h, p, i) && ReadsBack(UpsertAll(map[], h)[p], h[i])
  {
    if h == [] {
    } else {
      var init, e := h[..|h| - 1], h[|h| - 1];
      assert h == init + [e];
      UpsertsFindFirstNewest(init, p);
      MentionsSnoc(init, e, p);
      var before := UpsertAll(map[], init);
      if p in before {
        var i :| FirstNewest(init, p, i) && ReadsBack(before[p], init[i]);
        UpsertKeepsFirstNewest(init, e, p, i, before[p]);
      } else if PairOf(e) == p {
        FirstNewestStart(init, e);
      }
    }
  }

  lemma {:induction false} LatestFoldsHistory(ops: seq<Op>)
    ensures Run(ops).latest == UpsertAll(map[], History(ops))
  {
    if ops == [] {
    } else {
      var init := ops[..|ops| - 1];
      LatestFoldsHistory(init);
      UpsertAllConcat(map[], History(init), Appended(ops[|ops| - 1]));
    }
  }

  /** After any appends and sweeps, however the stream was cut into batches. */
  lemma {:induction false} LatestIsFirstNewest(ops: seq<Op>, p: Pair)
    ensures p in Run(ops).latest <==> Mentions(History(ops), p)
    ensures p in Run(ops).latest ==>
              exists i :: FirstNewest(History(ops), p, i) && ReadsBack(Run(ops).latest[p], History(ops)[i])
  {
    LatestFoldsHistory(ops);
    UpsertsFindFirstNewest(History(ops), p);
  }

  // ----- `latest` against the rows still stored -----

  /** Every stored row is an event of the history. */
  ghost predicate Sourced(t: Table, h: seq<Event>) {
    forall id :: id in t ==> exists e :: e in h && e.id == id && ReadsBack(t[id], e)
  }

  lemma {:induction false} StoredFromHistory(ops: seq<Op>)
    ensures Sourced(Run(ops).events, History(ops))
  {
    if ops == [] {
    } else {
      var init, op := ops[..|ops| - 1], ops[|ops| - 1];
      StoredFromHistory(init);
      var t, t' := Run(init).events, Run(ops).events;
      if op.Append? {
        InsertAllKeeps(t, op.batch);
      }
      forall id | id in t' ensures exists e :: e in History(ops) && e.id == id && ReadsBack(t'[id], e) {
        if id in t {
          var e :| e in History(init) && e.id == id && ReadsBack(t[id], e);
          assert e in History(ops);
        } else {
          var e :| e in op.batch && e.id == id && ReadsBack(t'[id], e);
          assert e in History(ops);
        }
      }
    }
  }

  /** `latest` is never older than a stored row of its pair. */
  lemma {:induction false} LatestDominatesStored(ops: seq<Op>, id: EventId)
    requires id in Run(ops).events
    ensures var e := Run(ops).events[id];
            PairOf(e) in Run(ops).latest && e.ts <= Run(ops).latest[PairOf(e)].ts
  {
    StoredFromHistory(ops);
    var h := History(ops);
    var e :| e in h && e.id == id && ReadsBack(Run(ops).events[id], e);
    var i :| 0 <= i < |h| && h[i] == e;
    LatestIsFirstNewest(ops, PairOf(e));
  }

  /** Ids determine events, as far as pair and time go. */
  ghost predicate IdsDetermine(h: seq<Event>) {
    forall a, b :: a in h && b in h && a.id == b.id ==> PairOf(a) == PairOf(b) && a.ts == b.ts
  }

  /** What was appended since the pair last had no rows. */
  function Since(ops: seq<Op>, p: Pair): seq<Event> {
    if ops == [] || Rows(Run(ops).events, p) == [] then []
    else Since(ops[..|ops| - 1], p) + Appended(ops[|ops| - 1])
  }

  ghost predicate NewestIn(h: seq<Event>, p: Pair, ts: int) {
    (exists e :: e in h && PairOf(e) == p && e.ts == ts) &&
    forall e :: e in h && PairOf(e) == p ==> e.ts <= ts
  }

  function LastTs(q: seq<Key>): int
    requires q != []
  {
    q[|q| - 1].ts
  }

  lemma {:induction false} LastIsNewest(t: Table, p: Pair)
    requires WellKeyed(t) && Rows(t, p) != []
    ensures exists id :: id in t && PairOf(t[id]) == p && t[id].ts == LastTs(Rows(t, p))
    ensures forall id :: id in t && PairOf(t[id]) == p ==> t[id].ts <= LastTs(Rows(t, p))
  {
    var q := Rows(t, p);
    RowsAreRows(t, p);
    assert q[|q| - 1] in q;
    forall id | id in t && PairOf(t[id]) == p ensures t[id].ts <= LastTs(q) {
      assert KeyOf(t[id]) in q;
      var i :| 0 <= i < |q| && q[i] == KeyOf(t[id]);
      assert i < |q| - 1 ==> Before(q[i], q[|q| - 1]);
    }
  }

  lemma {:induction false} RowPresent(t: Table, p: Pair, id: EventId)
    requires WellKeyed(t) && id in t && PairOf(t[id]) == p
    ensures Rows(t, p) != [] && t[id].ts <= LastTs(Rows(t, p))
  {
    RowsMember(t, p, KeyOf(t[id]));
    assert Rows(t, p) != [];
    LastIsNewest(t, p);
  }

  /** An appended event's id is stored afterwards, under the same pair and time. */
  lemma {:induction false} AppendedIsStored(t: Table, h: seq<Event>, batch: seq<Event>, e: Event)
    requires Sourced(t, h) && IdsDetermine(h + batch) && e in batch
    ensures var t' := InsertAll(t, batch);
            e.id in t' && PairOf(t'[e.id]) == PairOf(e) && t'[e.id].ts == e.ts
  {
    InsertAllKeeps(t, batch);
    var t' := InsertAll(t, batch);
    assert e in h + batch;
    if e.id in t {
      var e0 :| e0 in h && e0.id == e.id && ReadsBack(t[e.id], e0);
      assert e0 in h + batch;
    } else {
      var e1 :| e1 in batch && e1.id == e.id && ReadsBack(t'[e.id], e1);
      assert e1 in h + batch;
    }
  }

  lemma {:induction false} AppendNewest(t: Table, h: seq<Event>, since: seq<Event>, batch: seq<Event>, p: Pair)
    requires WellKeyed(t) && Sourced(t, h) && IdsDetermine(h + batch)
    requires WellKeyed(InsertAll(t, batch)) && Rows(InsertAll(t, batch), p) != []
    requires if Rows(t, p) == [] then since == [] else NewestIn(since, p, LastTs(Rows(t, p)))
    ensures NewestIn(since + batch, p, LastTs(Rows(InsertAll(t, batch), p)))
  {
    var t' := InsertAll(t, batch);
    var top := LastTs(Rows(t', p));
    InsertAllKeeps(t, batch);
    LastIsNewest(t', p);
    if Rows(t, p) != [] {
      LastIsNewest(t, p);
    }
    forall e | e in since + batch && PairOf(e) == p ensures e.ts <= top {
      if e in batch {
        AppendedIsStored(t, h, batch, e);
      }
    }
    var id :| id in t' && PairOf(t'[id]) == p && t'[id].ts == top;
    if id in t {
      RowPresent(t, p, id);
      var e :| e in since && PairOf(e) == p && e.ts == LastTs(Rows(t, p));
      assert e in since + batch && e.ts == top;
    } else {
      var e :| e in batch && e.id == id && ReadsBack(t'[id], e);
      assert e in since + batch;
    }
  }

  lemma {:induction false} SweepNewest(t: Table, op: Op, p: Pair)
    requires WellKeyed(t) && !op.Append?
    ensures var t' := DropOldest(t, op.pair, Condemns(t, op));
            Rows(t', p) != [] ==> Rows(t, p) != [] && LastTs(Rows(t', p)) == LastTs(Rows(t, p))
  {
    var n := Condemns(t, op);
    if p == op.pair {
      DropOldestRows(t, p, n);
    } else {
      OtherPairUntouched(t, op.pair, n, p);
    }
  }

  lemma {:induction false} EmptyTableNoRows(p: Pair)
    ensures Rows(map[], p) == []
  {
    assert PairKeys(map[], p) == {};
  }

  ghost predicate NewestKept(ops: seq<Op>, p: Pair) {
    Rows(Run(ops).events, p) != [] ==> NewestIn(Since(ops, p), p, LastTs(Rows(Run(ops).events, p)))
  }

  lemma {:induction false} NewestKeptByAppend(init: seq<Op>, batch: seq<Event>, p: Pair)
    requires NewestKept(init, p) && IdsDetermine(History(init) + batch)
    requires Rows(Run(init + [Append(batch)]).events, p) != []
    ensures NewestKept(init + [Append(batch)], p)
  {
    var ops := init + [Append(batch)];
    assert ops[..|ops| - 1] == init;
    StoredFromHistory(init);
    AppendNewest(Run(init).events, History(init), Since(init, p), batch, p);
  }

  lemma {:induction false} NewestKeptBySweep(init: seq<Op>, op: Op, p: Pair)
    requires NewestKept(init, p) && !op.Append?
    ensures NewestKept(init + [op], p)
  {
    var ops := init + [op];
    assert ops[..|ops| - 1] == init;
    SweepNewest(Run(init).events, op, p);
    assert Since(init, p) + [] == Since(init, p);
  }

  lemma {:induction false} IdsDetermineShorter(h: seq<Event>, more: seq<Event>)
    requires IdsDetermine(h + more)
    ensures IdsDetermine(h)
  {
    forall a | a in h ensures a in h + more {}
  }

  /** When ids determine events, the newest stored time of a pair is exactly the newest
      time appended since the pair was last empty. */
  lemma {:induction false} NewestStored(ops: seq<Op>, p: Pair)
    requires IdsDetermine(History(ops))
    ensures NewestKept(ops, p)
  {
    if ops == [] {
      EmptyTableNoRows(p);
    } else {
      var init, op := ops[..|ops| - 1], ops[|ops| - 1];
      assert ops == init + [op];
      IdsDetermineShorter(History(init), Appended(op));
      NewestStored(init, p);
      if op.Append? {
        if Rows(Run(ops).events, p) != [] {
          NewestKeptByAppend(init, op.batch, p);
        }
      } else {
        NewestKeptBySweep(init, op, p);
      }
    }
  }

  /** Hence `latest` and the newest row agree in time exactly when one of the pair's
      newest events arrived since the pair was last empty. */
  lemma {:induction false} LatestAgreesWithRows(ops: seq<Op>, p: Pair)
    requires IdsDetermine(History(ops)) && Rows(Run(ops).events, p) != []
    ensures p in Run(ops).latest
    ensures LastTs(Rows(Run(ops).events, p)) == Run(ops).latest[p].ts
            <==> exists e :: e in Since(ops, p) && PairOf(e) == p && e.ts == Run(ops).latest[p].ts
  {
    var t := Run(ops).events;
    LastIsNewest(t, p);
    var id :| id in t && PairOf(t[id]) == p && t[id].ts == LastTs(Rows(t, p));
    LatestDominatesStored(ops, id);
    NewestStored(ops, p);
  }

  ghost predicate NeverEmptied(ops: seq<Op>, p: Pair) {
    forall k :: 0 <= k <= |ops| && Mentions(History(ops[..k]), p) ==> Rows(Run(ops[..k]).events, p) != []
  }

  lemma {:induction false} NeverEmptiedKeepsAll(ops: seq<Op>, p: Pair, e: Event)
    requires NeverEmptied(ops, p) && e in History(ops) && PairOf(e) == p
    ensures e in Since(ops, p)
  {
    var init := ops[..|ops| - 1];
    var i :| 0 <= i < |History(ops)| && History(ops)[i] == e;
    assert ops[..|ops|] == ops && Mentions(History(ops), p);
    if e in History(init) {
      assert forall k :: 0 <= k <= |init| ==> init[..k] == ops[..k];
      NeverEmptiedKeepsAll(init, p, e);
    }
  }

  /** In particular they agree as long as the pair was never swept empty. */
  lemma {:induction false} LatestEqualsNewestRow(ops: seq<Op>, p: Pair)
    requires IdsDetermine(History(ops)) && NeverEmptied(ops, p) && Mentions(History(ops), p)
    ensures p in Run(ops).latest && Rows(Run(ops).events, p) != []
    ensures LastTs(Rows(Run(ops).events, p)) == Run(ops).latest[p].ts
  {
    assert ops[..|ops|] == ops;
    LatestIsFirstNewest(ops, p);
    var i :| FirstNewest(History(ops), p, i) && ReadsBack(Run(ops).latest[p], History(ops)[i]);
    NeverEmptiedKeepsAll(ops, p, History(ops)[i]);
    LatestAgreesWithRows(ops, p);
  }

  // ----- idempotence -----

  /** Re-appending an event that is still stored, wherever it sits in a batch and whatever
      its server-assigned fields now are, changes neither table. */
  lemma {:induction false} ReappendChangesNothing(ops: seq<Op>, a: seq<Event>, e: Event, b: seq<Event>)
    requires e.id in Run(ops).events
    requires PairOf(Run(ops).events[e.id]) == PairOf(e) && Run(ops).events[e.id].ts == e.ts
    ensures Apply(Run(ops), Append(a + [e] + b)) == Apply(Run(ops), Append(a + b))
  {
    var c := Run(ops);
    InsertAllConcat(c.events, a + [e], b);
    InsertAllConcat(c.events, a, [e]);
    InsertAllConcat(c.events, a, b);
    InsertAllKeeps(c.events, a);
    assert InsertAll(InsertAll(c.events, a), [e]) == InsertAll(c.events, a);
    UpsertAllConcat(c.latest, a + [e], b);
    UpsertAllConcat(c.latest, a, [e]);
    UpsertAllConcat(c.latest, a, b);
    LatestDominatesStored(ops, e.id);
    UpsertsOnlyRise(c.latest, a, PairOf(e));
    assert UpsertAll(UpsertAll(c.latest, a), [e]) == UpsertAll(c.latest, a);
  }

  lemma {:induction false} UpsertsOnlyRise(l: LatestTable, batch: seq<Event>, p: Pair)
    requires p in l
    ensures p in UpsertAll(l, batch) && UpsertAll(l, batch)[p].ts >= l[p].ts
  {
    if batch == [] {
    } else {
      UpsertsOnlyRise(l, batch[..|batch| - 1], p);
    }
  }
}
