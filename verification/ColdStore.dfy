/** The SQLite-backed cold store: append and the three retention sweeps, as they run. */
module ColdStore {
  import opened Prelude
  import opened Events
  import opened ColdTable

  type Newest = map<Pair, Event>

  /** One step of collapsing a batch: the first event with the greatest `ts` stays. */
  function Collapse1(m: Newest, e: Event): Newest {
    if PairOf(e) in m && e.ts <= m[PairOf(e)].ts then m else m[PairOf(e) := e]
  }

  function Collapse(batch: seq<Event>): Newest {
    if batch == [] then map[]
    else Collapse1(Collapse(batch[..|batch| - 1]), batch[|batch| - 1])
  }

  /** One conditional upsert per collapsed pair, whatever the order. */
  function Merge(l: LatestTable, m: Newest): LatestTable {
    map p | p in l.Keys + m.Keys ::
      if p in m && (p in l ==> m[p].ts > l[p].ts) then Stored(m[p]) else l[p]
  }

  lemma {:induction false} CollapsePairs(batch: seq<Event>)
    ensures forall p :: p in Collapse(batch) ==> PairOf(Collapse(batch)[p]) == p
  {
    if batch == [] {
    } else {
      CollapsePairs(batch[..|batch| - 1]);
    }
  }

  /** Collapsing a batch before upserting gives what upserting it row by row gives. */
  lemma {:induction false} CollapseRefines(l: LatestTable, batch: seq<Event>)
    ensures Merge(l, Collapse(batch)) == UpsertAll(l, batch)
  {
    if batch == [] {
      assert Merge(l, map[]) == l;
    } else {
      var init, e := batch[..|batch| - 1], batch[|batch| - 1];
      CollapseRefines(l, init);
      MergeStep(l, Collapse(init), e);
    }
  }

  lemma {:induction false} MergeStep(l: LatestTable, m: Newest, e: Event)
    ensures Merge(l, Collapse1(m, e)) == Upsert(Merge(l, m), e)
  {
  }

  /** The collapsing loop. */
  method CollapseBatch(batch: seq<Event>) returns (newest: Newest)
    ensures newest == Collapse(batch)
  {
    newest := map[];
    for i := 0 to |batch|
      invariant newest == Collapse(batch[..i])
    {
      assert batch[..i + 1][..i] == batch[..i];
      var e := batch[i];
      if PairOf(e) in newest {
        if e.ts > newest[PairOf(e)].ts {
          newest := newest[PairOf(e) := e];
        }
      } else {
        newest := newest[PairOf(e) := e];
      }
    }
    assert batch[..|batch|] == batch;
  }

  ghost function Only(m: Newest, ps: set<Pair>): Newest {
    map p | p in m && p in ps :: m[p]
  }

  lemma {:induction false} MergeOne(l: LatestTable, m: Newest, done: set<Pair>, p: Pair)
    requires p in m.Keys - done && PairOf(m[p]) == p
    ensures Upsert(Merge(l, Only(m, done)), m[p]) == Merge(l, Only(m, done + {p}))
  {
  }

  class ColdStore {
    var events: Table
    var latest: LatestTable

    ghost predicate Valid()
      reads this
    {
      WellKeyed(events)
    }

    constructor ()
      ensures Valid() && events == map[] && latest == map[]
    {
      events, latest := map[], map[];
    }

    /** INSERT OR IGNORE, event by event. */
    method InsertEvents(batch: seq<Event>)
      modifies this`events
      ensures events == InsertAll(old(events), batch)
      ensures NewRowsReadBack(old(events), batch, events)
    {
      FirstsStay(events, batch);
      for i := 0 to |batch|
        invariant events == InsertAll(old(events), batch[..i])
      {
        assert batch[..i + 1][..i] == batch[..i];
        if batch[i].id !in events {
          events := events[batch[i].id := Stored(batch[i])];
        }
      }
      assert batch[..|batch|] == batch;
    }

    /** One conditional upsert per candidate, in no particular order. */
    method UpsertNewest(newest: Newest)
      requires forall p :: p in newest ==> PairOf(newest[p]) == p
      modifies this`latest
      ensures latest == Merge(old(latest), newest)
    {
      var todo := newest.Keys;
      ghost var done: set<Pair> := {};
      assert Merge(latest, Only(newest, done)) == latest;
      while todo != {}
        invariant done + todo == newest.Keys && done !! todo
        invariant latest == Merge(old(latest), Only(newest, done))
        decreases todo
      {
        var p :| p in todo;
        MergeOne(old(latest), newest, done, p);
        var e := newest[p];
        if PairOf(e) !in latest || e.ts > latest[PairOf(e)].ts {
          latest := latest[PairOf(e) := Stored(e)];
        }
        todo, done := todo - {p}, done + {p};
      }
      assert Only(newest, done) == newest;
    }

    /** Insert-or-ignore every event, collapse the batch to one candidate per pair, then upsert
        the candidates. */
    method Append(batch: seq<Event>)
      requires Valid()
      modifies this
      ensures Valid()
      ensures events == InsertAll(old(events), batch)
      ensures latest == UpsertAll(old(latest), batch)
      ensures NewRowsReadBack(old(events), batch, events)
    {
      FirstsStay(events, batch);
      if batch == [] {
        return;
      }
      InsertAllWellKeyed(events, batch);
      InsertEvents(batch);
      var newest := CollapseBatch(batch);
      CollapsePairs(batch);
      UpsertNewest(newest);
      CollapseRefines(old(latest), batch);
    }

    method Latest(source: string, kind: string) returns (row: Option<Event>)
      ensures row == if Pair(source, kind) in latest then Some(latest[Pair(source, kind)]) else None
    {
      row := if Pair(source, kind) in latest then Some(latest[Pair(source, kind)]) else None;
    }

    method CountForPair(p: Pair) returns (n: nat)
      requires Valid()
      ensures n == |Rows(events, p)|
    {
      var matching := set id | id in events && PairOf(events[id]) == p;
      n := |matching|;
      PairCount(events, p);
    }

    /** Drop (or, in a dry run, count) the pair's rows older than `cutoff`. */
    method SweepMaxAge(p: Pair, cutoff: int, dryRun: bool) returns (n: nat)
      requires Valid()
      modifies this`events
      ensures Valid()
      ensures n == Expired(Rows(old(events), p), cutoff) <= |Rows(old(events), p)|
      ensures events == if dryRun then old(events) else DropOldest(old(events), p, n)
    {
      var doomed := set id | id in events && PairOf(events[id]) == p && events[id].ts < cutoff;
      n := |doomed|;
      OlderRowsLead(events, p, cutoff);
      var a := Expired(Rows(events, p), cutoff);
      assert events - doomed == DropOldest(events, p, a);
      DropOldestSize(events, p, a);
      MinusSize(events, doomed);
      if !dryRun {
        DropOldestRows(events, p, a);
        events := events - doomed;
      }
    }

    /** Keep the newest `keep` rows. A dry run reports the shortfall unclamped, which
        differs from what a real sweep removes only for a negative `keep`. */
    method SweepMaxCount(p: Pair, keep: int, dryRun: bool) returns (n: nat)
      requires Valid()
      modifies this`events
      ensures Valid()
      ensures Surplus(Rows(old(events), p), keep) <= |Rows(old(events), p)|
      ensures dryRun ==> events == old(events) && n == Max(0, |Rows(events, p)| - keep)
      ensures !dryRun ==> n == Surplus(Rows(old(events), p), keep)
      ensures !dryRun ==> events == DropOldest(old(events), p, n)
      ensures keep >= 0 ==> n == Surplus(Rows(old(events), p), keep)
    {
      var total := CountForPair(p);
      var dropCount := Max(0, total - keep);
      if dryRun || dropCount == 0 {
        DropNothing(events, p);
        return dropCount;
      }
      var rows := Rows(events, p);
      var limited := if dropCount < |rows| then rows[..dropCount] else rows;
      n := Surplus(rows, keep);
      assert limited == rows[..n];
      DropOldestRows(events, p, n);
      events := events - Ids(limited);
    }

    /** Walk from the newest row down, summing sizes; drop every row at which the running
        sum exceeds the budget. */
    method SweepMaxBytes(p: Pair, budget: int, dryRun: bool) returns (n: nat)
      requires Valid()
      modifies this`events
      ensures Valid()
      ensures RowsStored(old(events), p)
      ensures n == Oversize(old(events), Rows(old(events), p), budget) <= |Rows(old(events), p)|
      ensures events == if dryRun then old(events) else DropOldest(old(events), p, n)
    {
      RowsAreRows(events, p);
      var rows := Rows(events, p);
      var toDrop := Condemned(events, rows, budget);
      n := |toDrop|;
      OversizeSplits(events, rows, budget);
      DropNothing(events, p);
      if dryRun || toDrop == [] {
        return;
      }
      DropOldestRows(events, p, n);
      events := events - IdSet(toDrop);
    }
  }

  /** What the byte sweep has condemned once it has walked down to row i, if b are to go. */
  ghost predicate CondemnedSoFar(rows: seq<Key>, b: nat, i: nat, toDrop: seq<EventId>) {
    i <= |rows| && b <= |rows| && |toDrop| == Max(0, b - i) && IdSet(toDrop) == Ids(rows[Min(i, b)..b])
  }

  lemma {:induction false} CondemnedOneMore(rows: seq<Key>, b: nat, i: nat, toDrop: seq<EventId>)
    requires i < |rows| && CondemnedSoFar(rows, b, i + 1, toDrop)
    ensures CondemnedSoFar(rows, b, i, if i < b then toDrop + [rows[i].id] else toDrop)
  {
    if i < b {
      IdsCons(rows, i, b);
      IdSetSnoc(toDrop, rows[i].id);
    }
  }

  lemma {:induction false} WeightNext(t: Table, rows: seq<Key>, i: nat)
    requires i < |rows| && forall k :: k in rows ==> k.id in t
    ensures rows[i] in rows
    ensures Min(Weight(t, rows[i..]), I64_MAX)
            == Min(Min(Weight(t, rows[i + 1..]), I64_MAX) + |t[rows[i].id].semantic|, I64_MAX)
  {
    assert rows[i..][1..] == rows[i + 1..] && rows[i] in rows;
  }

  /** The summing loop of the byte sweep over rows given oldest first. */
  method Condemned(t: Table, rows: seq<Key>, budget: int) returns (toDrop: seq<EventId>)
    requires forall k :: k in rows ==> k.id in t
    ensures |toDrop| == Oversize(t, rows, budget) <= |rows|
    ensures IdSet(toDrop) == Ids(rows[..|toDrop|])
  {
    ghost var b := Oversize(t, rows, budget);
    var running := 0;
    toDrop := [];
    var i: nat := |rows|;
    OversizeWithin(t, rows, budget);
    while i > 0
      invariant CondemnedSoFar(rows, b, i, toDrop)
      invariant running == Min(Weight(t, rows[i..]), I64_MAX)
    {
      i := i - 1;
      WeightNext(t, rows, i);
      OversizeAt(t, rows, budget, i);
      CondemnedOneMore(rows, b, i, toDrop);
      running := Min(running + |t[rows[i].id].semantic|, I64_MAX);
      if running > budget {
        toDrop := toDrop + [rows[i].id];
      }
    }
  }

  lemma {:induction false} IdsCons(q: seq<Key>, i: nat, b: nat)
    requires i < b <= |q|
    ensures Ids(q[i..b]) == Ids(q[i + 1..b]) + {q[i].id}
  {
    assert q[i..b] == [q[i]] + q[i + 1..b];
    IdsConcat([q[i]], q[i + 1..b]);
    assert Ids([q[i]]) == {q[i].id};
  }

  ghost predicate RowsStored(t: Table, p: Pair) {
    forall k :: k in Rows(t, p) ==> k.id in t
  }

  function IdSet(ids: seq<EventId>): set<EventId> {
    set id | id in ids
  }

  lemma {:induction false} IdSetSnoc(ids: seq<EventId>, id: EventId)
    ensures IdSet(ids + [id]) == IdSet(ids) + {id}
  {
  }

  lemma {:induction false} PairCount(t: Table, p: Pair)
    requires WellKeyed(t)
    ensures |set id | id in t && PairOf(t[id]) == p| == |Rows(t, p)|
  {
    var q := Rows(t, p);
    RowsAreRows(t, p);
    IdsCardinality(t, q);
    forall id | id in t && PairOf(t[id]) == p ensures id in Ids(q) {
      assert KeyOf(t[id]) in q;
    }
    assert (set id | id in t && PairOf(t[id]) == p) == Ids(q);
  }
}
