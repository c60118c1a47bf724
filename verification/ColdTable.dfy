/** The cold store's two tables as values: what the SQL of `append` and of the three
    retention sweeps does to them, and why every sweep is "drop the n oldest". */
module ColdTable {
  import opened Prelude
  import opened Events

  /** `events`, keyed by its primary key. */
  type Table = map<EventId, Event>

  /** `latest`, keyed by its primary key. */
  type LatestTable = map<Pair, Event>

  ghost predicate WellKeyed(t: Table) {
    forall id :: id in t ==> t[id].id == id
  }

  /** What a row gives back when read: a missing ingest time was written as `ts`. */
  function Stored(e: Event): Event {
    e.(ingestTs := Some(UnwrapOr(e.ingestTs, e.ts)))
  }

  /** Reading a row gives the event it was made from, field by field; only a missing ingest time comes
      back as the event's own time. */
  ghost predicate ReadsBack(row: Event, e: Event) {
    row.id == e.id && row.source == e.source && row.kind == e.kind && row.ts == e.ts && row.semantic == e.semantic &&
    row.links == e.links && row.traceId == e.traceId && row.seqNo == e.seqNo && row.producerId == e.producerId &&
    row.schemaInvalid == e.schemaInvalid &&
    match e.ingestTs
    case Some(t) => row.ingestTs == Some(t)
    case None => row.ingestTs == Some(e.ts)
  }

  /** INSERT OR IGNORE. */
  function InsertOrIgnore(t: Table, e: Event): Table {
    if e.id in t then t else t[e.id := Stored(e)]
  }

  function InsertAll(t: Table, batch: seq<Event>): Table {
    if batch == [] then t
    else InsertOrIgnore(InsertAll(t, batch[..|batch| - 1]), batch[|batch| - 1])
  }

  /** INSERT ... ON CONFLICT DO UPDATE ... WHERE excluded.ts > latest.ts. */
  function Upsert(l: LatestTable, e: Event): LatestTable {
    if PairOf(e) in l && e.ts <= l[PairOf(e)].ts then l else l[PairOf(e) := Stored(e)]
  }

  /** The batch applied row by row, without the per-batch collapse of the original. */
  function UpsertAll(l: LatestTable, batch: seq<Event>): LatestTable {
    if batch == [] then l
    else Upsert(UpsertAll(l, batch[..|batch| - 1]), batch[|batch| - 1])
  }

  lemma {:induction false} InsertAllConcat(t: Table, a: seq<Event>, b: seq<Event>)
    ensures InsertAll(t, a + b) == InsertAll(InsertAll(t, a), b)
  {
    if b == [] {
      assert a + b == a;
    } else {
      assert (a + b)[..|a + b| - 1] == a + b[..|b| - 1];
      InsertAllConcat(t, a, b[..|b| - 1]);
    }
  }

  lemma {:induction false} UpsertAllConcat(l: LatestTable, a: seq<Event>, b: seq<Event>)
    ensures UpsertAll(l, a + b) == UpsertAll(UpsertAll(l, a), b)
  {
    if b == [] {
      assert a + b == a;
    } else {
      assert (a + b)[..|a + b| - 1] == a + b[..|b| - 1];
      UpsertAllConcat(l, a, b[..|b| - 1]);
    }
  }

  lemma {:induction false} InsertAllWellKeyed(t: Table, batch: seq<Event>)
    requires WellKeyed(t)
    ensures WellKeyed(InsertAll(t, batch))
  {
    if batch == [] {
    } else {
      InsertAllWellKeyed(t, batch[..|batch| - 1]);
    }
  }

  /** A stored row is never overwritten, and every event of the batch ends up stored. */
  lemma {:induction false} InsertAllKeeps(t: Table, batch: seq<Event>)
    ensures forall id :: id in t ==> id in InsertAll(t, batch) && InsertAll(t, batch)[id] == t[id]
    ensures forall e :: e in batch ==> e.id in InsertAll(t, batch)
    ensures forall id :: id in InsertAll(t, batch) && id !in t ==>
              exists e :: e in batch && e.id == id && ReadsBack(InsertAll(t, batch)[id], e)
  {
    if batch == [] {
    } else {
      InsertAllKeeps(t, batch[..|batch| - 1]);
    }
  }

  ghost predicate FirstOfItsId(batch: seq<Event>, i: nat) {
    i < |batch| && forall j :: 0 <= j < i ==> batch[j].id != batch[i].id
  }

  /** A new id's row reads back as the first event that brought it. */
  ghost predicate NewRowsReadBack(t: Table, batch: seq<Event>, t': Table) {
    forall i: nat :: FirstOfItsId(batch, i) && batch[i].id !in t ==>
      batch[i].id in t' && ReadsBack(t'[batch[i].id], batch[i])
  }

  lemma {:induction false} FirstStays(t: Table, batch: seq<Event>, i: nat)
    requires FirstOfItsId(batch, i) && batch[i].id !in t
    ensures batch[i].id in InsertAll(t, batch) && ReadsBack(InsertAll(t, batch)[batch[i].id], batch[i])
  {
    var init, last := batch[..|batch| - 1], batch[|batch| - 1];
    if i < |init| {
      assert FirstOfItsId(init, i);
      FirstStays(t, init, i);
    } else {
      InsertAllKeeps(t, init);
    }
  }

  lemma {:induction false} FirstsStay(t: Table, batch: seq<Event>)
    ensures NewRowsReadBack(t, batch, InsertAll(t, batch))
  {
    forall i: nat | FirstOfItsId(batch, i) && batch[i].id !in t
      ensures batch[i].id in InsertAll(t, batch) && ReadsBack(InsertAll(t, batch)[batch[i].id], batch[i])
    {
      FirstStays(t, batch, i);
    }
  }

  // ----- the rows of one (source, kind) pair, oldest first -----

  function PairKeys(t: Table, p: Pair): set<Key> {
    set id | id in t && PairOf(t[id]) == p :: KeyOf(t[id])
  }

  function Rows(t: Table, p: Pair): seq<Key> {
    Sorted(PairKeys(t, p))
  }

  function Ids(q: seq<Key>): set<EventId> {
    set k | k in q :: k.id
  }

  function DropOldest(t: Table, p: Pair, n: nat): Table
    requires n <= |Rows(t, p)|
  {
    t - Ids(Rows(t, p)[..n])
  }

  lemma {:induction false} RowsAreRows(t: Table, p: Pair)
    requires WellKeyed(t)
    ensures forall k :: k in Rows(t, p) <==> k.id in t && PairOf(t[k.id]) == p && KeyOf(t[k.id]) == k
  {
  }

  lemma {:induction false} IdsCardinality(t: Table, q: seq<Key>)
    requires WellKeyed(t) && Ascending(q)
    requires forall k :: k in q ==> k.id in t && KeyOf(t[k.id]) == k
    ensures |Ids(q)| == |q|
  {
    if q == [] {
      assert Ids(q) == {};
    } else {
      var rest := q[1..];
      IdsCardinality(t, rest);
      assert Ids(q) == {q[0].id} + Ids(rest) by {
        assert q == [q[0]] + rest;
      }
      assert q[0].id !in Ids(rest) by {
        forall i | 0 <= i < |rest| ensures rest[i].id != q[0].id {
          assert q[i + 1] == rest[i] && q[0] in q && q[i + 1] in q && Before(q[0], q[i + 1]);
        }
      }
    }
  }

  /** In a list of distinct keys taken from a table, an id occurs once. */
  lemma {:induction false} DropSeparates(t: Table, p: Pair, n: nat)
    requires WellKeyed(t) && n <= |Rows(t, p)|
    ensures forall k :: k in Rows(t, p)[n..] ==> k.id !in Ids(Rows(t, p)[..n])
    ensures Ids(Rows(t, p)[..n]) <= t.Keys
    ensures forall id :: id in Ids(Rows(t, p)[..n]) ==> PairOf(t[id]) == p
  {
    var q := Rows(t, p);
    RowsAreRows(t, p);
    forall k | k in q[n..] ensures k.id !in Ids(q[..n]) {
      var j :| n <= j < |q| && q[j] == k;
      forall i | 0 <= i < n ensures q[i].id != k.id {
        assert q[i] in q && q[j] in q && Before(q[i], q[j]);
      }
    }
    forall id | id in Ids(q[..n]) ensures id in t && PairOf(t[id]) == p {
      var k :| k in q[..n] && k.id == id;
      assert k in q;
    }
  }

  lemma {:induction false} RowsMember(t: Table, p: Pair, k: Key)
    requires WellKeyed(t)
    ensures k in Rows(t, p) <==> k.id in t && PairOf(t[k.id]) == p && KeyOf(t[k.id]) == k
  {
    RowsAreRows(t, p);
  }

  lemma {:induction false} DropOldestMember(t: Table, p: Pair, n: nat, k: Key)
    requires WellKeyed(t) && n <= |Rows(t, p)|
    ensures WellKeyed(DropOldest(t, p, n))
    ensures k in Rows(DropOldest(t, p, n), p) <==> k in Rows(t, p)[n..]
  {
    var q := Rows(t, p);
    RowsMember(t, p, k);
    RowsMember(DropOldest(t, p, n), p, k);
    DropSeparates(t, p, n);
    assert k in q <==> k in q[..n] || k in q[n..] by { assert q == q[..n] + q[n..]; }
  }

  /** Dropping the n oldest rows of a pair cuts that pair's row list ... */
  lemma {:induction false} DropOldestRows(t: Table, p: Pair, n: nat)
    requires WellKeyed(t) && n <= |Rows(t, p)|
    ensures WellKeyed(DropOldest(t, p, n))
    ensures Rows(DropOldest(t, p, n), p) == Rows(t, p)[n..]
  {
    forall k ensures k in Rows(DropOldest(t, p, n), p) <==> k in Rows(t, p)[n..] {
      DropOldestMember(t, p, n, k);
    }
    AscendingUnique(Rows(DropOldest(t, p, n), p), Rows(t, p)[n..]);
  }

  lemma {:induction false} DropOldestSize(t: Table, p: Pair, n: nat)
    requires WellKeyed(t) && n <= |Rows(t, p)|
    ensures |DropOldest(t, p, n)| == |t| - n
  {
    var q := Rows(t, p)[..n];
    forall k | k in q ensures k.id in t && KeyOf(t[k.id]) == k {
      assert k in Rows(t, p);
      RowsMember(t, p, k);
    }
    IdsCardinality(t, q);
    DropSeparates(t, p, n);
    MinusSize(t, Ids(q));
  }

  /** ... and nothing else. */
  lemma {:induction false} OtherPairUntouched(t: Table, p: Pair, n: nat, o: Pair)
    requires WellKeyed(t) && n <= |Rows(t, p)| && o != p
    ensures Rows(DropOldest(t, p, n), o) == Rows(t, o)
    ensures forall id :: id in t && PairOf(t[id]) == o ==> id in DropOldest(t, p, n)
  {
    var d := DropOldest(t, p, n);
    DropSeparates(t, p, n);
    RowsAreRows(t, o);
    RowsAreRows(d, o);
    forall id | id in t && PairOf(t[id]) == o ensures id in d {
      assert id !in Ids(Rows(t, p)[..n]);
    }
    AscendingUnique(Rows(d, o), Rows(t, o));
  }

  lemma {:induction false} MinusSize<K, V>(m: map<K, V>, ids: set<K>)
    requires ids <= m.Keys
    ensures |m - ids| == |m| - |ids|
  {
    assert (m - ids).Keys == m.Keys - ids;
  }

  lemma {:induction false} DropNothing(t: Table, p: Pair)
    ensures DropOldest(t, p, 0) == t
  {
    assert Ids(Rows(t, p)[..0]) == {};
  }

  lemma {:induction false} IdsConcat(a: seq<Key>, b: seq<Key>)
    ensures Ids(a + b) == Ids(a) + Ids(b)
  {
    forall id | id in Ids(a) + Ids(b) ensures id in Ids(a + b) {
      var k :| (k in a || k in b) && k.id == id;
      assert k in a + b;
    }
  }

  lemma {:induction false} IdsSplit(q: seq<Key>, m: nat, n: nat)
    requires m + n <= |q|
    ensures Ids(q[..m + n]) == Ids(q[..m]) + Ids(q[m..][..n])
  {
    assert q[..m + n] == q[..m] + q[m..][..n];
    IdsConcat(q[..m], q[m..][..n]);
  }

  lemma {:induction false} MinusTwice(t: Table, a: set<EventId>, b: set<EventId>)
    ensures t - a - b == t - (a + b)
  {
  }

  /** Two drops in a row are one drop of the sum. */
  lemma {:induction false} DropTwice(t: Table, p: Pair, m: nat, n: nat)
    requires WellKeyed(t) && m + n <= |Rows(t, p)|
    ensures |Rows(DropOldest(t, p, m), p)| == |Rows(t, p)| - m
    ensures DropOldest(DropOldest(t, p, m), p, n) == DropOldest(t, p, m + n)
  {
    var q := Rows(t, p);
    DropOldestRows(t, p, m);
    IdsSplit(q, m, n);
    MinusTwice(t, Ids(q[..m]), Ids(q[m..][..n]));
  }

  // ----- how many rows each retention dimension condemns -----

  /** Rows strictly older than the cutoff: they lead the list. */
  function Expired(q: seq<Key>, cutoff: int): nat {
    if q == [] || q[0].ts >= cutoff then 0 else 1 + Expired(q[1..], cutoff)
  }

  /** Rows beyond the newest `keep`. */
  function Surplus(q: seq<Key>, keep: int): nat {
    Min(|q|, Max(0, |q| - keep))
  }

  function Weight(t: Table, q: seq<Key>): nat
    requires forall k :: k in q ==> k.id in t
  {
    if q == [] then 0 else |t[q[0].id].semantic| + Weight(t, q[1..])
  }

  /** Rows from which on (counting from the newest) the running size exceeds the
      budget. The running sum is an i64 and saturates. */
  function Oversize(t: Table, q: seq<Key>, budget: int): nat
    requires forall k :: k in q ==> k.id in t
  {
    if q == [] || Min(Weight(t, q), I64_MAX) <= budget then 0
    else 1 + Oversize(t, q[1..], budget)
  }

  lemma {:induction false} ExpiredSplits(q: seq<Key>, cutoff: int)
    requires Ascending(q)
    ensures Expired(q, cutoff) <= |q|
    ensures forall i :: 0 <= i < |q| ==> (q[i].ts < cutoff <==> i < Expired(q, cutoff))
  {
    if q == [] {
    } else {
      ExpiredSplits(q[1..], cutoff);
      forall i | 0 <= i < |q| ensures q[i].ts < cutoff <==> i < Expired(q, cutoff) {
        assert 0 < i ==> q[i] == q[1..][i - 1];
        assert 0 < i ==> Before(q[0], q[i]);
      }
    }
  }

  lemma {:induction false} OversizeWithin(t: Table, q: seq<Key>, budget: int)
    requires forall k :: k in q ==> k.id in t
    ensures Oversize(t, q, budget) <= |q|
  {
    if q == [] {
    } else {
      OversizeWithin(t, q[1..], budget);
    }
  }

  lemma {:induction false} OversizeAt(t: Table, q: seq<Key>, budget: int, i: nat)
    requires i < |q| && forall k :: k in q ==> k.id in t
    ensures Min(Weight(t, q[i..]), I64_MAX) > budget <==> i < Oversize(t, q, budget)
  {
    if i == 0 {
      assert q[0..] == q;
    } else {
      OversizeAt(t, q[1..], budget, i - 1);
      WeightShrinks(t, q, i);
      assert q[i..] == q[1..][i - 1..];
    }
  }

  lemma {:induction false} OversizeSplits(t: Table, q: seq<Key>, budget: int)
    requires forall k :: k in q ==> k.id in t
    ensures Oversize(t, q, budget) <= |q|
    ensures forall i :: 0 <= i < |q| ==>
              (Min(Weight(t, q[i..]), I64_MAX) > budget <==> i < Oversize(t, q, budget))
  {
    OversizeWithin(t, q, budget);
    forall i | 0 <= i < |q| ensures Min(Weight(t, q[i..]), I64_MAX) > budget <==> i < Oversize(t, q, budget) {
      OversizeAt(t, q, budget, i);
    }
  }

  lemma {:induction false} WeightShrinks(t: Table, q: seq<Key>, i: nat)
    requires forall k :: k in q ==> k.id in t
    requires i <= |q|
    ensures Weight(t, q[i..]) <= Weight(t, q)
  {
    if i == 0 {
      assert q[0..] == q;
    } else {
      assert q[i..] == q[1..][i - 1..];
      WeightShrinks(t, q[1..], i - 1);
    }
  }

  // After n of the oldest rows are gone, each dimension condemns n fewer (at least 0).

  lemma {:induction false} ExpiredAfterDrop(q: seq<Key>, cutoff: int, n: nat)
    requires Ascending(q) && n <= |q|
    ensures Expired(q[n..], cutoff) == Max(0, Expired(q, cutoff) - n)
  {
    ExpiredSplits(q, cutoff);
    ExpiredSplits(q[n..], cutoff);
    var a := Expired(q, cutoff);
    var a' := Expired(q[n..], cutoff);
    assert n + a' < |q| ==> q[n + a'] == q[n..][a'];
    assert a' > 0 ==> q[n + a' - 1] == q[n..][a' - 1];
    assert n <= a < |q| ==> q[a] == q[n..][a - n];
  }

  lemma {:induction false} OversizeAfterDrop(t: Table, q: seq<Key>, budget: int, n: nat)
    requires n <= |q|
    requires forall k :: k in q ==> k.id in t
    ensures Oversize(t, q[n..], budget) == Max(0, Oversize(t, q, budget) - n)
    decreases n
  {
    if n == 0 {
      assert q[0..] == q;
    } else {
      assert q[n..] == q[1..][n - 1..];
      OversizeAfterDrop(t, q[1..], budget, n - 1);
      if Oversize(t, q, budget) == 0 {
        WeightShrinks(t, q, 1);
      }
    }
  }

  lemma {:induction false} WeightDepends(t: Table, t': Table, q: seq<Key>)
    requires forall k :: k in q ==> k.id in t && k.id in t' && t'[k.id] == t[k.id]
    ensures Weight(t', q) == Weight(t, q)
  {
    if q == [] {
    } else {
      assert q[0] in q;
      WeightDepends(t, t', q[1..]);
    }
  }

  lemma {:induction false} OversizeDepends(t: Table, t': Table, q: seq<Key>, budget: int)
    requires forall k :: k in q ==> k.id in t && k.id in t' && t'[k.id] == t[k.id]
    ensures Oversize(t', q, budget) == Oversize(t, q, budget)
  {
    WeightDepends(t, t', q);
    if q == [] {
    } else {
      OversizeDepends(t, t', q[1..], budget);
    }
  }

  lemma {:induction false} OneRow(p: Pair, e: Event)
    requires PairOf(e) == p
    ensures Rows(map[e.id := e], p) == [KeyOf(e)]
  {
    var t := map[e.id := e];
    RowsAreRows(t, p);
    AscendingUnique(Rows(t, p), [KeyOf(e)]);
  }

  lemma {:induction false} OlderRowLeads(t: Table, p: Pair, cutoff: int, id: EventId)
    requires WellKeyed(t) && id in t && PairOf(t[id]) == p && t[id].ts < cutoff
    ensures Expired(Rows(t, p), cutoff) <= |Rows(t, p)|
    ensures id in Ids(Rows(t, p)[..Expired(Rows(t, p), cutoff)])
  {
    var q := Rows(t, p);
    RowsMember(t, p, KeyOf(t[id]));
    ExpiredSplits(q, cutoff);
    var i :| 0 <= i < |q| && q[i] == KeyOf(t[id]);
    assert q[i] in q[..Expired(q, cutoff)];
  }

  lemma {:induction false} LeadingRowIsOlder(t: Table, p: Pair, cutoff: int, i: nat)
    requires WellKeyed(t) && Expired(Rows(t, p), cutoff) <= |Rows(t, p)| && i < Expired(Rows(t, p), cutoff)
    ensures var id := Rows(t, p)[i].id; id in t && PairOf(t[id]) == p && t[id].ts < cutoff
  {
    ExpiredSplits(Rows(t, p), cutoff);
    assert Rows(t, p)[i] in Rows(t, p);
    RowsMember(t, p, Rows(t, p)[i]);
  }

  /** DELETE ... WHERE source_id = ? AND kind = ? AND ts_ms_utc < ? takes the expired prefix. */
  lemma {:induction false} OlderRowsLead(t: Table, p: Pair, cutoff: int)
    requires WellKeyed(t)
    ensures Expired(Rows(t, p), cutoff) <= |Rows(t, p)|
    ensures (set id | id in t && PairOf(t[id]) == p && t[id].ts < cutoff)
            == Ids(Rows(t, p)[..Expired(Rows(t, p), cutoff)])
  {
    var q := Rows(t, p);
    ExpiredSplits(q, cutoff);
    var a := Expired(q, cutoff);
    forall id | id in t && PairOf(t[id]) == p && t[id].ts < cutoff ensures id in Ids(q[..a]) {
      OlderRowLeads(t, p, cutoff, id);
    }
    forall id | id in Ids(q[..a]) ensures id in t && PairOf(t[id]) == p && t[id].ts < cutoff {
      var k :| k in q[..a] && k.id == id;
      var i :| 0 <= i < a && q[i] == k;
      LeadingRowIsOlder(t, p, cutoff, i);
    }
  }
}
