/** The vector index: a SQLite table of embeddings and the in-memory mirror searches read. */
module VectorIndex {
  import opened Prelude
  import opened Events

  datatype VectorRecord = VectorRecord(
    id: EventId, source: string, kind: string, ts: int, truncated: bool, model: string, vector: seq<real>)

  /** A mirrored row; the model id is not kept in memory. */
  datatype MirrorRow = MirrorRow(
    id: EventId, source: string, kind: string, ts: int, truncated: bool, vector: seq<real>)

  datatype VectorError =
    | ModelMismatch(stored: string, running: string)
    | DimMismatch(storedDim: nat, runningDim: nat)
    | Undecodable

  type VectorTable = map<EventId, VectorRecord>

  function ToRow(r: VectorRecord): MirrorRow {
    MirrorRow(r.id, r.source, r.kind, r.ts, r.truncated, r.vector)
  }

  /** INSERT OR REPLACE, record by record: the last record of an id wins. */
  function PutAll(t: VectorTable, records: seq<VectorRecord>): VectorTable {
    if records == [] then t
    else PutAll(t, records[..|records| - 1])[records[|records| - 1].id := records[|records| - 1]]
  }

  /** Index of the first mirrored row with that id, or the length if there is none. */
  function Position(rows: seq<MirrorRow>, id: EventId): nat {
    if rows == [] || rows[0].id == id then 0 else 1 + Position(rows[1..], id)
  }

  /** Replace the row with this id in place, or push a new one. */
  function Reflect(rows: seq<MirrorRow>, r: VectorRecord): seq<MirrorRow> {
    if Position(rows, r.id) < |rows| then rows[Position(rows, r.id) := ToRow(r)] else rows + [ToRow(r)]
  }

  function ReflectAll(rows: seq<MirrorRow>, records: seq<VectorRecord>): seq<MirrorRow> {
    if records == [] then rows
    else Reflect(ReflectAll(rows, records[..|records| - 1]), records[|records| - 1])
  }

  predicate Expires(p: Pair, cutoff: int, row: MirrorRow) {
    row.source == p.source && row.kind == p.kind && row.ts < cutoff
  }

  function DeleteOlder(t: VectorTable, p: Pair, cutoff: int): VectorTable {
    map id | id in t && !Expires(p, cutoff, ToRow(t[id])) :: t[id]
  }

  /** Of the pair's records exactly those before the cutoff are gone, and nothing else changed. */
  ghost predicate LacksOlder(t: VectorTable, p: Pair, cutoff: int, t': VectorTable) {
    forall id :: (id in t' <==> id in t && !(t[id].source == p.source && t[id].kind == p.kind && t[id].ts < cutoff)) &&
                 (id in t' ==> t'[id] == t[id])
  }

  function Retain(rows: seq<MirrorRow>, p: Pair, cutoff: int): seq<MirrorRow> {
    if rows == [] then []
    else (if Expires(p, cutoff, rows[0]) then [] else [rows[0]]) + Retain(rows[1..], p, cutoff)
  }

  /** What a mirrored row shows of the record it stands for: everything but the model id. */
  ghost predicate Shows(x: MirrorRow, r: VectorRecord) {
    x.id == r.id && x.source == r.source && x.kind == r.kind && x.ts == r.ts &&
    x.truncated == r.truncated && x.vector == r.vector
  }

  // ----- what these do to the set of mirrored rows -----

  ghost predicate UniqueIds(rows: seq<MirrorRow>) {
    forall i, j :: 0 <= i < j < |rows| ==> rows[i].id != rows[j].id
  }

  ghost predicate Keyed(t: VectorTable) {
    forall id :: id in t ==> t[id].id == id
  }

  lemma {:induction false} PositionFinds(rows: seq<MirrorRow>, id: EventId)
    ensures Position(rows, id) <= |rows|
    ensures Position(rows, id) < |rows| ==> rows[Position(rows, id)].id == id
    ensures forall i :: 0 <= i < Position(rows, id) ==> rows[i].id != id
  {
    if rows != [] && rows[0].id != id {
      PositionFinds(rows[1..], id);
      forall i | 0 <= i < Position(rows, id) ensures rows[i].id != id {
        assert 0 < i ==> rows[i] == rows[1..][i - 1];
      }
    }
  }

  lemma {:induction false} ReflectMembers(rows: seq<MirrorRow>, r: VectorRecord)
    requires UniqueIds(rows)
    ensures UniqueIds(Reflect(rows, r))
    ensures forall x :: x in Reflect(rows, r) <==> x == ToRow(r) || (x in rows && x.id != r.id)
  {
    PositionFinds(rows, r.id);
    var k := Position(rows, r.id);
    var after := Reflect(rows, r);
    forall x ensures x in after <==> x == ToRow(r) || (x in rows && x.id != r.id) {
      if x in rows && x.id != r.id {
        var i :| 0 <= i < |rows| && rows[i] == x;
        assert after[i] == x;
      }
      if x in after {
        var i :| 0 <= i < |after| && after[i] == x;
        assert i != k ==> rows[i] == x;
      }
      if k < |rows| { assert after[k] == ToRow(r); } else { assert after[|rows|] == ToRow(r); }
    }
  }

  /** The mirror update in terms of the batch's final content. */
  lemma {:induction false} ReflectAllMembers(rows: seq<MirrorRow>, records: seq<VectorRecord>)
    requires UniqueIds(rows)
    ensures UniqueIds(ReflectAll(rows, records))
    ensures var batch := PutAll(map[], records);
            forall x :: x in ReflectAll(rows, records)
              <==> if x.id in batch then x == ToRow(batch[x.id]) else x in rows
  {
    if records == [] {
    } else {
      var init, r := records[..|records| - 1], records[|records| - 1];
      ReflectAllMembers(rows, init);
      ReflectMembers(ReflectAll(rows, init), r);
    }
  }

  lemma {:induction false} PutAllMerges(t: VectorTable, records: seq<VectorRecord>)
    ensures PutAll(t, records) == t + PutAll(map[], records)
    ensures Keyed(PutAll(map[], records))
    ensures forall id :: id in PutAll(map[], records) ==> PutAll(map[], records)[id] in records
    ensures forall r :: r in records ==> r.id in PutAll(map[], records)
  {
    if records == [] {
    } else {
      PutAllMerges(t, records[..|records| - 1]);
    }
  }

  ghost function IdsIn(records: seq<VectorRecord>): set<EventId> {
    set r | r in records :: r.id
  }

  ghost predicate LastOfItsId(records: seq<VectorRecord>, i: nat) {
    i < |records| && forall j :: i < j < |records| ==> records[j].id != records[i].id
  }

  /** The last record of each id in the batch is stored as it came; other ids are left alone. */
  ghost predicate Holds(t: VectorTable, records: seq<VectorRecord>, t': VectorTable) {
    t'.Keys == t.Keys + IdsIn(records) &&
    (forall id :: id in t && id !in IdsIn(records) ==> t'[id] == t[id]) &&
    (forall i: nat :: LastOfItsId(records, i) ==> t'[records[i].id] == records[i])
  }

  lemma {:induction false} PutAllKeys(t: VectorTable, records: seq<VectorRecord>)
    ensures PutAll(t, records).Keys == t.Keys + IdsIn(records)
    ensures forall id :: id in t && id !in IdsIn(records) ==> PutAll(t, records)[id] == t[id]
  {
    if records == [] {
    } else {
      var init, last := records[..|records| - 1], records[|records| - 1];
      assert records == init + [last];
      assert IdsIn(records) == IdsIn(init) + {last.id};
      PutAllKeys(t, init);
    }
  }

  lemma {:induction false} PutAllLast(t: VectorTable, records: seq<VectorRecord>, i: nat)
    requires LastOfItsId(records, i)
    ensures records[i].id in PutAll(t, records) && PutAll(t, records)[records[i].id] == records[i]
  {
    if i < |records| - 1 {
      assert LastOfItsId(records[..|records| - 1], i);
      PutAllLast(t, records[..|records| - 1], i);
    }
  }

  lemma {:induction false} PutAllHolds(t: VectorTable, records: seq<VectorRecord>)
    ensures Holds(t, records, PutAll(t, records))
  {
    PutAllKeys(t, records);
    forall i: nat | LastOfItsId(records, i) ensures PutAll(t, records)[records[i].id] == records[i] {
      PutAllLast(t, records, i);
    }
  }

  lemma {:induction false} RetainMembers(rows: seq<MirrorRow>, p: Pair, cutoff: int)
    ensures forall x :: x in Retain(rows, p, cutoff) <==> x in rows && !Expires(p, cutoff, x)
    ensures UniqueIds(rows) ==> UniqueIds(Retain(rows, p, cutoff))
  {
    if rows == [] {
    } else {
      var rest := Retain(rows[1..], p, cutoff);
      RetainMembers(rows[1..], p, cutoff);
      assert rows == [rows[0]] + rows[1..];
      if UniqueIds(rows) {
        forall x | x in rest ensures x.id != rows[0].id {
          var i :| 0 <= i < |rows[1..]| && rows[1..][i] == x;
          assert rows[i + 1] == x;
        }
      }
    }
  }

  // ----- loading the table at start-up -----

  /** One listing of the table; SQLite promises no order here. */
  ghost predicate Lists(order: seq<VectorRecord>, t: VectorTable) {
    (forall i, j :: 0 <= i < j < |order| ==> order[i].id != order[j].id) &&
    (forall r :: r in order <==> r.id in t && t[r.id] == r)
  }

  function ToRows(order: seq<VectorRecord>): seq<MirrorRow> {
    if order == [] then [] else [ToRow(order[0])] + ToRows(order[1..])
  }

  /** Only the first row read is compared with the running embedder. */
  function Load(order: seq<VectorRecord>, model: string, dim: nat): Result<seq<MirrorRow>, VectorError> {
    if order == [] then Ok([])
    else if order[0].model != model then Err(ModelMismatch(order[0].model, model))
    else if |order[0].vector| != dim then Err(DimMismatch(|order[0].vector|, dim))
    else Ok(ToRows(order))
  }

  lemma {:induction false} ToRowsSnoc(order: seq<VectorRecord>, r: VectorRecord)
    ensures ToRows(order + [r]) == ToRows(order) + [ToRow(r)]
  {
    if order == [] {
      assert order + [r] == [r];
    } else {
      assert (order + [r])[1..] == order[1..] + [r];
      ToRowsSnoc(order[1..], r);
    }
  }

  lemma {:induction false} ToRowsMembers(order: seq<VectorRecord>)
    ensures |ToRows(order)| == |order|
    ensures forall i :: 0 <= i < |order| ==> ToRows(order)[i] == ToRow(order[i])
  {
    if order == [] {
    } else {
      ToRowsMembers(order[1..]);
    }
  }

  /** The records in front of the first row that does not decode. */
  function Decoded(raw: seq<Option<VectorRecord>>): seq<VectorRecord> {
    if raw == [] || raw[0].None? then [] else [raw[0].value] + Decoded(raw[1..])
  }

  lemma {:induction false} DecodedPrefix(raw: seq<Option<VectorRecord>>, n: nat)
    requires n <= |raw| && forall j :: 0 <= j < n ==> raw[j].Some?
    ensures |Decoded(raw[..n])| == n && forall j :: 0 <= j < n ==> Decoded(raw[..n])[j] == raw[j].value
  {
    if n == 0 {
    } else {
      assert raw[..n][1..] == raw[1..][..n - 1];
      DecodedPrefix(raw[1..], n - 1);
    }
  }

  lemma {:induction false} DecodedSnoc(raw: seq<Option<VectorRecord>>, n: nat)
    requires n < |raw| && forall j :: 0 <= j <= n ==> raw[j].Some?
    ensures Decoded(raw[..n + 1]) == Decoded(raw[..n]) + [raw[n].value]
  {
    DecodedPrefix(raw, n);
    DecodedPrefix(raw, n + 1);
  }

  /** The loading loop, as written: decode and collect rows, remember the first row's model and
      dimension, compare at the end. */
  method LoadRows(raw: seq<Option<VectorRecord>>, model: string, dim: nat)
    returns (r: Result<seq<MirrorRow>, VectorError>)
    ensures r == if None in raw then Err(Undecodable) else Load(Decoded(raw), model, dim)
  {
    var out: seq<MirrorRow> := [];
    var seenModel: Option<string> := None;
    var seenDim: Option<nat> := None;
    for i := 0 to |raw|
      invariant forall j :: 0 <= j < i ==> raw[j].Some?
      invariant out == ToRows(Decoded(raw[..i]))
      invariant seenModel == if i == 0 then None else Some(raw[0].value.model)
      invariant seenDim == if i == 0 then None else Some(|raw[0].value.vector|)
    {
      if raw[i].None? {
        return Err(Undecodable);
      }
      var record := raw[i].value;
      if seenModel.None? {
        seenModel := Some(record.model);
        seenDim := Some(|record.vector|);
      }
      DecodedSnoc(raw, i);
      ToRowsSnoc(Decoded(raw[..i]), record);
      out := out + [ToRow(record)];
    }
    assert raw[..|raw|] == raw;
    if seenModel.Some? && seenModel.value != model {
      return Err(ModelMismatch(seenModel.value, model));
    }
    if seenDim.Some? && seenDim.value != dim {
      return Err(DimMismatch(seenDim.value, dim));
    }
    return Ok(out);
  }

  class VectorIndex {
    var table: VectorTable
    var rows: seq<MirrorRow>

    /** The mirror holds exactly the table's rows. */
    ghost predicate InStep()
      reads this
    {
      Agree(table, rows)
    }

    constructor (stored: VectorTable, loaded: seq<MirrorRow>)
      ensures table == stored && rows == loaded
    {
      table, rows := stored, loaded;
    }

    /** The part of `append` under the connection lock alone. */
    method Commit(records: seq<VectorRecord>)
      modifies this`table
      ensures table == PutAll(old(table), records)
    {
      for i := 0 to |records|
        invariant table == PutAll(old(table), records[..i])
      {
        assert records[..i + 1][..i] == records[..i];
        table := table[records[i].id := records[i]];
      }
      assert records[..|records|] == records;
    }

    /** The part of `append` under both locks. */
    method Mirror(records: seq<VectorRecord>)
      modifies this`rows
      ensures rows == ReflectAll(old(rows), records)
    {
      for i := 0 to |records|
        invariant rows == ReflectAll(old(rows), records[..i])
      {
        assert records[..i + 1][..i] == records[..i];
        var r := records[i];
        var k := 0;
        while k < |rows| && rows[k].id != r.id
          invariant 0 <= k <= |rows|
          invariant Position(rows, r.id) == k + Position(rows[k..], r.id)
        {
          assert rows[k..][1..] == rows[k + 1..];
          k := k + 1;
        }
        PositionFinds(rows, r.id);
        if k < |rows| {
          rows := rows[k := ToRow(r)];
        } else {
          rows := rows + [ToRow(r)];
        }
      }
      assert records[..|records|] == records;
    }

    /** Uninterrupted append. */
    method Append(records: seq<VectorRecord>)
      modifies this
      ensures old(InStep()) ==> InStep()
      ensures Holds(old(table), records, table)
      ensures table == PutAll(old(table), records) && rows == ReflectAll(old(rows), records)
    {
      PutAllHolds(old(table), records);
      if records == [] {
        return;
      }
      Commit(records);
      Mirror(records);
      if old(InStep()) {
        AppendKeepsAgreement(old(table), old(rows), records);
      }
    }

    /** The part of a sweep under the connection lock; a dry run only counts. */
    method Delete(p: Pair, cutoff: int, dryRun: bool) returns (n: nat)
      modifies this`table
      ensures n == |old(table)| - |DeleteOlder(old(table), p, cutoff)|
      ensures table == if dryRun then old(table) else DeleteOlder(old(table), p, cutoff)
      ensures !dryRun ==> LacksOlder(old(table), p, cutoff, table)
    {
      var doomed := set id | id in table && Expires(p, cutoff, ToRow(table[id]));
      n := |doomed|;
      assert DeleteOlder(table, p, cutoff).Keys == table.Keys - doomed;
      if !dryRun {
        table := table - doomed;
      }
    }

    /** The part of a sweep under the mirror's lock alone. */
    method Prune(p: Pair, cutoff: int)
      modifies this`rows
      ensures rows == Retain(old(rows), p, cutoff)
    {
      var kept: seq<MirrorRow> := [];
      assert rows[0..] == rows;
      for i := 0 to |rows|
        invariant rows == old(rows)
        invariant kept + Retain(rows[i..], p, cutoff) == Retain(rows, p, cutoff)
      {
        assert rows[i..][1..] == rows[i + 1..];
        if !Expires(p, cutoff, rows[i]) {
          kept := kept + [rows[i]];
        }
      }
      rows := kept;
    }

    /** Uninterrupted sweep. */
    method SweepMaxAge(p: Pair, cutoff: int, dryRun: bool) returns (n: nat)
      modifies this
      ensures old(InStep()) ==> InStep()
      ensures n == |old(table)| - |DeleteOlder(old(table), p, cutoff)|
      ensures table == if dryRun then old(table) else DeleteOlder(old(table), p, cutoff)
      ensures !dryRun ==> LacksOlder(old(table), p, cutoff, table)
      ensures rows == if dryRun then old(rows) else Retain(old(rows), p, cutoff)
    {
      n := Delete(p, cutoff, dryRun);
      if !dryRun {
        Prune(p, cutoff);
        if old(InStep()) {
          SweepKeepsAgreement(old(table), old(rows), p, cutoff);
        }
      }
    }
  }

  // ----- table and mirror in exact agreement -----

  ghost predicate Agree(t: VectorTable, rows: seq<MirrorRow>) {
    Keyed(t) && UniqueIds(rows) &&
    forall x :: x in rows <==> x.id in t && Shows(x, t[x.id])
  }

  lemma {:induction false} LoadAgrees(t: VectorTable, order: seq<VectorRecord>)
    requires Keyed(t) && Lists(order, t)
    ensures Agree(t, ToRows(order))
  {
    var rows := ToRows(order);
    ToRowsMembers(order);
    forall x ensures x in rows <==> x.id in t && Shows(x, t[x.id]) {
      if x in rows {
        var i :| 0 <= i < |rows| && rows[i] == x;
        assert order[i] in order;
      }
      if x.id in t && Shows(x, t[x.id]) {
        assert t[x.id] in order;
        var i :| 0 <= i < |order| && order[i] == t[x.id];
        assert rows[i] == x;
      }
    }
  }

  lemma {:induction false} AppendKeepsAgreement(t: VectorTable, rows: seq<MirrorRow>, records: seq<VectorRecord>)
    requires Agree(t, rows)
    ensures Agree(PutAll(t, records), ReflectAll(rows, records))
  {
    PutAllMerges(t, records);
    ReflectAllMembers(rows, records);
  }

  lemma {:induction false} SweepKeepsAgreement(t: VectorTable, rows: seq<MirrorRow>, p: Pair, cutoff: int)
    requires Agree(t, rows)
    ensures Agree(DeleteOlder(t, p, cutoff), Retain(rows, p, cutoff))
  {
    RetainMembers(rows, p, cutoff);
  }
}
