/** What a search answers, in terms of the records that are stored. */
module VectorAnswers {
  import opened Prelude
  import opened Events
  import opened Sorting
  import opened VectorIndex
  import opened VectorProtocol
  import opened VectorSearch

  /** The record lies in the filter's time range and both its names are selected. */
  ghost predicate Asked(f: VectorFilter, r: VectorRecord) {
    (f.start.Some? ==> f.start.value <= r.ts) && (f.end.Some? ==> r.ts < f.end.value) &&
    (f.sourceGlobs.Some? ==> f.sourceGlobs.value(r.source)) && (f.kindGlobs.Some? ==> f.kindGlobs.value(r.kind))
  }

  /** The hit describes this record, scored by its own vector. */
  ghost predicate HitOf(h: SearchHit, r: VectorRecord, similarity: seq<real> -> real) {
    h.id == r.id && h.source == r.source && h.kind == r.kind && h.ts == r.ts && h.truncated == r.truncated &&
    h.score == similarity(r.vector)
  }

  ghost predicate Returned(result: seq<SearchHit>, id: EventId) {
    exists h :: h in result && h.id == id
  }

  /** Every hit is a stored record that was asked for, no record twice, best first. */
  ghost predicate Genuine(t: VectorTable, f: VectorFilter, similarity: seq<real> -> real, result: seq<SearchHit>) {
    (forall h :: h in result ==> h.id in t && HitOf(h, t[h.id], similarity) && Asked(f, t[h.id])) &&
    DistinctIds(result) && forall i, j :: 0 <= i < j < |result| ==> result[i].score >= result[j].score
  }

  /** A record that was asked for and is not among the hits gave way to k others that score no less. */
  ghost predicate Complete(t: VectorTable, f: VectorFilter, similarity: seq<real> -> real, k: nat,
                           result: seq<SearchHit>)
  {
    |result| <= k &&
    forall id :: id in t && Asked(f, t[id]) && !Returned(result, id) ==>
      |result| == k && forall h :: h in result ==> h.score >= similarity(t[id].vector)
  }

  lemma {:induction false} HitsAreGenuine(t: VectorTable, rows: seq<MirrorRow>, f: VectorFilter,
                                          similarity: seq<real> -> real, k: nat, result: seq<SearchHit>)
    requires UniqueIds(rows) && forall x :: x in rows ==> x.id in t && Shows(x, t[x.id])
    requires TopK(result, Hits(rows, f, similarity), k) && SortedBy(result, AtLeast)
    ensures Genuine(t, f, similarity, result)
  {
    ResultRowsDistinct(rows, f, similarity, result, k);
  }

  lemma {:induction false} HitsAreComplete(t: VectorTable, rows: seq<MirrorRow>, f: VectorFilter,
                                           similarity: seq<real> -> real, k: nat, result: seq<SearchHit>)
    requires Agree(t, rows) && TopK(result, Hits(rows, f, similarity), k)
    ensures Complete(t, f, similarity, k, result)
  {
    forall id | id in t && Asked(f, t[id]) && !Returned(result, id)
      ensures |result| == k && forall h :: h in result ==> h.score >= similarity(t[id].vector)
    {
      LeftOut(t, rows, f, similarity, k, result, id);
    }
  }

  lemma {:induction false} LeftOut(t: VectorTable, rows: seq<MirrorRow>, f: VectorFilter,
                                   similarity: seq<real> -> real, k: nat, result: seq<SearchHit>, id: EventId)
    requires Agree(t, rows) && TopK(result, Hits(rows, f, similarity), k)
    requires id in t && Asked(f, t[id]) && !Returned(result, id)
    ensures |result| == k && forall h :: h in result ==> h.score >= similarity(t[id].vector)
  {
    var hits, row := Hits(rows, f, similarity), ToRow(t[id]);
    var hit := ToHit(row, similarity);
    HitsComeFromRows(rows, f, similarity);
    assert Shows(row, t[id]) && row in rows && Passes(f, row);
    assert hit in hits && hit !in result;
    assert hit in multiset(hits) - multiset(result);
    assert |multiset(hits) - multiset(result)| == |hits| - |result|;
  }

  /** A search after any run, with nothing in flight: each hit is a stored record with the score of its
      own vector; and if the run's appends were safe, the hits are the best k of the whole table. */
  method SearchAfter(steps: seq<Step>, similarity: seq<real> -> real, k: nat, f: VectorFilter)
    returns (result: seq<SearchHit>)
    requires Legal(steps) && Quiet(Exec(steps)) && k >= 1
    ensures Genuine(Exec(steps).table, f, similarity, result)
    ensures SafeRun(steps) ==> Complete(Exec(steps).table, f, similarity, k, result)
  {
    var s := Exec(steps);
    result := SearchKn(s.rows, similarity, k, f);
    QuietMirrorAgrees(steps);
    HitsAreGenuine(s.table, s.rows, f, similarity, k, result);
    if SafeRun(steps) {
      SafeRunsStayInStep(steps);
      HitsAreComplete(s.table, s.rows, f, similarity, k, result);
    }
  }
}
