/** Filtered nearest-neighbour search: one pass that keeps the k best so far by replacing
    the worst, against sorting everything and taking k. Scores are exact reals. */
module VectorSearch {
  import opened Prelude
  import opened Events
  import opened Sorting
  import opened VectorIndex

  datatype SearchHit = SearchHit(
    id: EventId, source: string, kind: string, ts: int, truncated: bool, score: real)

  /** Compiled glob sets are arbitrary predicates here. */
  datatype VectorFilter = VectorFilter(
    start: Option<int>, end: Option<int>,
    sourceGlobs: Option<string -> bool>, kindGlobs: Option<string -> bool>)

  predicate Passes(f: VectorFilter, row: MirrorRow) {
    (f.start.Some? ==> row.ts >= f.start.value) &&
    (f.end.Some? ==> row.ts < f.end.value) &&
    (f.sourceGlobs.Some? ==> f.sourceGlobs.value(row.source)) &&
    (f.kindGlobs.Some? ==> f.kindGlobs.value(row.kind))
  }

  function ToHit(row: MirrorRow, similarity: seq<real> -> real): SearchHit {
    SearchHit(row.id, row.source, row.kind, row.ts, row.truncated, similarity(row.vector))
  }

  /** Every matching row with its score, in mirror order. */
  function Hits(rows: seq<MirrorRow>, f: VectorFilter, similarity: seq<real> -> real): seq<SearchHit> {
    if rows == [] then []
    else (if Passes(f, rows[0]) then [ToHit(rows[0], similarity)] else []) + Hits(rows[1..], f, similarity)
  }

  predicate AtLeast(a: SearchHit, b: SearchHit) {
    a.score >= b.score
  }

  predicate RealAtLeast(a: real, b: real) {
    a >= b
  }

  /** min(k, matches) of the hits, and nothing left out beats anything kept. */
  ghost predicate TopK(kept: seq<SearchHit>, hits: seq<SearchHit>, k: nat) {
    |kept| == Min(k, |hits|) && multiset(kept) <= multiset(hits) &&
    forall o, r :: o in multiset(hits) - multiset(kept) && r in kept ==> o.score <= r.score
  }

  lemma {:induction false} TopKGrow(heap: seq<SearchHit>, hits: seq<SearchHit>, hit: SearchHit, k: nat)
    requires TopK(heap, hits, k) && |heap| < k
    ensures TopK(heap + [hit], hits + [hit], k)
  {
    assert multiset(hits) == multiset(heap) by {
      assert |multiset(hits) - multiset(heap)| == 0;
    }
    assert multiset(hits + [hit]) - multiset(heap + [hit]) == multiset{};
  }

  lemma {:induction false} TopKKeep(heap: seq<SearchHit>, hits: seq<SearchHit>, hit: SearchHit, k: nat)
    requires TopK(heap, hits, k) && |heap| == k
    requires forall r :: r in heap ==> hit.score <= r.score
    ensures TopK(heap, hits + [hit], k)
  {
    assert multiset(hits + [hit]) - multiset(heap) == multiset(hits) - multiset(heap) + multiset{hit};
  }

  lemma {:induction false} TopKReplace(heap: seq<SearchHit>, hits: seq<SearchHit>, hit: SearchHit, k: nat, w: nat)
    requires TopK(heap, hits, k) && |heap| == k && w < |heap|
    requires forall r :: r in heap ==> heap[w].score <= r.score
    requires hit.score > heap[w].score
    ensures TopK(heap[w := hit], hits + [hit], k)
  {
    var after := heap[w := hit];
    assert multiset(after) == multiset(heap) - multiset{heap[w]} + multiset{hit};
    assert multiset(hits + [hit]) - multiset(after) == multiset(hits) - multiset(heap) + multiset{heap[w]};
    forall o, r | o in multiset(hits + [hit]) - multiset(after) && r in after ensures o.score <= r.score {
      assert o == heap[w] || o in multiset(hits) - multiset(heap);
      assert r == hit || r in heap;
      assert heap[w] in heap;
    }
  }

  ghost predicate FirstWorst(heap: seq<SearchHit>, w: nat) {
    w < |heap| && (forall j :: 0 <= j < |heap| ==> heap[w].score <= heap[j].score) &&
    forall j :: 0 <= j < w ==> heap[w].score < heap[j].score
  }

  /** The first of the lowest-scoring hits. */
  method WorstIndex(heap: seq<SearchHit>) returns (w: nat)
    requires heap != []
    ensures FirstWorst(heap, w)
  {
    w := 0;
    for i := 1 to |heap|
      invariant w < i
      invariant forall j :: 0 <= j < i ==> heap[w].score <= heap[j].score
      invariant forall j :: 0 <= j < w ==> heap[w].score < heap[j].score
    {
      if heap[i].score < heap[w].score {
        w := i;
      }
    }
  }

  /** Push while there is room, else replace the first of the worst if strictly better. */
  method InsertTopK(heap: seq<SearchHit>, hit: SearchHit, k: nat, ghost hits: seq<SearchHit>)
    returns (after: seq<SearchHit>)
    requires k >= 1
    requires TopK(heap, hits, k)
    ensures TopK(after, hits + [hit], k)
    ensures |heap| < k ==> after == heap + [hit]
    ensures |heap| == k ==>
              exists w: nat :: FirstWorst(heap, w) &&
                after == if hit.score > heap[w].score then heap[w := hit] else heap
  {
    if |heap| < k {
      TopKGrow(heap, hits, hit, k);
      return heap + [hit];
    }
    var w := WorstIndex(heap);
    if hit.score > heap[w].score {
      TopKReplace(heap, hits, hit, k, w);
      after := heap[w := hit];
    } else {
      TopKKeep(heap, hits, hit, k);
      after := heap;
    }
  }

  lemma {:induction false} HitsSnoc(rows: seq<MirrorRow>, row: MirrorRow, f: VectorFilter,
                                    similarity: seq<real> -> real)
    ensures Hits(rows + [row], f, similarity)
            == Hits(rows, f, similarity) + (if Passes(f, row) then [ToHit(row, similarity)] else [])
  {
    if rows == [] {
      assert rows + [row] == [row] && [row][1..] == [];
    } else {
      assert (rows + [row])[1..] == rows[1..] + [row];
      HitsSnoc(rows[1..], row, f, similarity);
    }
  }

  lemma {:induction false} TopKPermute(a: seq<SearchHit>, b: seq<SearchHit>, hits: seq<SearchHit>, k: nat)
    requires TopK(a, hits, k) && multiset(a) == multiset(b) && |a| == |b|
    ensures TopK(b, hits, k)
  {
    forall r | r in b ensures r in a {
      assert r in multiset(b);
    }
  }

  /** With k = 0 and a matching row the original takes the worst of an empty heap and panics; its
      only caller clamps k to 1..50. */
  method SearchKn(rows: seq<MirrorRow>, similarity: seq<real> -> real, k: nat, f: VectorFilter)
    returns (result: seq<SearchHit>)
    requires k >= 1 || forall row :: row in rows ==> !Passes(f, row)
    ensures TopK(result, Hits(rows, f, similarity), k)
    ensures SortedBy(result, AtLeast)
  {
    var heap: seq<SearchHit> := [];
    for i := 0 to |rows|
      invariant TopK(heap, Hits(rows[..i], f, similarity), k)
    {
      var row := rows[i];
      ghost var hits := Hits(rows[..i], f, similarity);
      assert rows[..i + 1] == rows[..i] + [row];
      HitsSnoc(rows[..i], row, f, similarity);
      if (f.start.Some? && row.ts < f.start.value)
        || (f.end.Some? && row.ts >= f.end.value)
        || (f.sourceGlobs.Some? && !f.sourceGlobs.value(row.source))
        || (f.kindGlobs.Some? && !f.kindGlobs.value(row.kind))
      {
        assert hits + [] == hits;
        continue;
      }
      assert row in rows && Passes(f, row);
      heap := InsertTopK(heap, ToHit(row, similarity), k, hits);
    }
    assert rows[..|rows|] == rows;
    SortPermutes(heap, AtLeast);
    SortSorts(heap, AtLeast);
    result := Sort(heap, AtLeast);
    TopKPermute(heap, result, Hits(rows, f, similarity), k);
  }

  // ----- distinct rows -----

  lemma {:induction false} HitsComeFromRows(rows: seq<MirrorRow>, f: VectorFilter, similarity: seq<real> -> real)
    ensures forall h :: h in Hits(rows, f, similarity) <==>
              exists row :: row in rows && Passes(f, row) && h == ToHit(row, similarity)
  {
    if rows == [] {
    } else {
      HitsComeFromRows(rows[1..], f, similarity);
      assert rows == [rows[0]] + rows[1..];
    }
  }

  ghost predicate DistinctIds(hits: seq<SearchHit>) {
    forall i, j :: 0 <= i < j < |hits| ==> hits[i].id != hits[j].id
  }

  lemma {:induction false} HitsDistinct(rows: seq<MirrorRow>, f: VectorFilter, similarity: seq<real> -> real)
    requires UniqueIds(rows)
    ensures DistinctIds(Hits(rows, f, similarity))
  {
    if rows == [] {
    } else {
      HitsDistinct(rows[1..], f, similarity);
      HitsComeFromRows(rows[1..], f, similarity);
      var rest := Hits(rows[1..], f, similarity);
      forall j | 0 <= j < |rest| ensures rest[j].id != rows[0].id {
        assert rest[j] in rest;
        var row :| row in rows[1..] && rest[j] == ToHit(row, similarity);
        var i :| 0 <= i < |rows[1..]| && rows[1..][i] == row;
        assert rows[i + 1] == row;
      }
    }
  }

  lemma {:induction false} DistinctOnce(hits: seq<SearchHit>, x: SearchHit)
    requires DistinctIds(hits)
    ensures multiset(hits)[x] <= 1
  {
    if hits == [] {
    } else {
      assert hits == [hits[0]] + hits[1..];
      DistinctOnce(hits[1..], x);
      forall i | 0 <= i < |hits[1..]| ensures hits[1..][i] != hits[0] {
        assert hits[1..][i] == hits[i + 1];
      }
    }
  }

  lemma {:induction false} TwiceCounted(s: seq<SearchHit>, i: nat, j: nat)
    requires i < j < |s| && s[i] == s[j]
    ensures multiset(s)[s[i]] >= 2
  {
    assert s == s[..j] + [s[j]] + s[j + 1..];
    assert s[i] in s[..j];
  }

  /** No row is returned twice: the mirror's ids are unique. */
  lemma {:induction false} ResultRowsDistinct(rows: seq<MirrorRow>, f: VectorFilter, similarity: seq<real> -> real,
                           result: seq<SearchHit>, k: nat)
    requires UniqueIds(rows) && TopK(result, Hits(rows, f, similarity), k)
    ensures DistinctIds(result)
    ensures forall h :: h in result ==> exists row :: row in rows && Passes(f, row) && h == ToHit(row, similarity)
  {
    var hits := Hits(rows, f, similarity);
    HitsDistinct(rows, f, similarity);
    HitsComeFromRows(rows, f, similarity);
    forall h | h in result ensures h in hits {
      assert h in multiset(result);
    }
    forall i, j | 0 <= i < j < |result| ensures result[i].id != result[j].id {
      if result[i].id == result[j].id {
        assert result[i] in hits && result[j] in hits;
        var a :| 0 <= a < |hits| && hits[a] == result[i];
        var b :| 0 <= b < |hits| && hits[b] == result[j];
        assert a == b;
        TwiceCounted(result, i, j);
        DistinctOnce(hits, result[i]);
      }
    }
  }

  // ----- refinement of sort-then-take -----

  function Scores(hits: seq<SearchHit>): seq<real> {
    if hits == [] then [] else [hits[0].score] + Scores(hits[1..])
  }

  lemma {:induction false} ScoresAt(hits: seq<SearchHit>)
    ensures |Scores(hits)| == |hits| && forall i :: 0 <= i < |hits| ==> Scores(hits)[i] == hits[i].score
  {
    if hits == [] {
    } else {
      ScoresAt(hits[1..]);
    }
  }

  lemma {:induction false} ScoresConcat(a: seq<SearchHit>, b: seq<SearchHit>)
    ensures Scores(a + b) == Scores(a) + Scores(b)
  {
    if a == [] {
      assert a + b == b;
    } else {
      assert (a + b)[1..] == a[1..] + b;
      ScoresConcat(a[1..], b);
    }
  }

  function Without<T>(s: seq<T>, i: nat): seq<T>
    requires i < |s|
  {
    s[..i] + s[i + 1..]
  }

  lemma {:induction false} WithoutCounts<T>(s: seq<T>, i: nat)
    requires i < |s|
    ensures multiset(Without(s, i)) == multiset(s) - multiset{s[i]}
    ensures multiset(s) == multiset(Without(s, i)) + multiset{s[i]}
  {
    assert s == s[..i] + [s[i]] + s[i + 1..];
    assert multiset(s) == multiset(s[..i]) + multiset{s[i]} + multiset(s[i + 1..]);
    assert multiset(Without(s, i)) == multiset(s[..i]) + multiset(s[i + 1..]);
  }

  lemma {:induction false} WithoutScores(s: seq<SearchHit>, i: nat)
    requires i < |s|
    ensures |Scores(s)| == |s| && Scores(Without(s, i)) == Without(Scores(s), i)
  {
    ScoresAt(s);
    ScoresAt(Without(s, i));
  }

  lemma {:induction false} ScoresPermute(a: seq<SearchHit>, b: seq<SearchHit>)
    requires multiset(a) == multiset(b)
    ensures multiset(Scores(a)) == multiset(Scores(b))
    decreases |a|
  {
    assert |a| == |multiset(a)| == |multiset(b)| == |b|;
    if a == [] {
    } else {
      assert a[0] in multiset(b);
      var i :| 0 <= i < |b| && b[i] == a[0];
      WithoutCounts(a, 0);
      WithoutCounts(b, i);
      ScoresPermute(Without(a, 0), Without(b, i));
      WithoutScores(a, 0);
      WithoutScores(b, i);
      WithoutCounts(Scores(a), 0);
      WithoutCounts(Scores(b), i);
      ScoresAt(a);
      ScoresAt(b);
    }
  }

  lemma {:induction false} Listing(m: multiset<SearchHit>) returns (s: seq<SearchHit>)
    ensures multiset(s) == m
  {
    if m == multiset{} {
      s := [];
    } else {
      var x :| x in m;
      var rest := Listing(m - multiset{x});
      s := [x] + rest;
    }
  }

  /** A sorted top-k list is the head of some sorted listing of all hits. */
  lemma {:induction false} Completion(kept: seq<SearchHit>, hits: seq<SearchHit>, k: nat) returns (rest: seq<SearchHit>)
    requires TopK(kept, hits, k) && SortedBy(kept, AtLeast)
    ensures multiset(kept + rest) == multiset(hits) && SortedBy(kept + rest, AtLeast)
  {
    var loose := Listing(multiset(hits) - multiset(kept));
    rest := Sort(loose, AtLeast);
    SortPermutes(loose, AtLeast);
    SortSorts(loose, AtLeast);
    var all := kept + rest;
    forall i, j | 0 <= i < j < |all| ensures AtLeast(all[i], all[j]) {
      if i < |kept| <= j {
        assert rest[j - |kept|] in multiset(rest);
      }
    }
  }

  lemma {:induction false} SortedScores(s: seq<SearchHit>)
    requires SortedBy(s, AtLeast)
    ensures SortedBy(Scores(s), RealAtLeast)
  {
    ScoresAt(s);
  }

  /** Any two sorted top-k lists of the same hits show the same scores, position by position. */
  lemma {:induction false} TopKScoresUnique(a: seq<SearchHit>, b: seq<SearchHit>, hits: seq<SearchHit>, k: nat)
    requires TopK(a, hits, k) && SortedBy(a, AtLeast)
    requires TopK(b, hits, k) && SortedBy(b, AtLeast)
    ensures Scores(a) == Scores(b)
  {
    var ra := Completion(a, hits, k);
    var rb := Completion(b, hits, k);
    ScoresPermute(a + ra, b + rb);
    SortedScores(a + ra);
    SortedScores(b + rb);
    Sorting.SortedUnique(Scores(a + ra), Scores(b + rb), RealAtLeast);
    ScoresConcat(a, ra);
    ScoresConcat(b, rb);
    ScoresAt(a);
    ScoresAt(b);
    assert Scores(a) == Scores(a + ra)[..|a|];
    assert Scores(b) == Scores(b + rb)[..|b|];
  }

  function SortThenTake(hits: seq<SearchHit>, k: nat): seq<SearchHit> {
    var sorted := Sort(hits, AtLeast);
    if k <= |sorted| then sorted[..k] else sorted
  }

  lemma {:induction false} HeadBeatsRest(sorted: seq<SearchHit>, n: nat, o: SearchHit, r: SearchHit)
    requires n <= |sorted| && SortedBy(sorted, AtLeast) && o in sorted[n..] && r in sorted[..n]
    ensures o.score <= r.score
  {
    var j :| n <= j < |sorted| && sorted[j] == o;
    var i :| 0 <= i < n && sorted[i] == r;
    assert AtLeast(sorted[i], sorted[j]);
  }

  lemma {:induction false} CutCounts(s: seq<SearchHit>, n: nat)
    requires n <= |s|
    ensures multiset(s[..n]) <= multiset(s) && multiset(s) - multiset(s[..n]) == multiset(s[n..])
  {
    assert s == s[..n] + s[n..];
  }

  lemma {:induction false} HeadIsTopK(sorted: seq<SearchHit>, n: nat, hits: seq<SearchHit>, k: nat)
    requires multiset(sorted) == multiset(hits) && |sorted| == |hits| && SortedBy(sorted, AtLeast)
    requires n == Min(k, |hits|)
    ensures TopK(sorted[..n], hits, k) && SortedBy(sorted[..n], AtLeast)
  {
    CutCounts(sorted, n);
    forall o, r | o in multiset(hits) - multiset(sorted[..n]) && r in sorted[..n] ensures o.score <= r.score {
      HeadBeatsRest(sorted, n, o, r);
    }
  }

  lemma {:induction false} SortThenTakeIsTopK(hits: seq<SearchHit>, k: nat)
    ensures TopK(SortThenTake(hits, k), hits, k) && SortedBy(SortThenTake(hits, k), AtLeast)
  {
    SortPermutes(hits, AtLeast);
    SortSorts(hits, AtLeast);
    var sorted := Sort(hits, AtLeast);
    assert SortThenTake(hits, k) == sorted[..Min(k, |hits|)];
    HeadIsTopK(sorted, Min(k, |hits|), hits, k);
  }

  /** One-pass worst-replacement refines sort-then-take: the same scores always, and the very
      same rows whenever no two matching rows tie. */
  lemma {:induction false} OnePassRefinesSortThenTake(result: seq<SearchHit>, hits: seq<SearchHit>, k: nat)
    requires TopK(result, hits, k) && SortedBy(result, AtLeast)
    ensures Scores(result) == Scores(SortThenTake(hits, k))
    ensures (forall a, b :: a in hits && b in hits && a.score == b.score ==> a == b) ==> result == SortThenTake(hits, k)
  {
    var best := SortThenTake(hits, k);
    SortThenTakeIsTopK(hits, k);
    TopKScoresUnique(result, best, hits, k);
    ScoresAt(result);
    ScoresAt(best);
    if forall a, b :: a in hits && b in hits && a.score == b.score ==> a == b {
      forall i | 0 <= i < |result| ensures result[i] == best[i] {
        assert result[i] in multiset(result) && best[i] in multiset(best);
        assert result[i].score == Scores(result)[i] == Scores(best)[i] == best[i].score;
      }
    }
  }
}
