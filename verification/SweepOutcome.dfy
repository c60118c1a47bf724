/** What a finished pass has removed, told from the policies, the clock and the stored rows alone. */
module SweepOutcome {
  import opened Prelude
  import opened Events
  import opened ColdTable
  import opened Retention
  import opened SweepLaws
  import opened SweepPlan
  import opened SweepPass

  /** The policy that decides this dimension for the pair sets it to v. */
  ghost predicate InForce(policies: seq<Policy>, p: Pair, dim: Dimension, v: int) {
    exists j :: Winner(policies, p.source, p.kind, dim, j) && Gives(policies[j], dim, v)
  }

  lemma {:induction false} InForceExactlyWhen(policies: seq<Policy>, p: Pair, dim: Dimension, v: int)
    ensures InForce(policies, p, dim, v) <==> InEffect(Resolve(policies, p.source, p.kind), dim) == Some(v)
  {
    ResolutionPicksWinner(policies, p.source, p.kind, dim);
    forall i, j | Winner(policies, p.source, p.kind, dim, i) && Winner(policies, p.source, p.kind, dim, j)
      ensures i == j
    {
      OneWinner(policies, p.source, p.kind, dim, i, j);
    }
    forall j | 0 <= j < |policies| ensures Setting(policies[j], dim) == Some(v) <==> Gives(policies[j], dim, v) {
      SettingIsGiven(policies[j], dim);
    }
  }

  /** The ids of a pair's rows, by time and then by id. */
  ghost predicate OldestFirst(t: Table, p: Pair, q: seq<EventId>) {
    (forall id :: id in q <==> id in t && t[id].source == p.source && t[id].kind == p.kind) &&
    forall i, j :: 0 <= i < j < |q| ==>
      t[q[i]].ts < t[q[j]].ts || (t[q[i]].ts == t[q[j]].ts && q[i] < q[j])
  }

  /** Characters of payload in these rows. */
  ghost function Size(t: Table, q: seq<EventId>): nat
    requires forall id :: id in q ==> id in t
  {
    if q == [] then 0 else |t[q[0]].semantic| + Size(t, q[1..])
  }

  ghost function Keys(t: Table, q: seq<EventId>): (ks: seq<Key>)
    requires forall id :: id in q ==> id in t
    ensures |ks| == |q| && forall i :: 0 <= i < |q| ==> ks[i] == Key(t[q[i]].ts, q[i])
  {
    if q == [] then [] else [Key(t[q[0]].ts, q[0])] + Keys(t, q[1..])
  }

  lemma {:induction false} RowsInOrder(t: Table, p: Pair, q: seq<EventId>)
    requires WellKeyed(t) && OldestFirst(t, p, q)
    ensures Rows(t, p) == Keys(t, q)
  {
    var ks := Keys(t, q);
    forall k ensures k in ks <==> k in Rows(t, p) {
      RowsMember(t, p, k);
      KeysMember(t, q, k);
    }
    AscendingUnique(ks, Rows(t, p));
  }

  lemma {:induction false} KeysMember(t: Table, q: seq<EventId>, k: Key)
    requires forall id :: id in q ==> id in t
    ensures k in Keys(t, q) <==> k.id in q && t[k.id].ts == k.ts
  {
    var ks := Keys(t, q);
    if k.id in q && t[k.id].ts == k.ts {
      var i :| 0 <= i < |q| && q[i] == k.id;
      assert ks[i] == k;
    }
    if k in ks {
      var i :| 0 <= i < |ks| && ks[i] == k;
      assert q[i] in q;
    }
  }

  lemma {:induction false} SizeIsWeight(t: Table, q: seq<EventId>, ks: seq<Key>)
    requires (forall id :: id in q ==> id in t) && ks == Keys(t, q)
    ensures (forall k :: k in ks ==> k.id in t) && Weight(t, ks) == Size(t, q)
  {
    if q == [] {
    } else {
      SizeIsWeight(t, q[1..], ks[1..]);
      assert ks == [ks[0]] + ks[1..];
    }
  }

  lemma {:induction false} KeysFrom(t: Table, q: seq<EventId>, i: nat)
    requires (forall id :: id in q ==> id in t) && i <= |q|
    ensures Keys(t, q)[i..] == Keys(t, q[i..])
  {
  }

  /** The row at place i of its pair is older than the age in force allows. */
  ghost predicate TooOld(policies: seq<Policy>, p: Pair, now: int, ts: int) {
    exists age :: InForce(policies, p, Age, age) && now - ts > age
  }

  /** It and the newer ones of its pair are more than the count in force. */
  ghost predicate TooMany(policies: seq<Policy>, p: Pair, rows: nat) {
    exists n :: InForce(policies, p, Count, n) && rows > n
  }

  /** They hold more than the bytes in force; the sum stops at the machine's greatest integer. */
  ghost predicate TooMuch(policies: seq<Policy>, p: Pair, size: nat) {
    exists b :: InForce(policies, p, Bytes, b) && size > b && I64_MAX > b
  }

  lemma {:induction false} AgeIsNatural(policies: seq<Policy>, p: Pair, dim: Dimension, v: int)
    requires InForce(policies, p, dim, v) && (dim == Age || dim == VectorAge)
    ensures v >= 0
  {
  }

  lemma {:induction false} PastItsAge(policies: seq<Policy>, p: Pair, dim: Dimension, now: int, ts: int)
    requires IsI64(now) && IsI64(ts) && (dim == Age || dim == VectorAge)
    ensures var age := InEffect(Resolve(policies, p.source, p.kind), dim);
            age.Some? && ts < ClampI64(now - age.value) <==>
              exists v :: InForce(policies, p, dim, v) && now - ts > v
  {
    forall v ensures InForce(policies, p, dim, v) <==> InEffect(Resolve(policies, p.source, p.kind), dim) == Some(v) {
      InForceExactlyWhen(policies, p, dim, v);
    }
    var age := InEffect(Resolve(policies, p.source, p.kind), dim);
    if age.Some? {
      AgeIsNatural(policies, p, dim, age.value);
      assert InForce(policies, p, dim, age.value);
    }
  }

  lemma {:induction false} ByAgeExactlyWhen(t: Table, policies: seq<Policy>, p: Pair, now: int, i: nat)
    requires i < |Rows(t, p)| && IsI64(now) && IsI64(Rows(t, p)[i].ts)
    ensures i < ByAge(t, p, Resolve(policies, p.source, p.kind), now) <==>
              TooOld(policies, p, now, Rows(t, p)[i].ts)
  {
    var eff := Resolve(policies, p.source, p.kind);
    ExpiredSplits(Rows(t, p), ClampI64(now - UnwrapOr(eff.maxAgeMs, 0)));
    PastItsAge(policies, p, Age, now, Rows(t, p)[i].ts);
  }

  lemma {:induction false} ByCountExactlyWhen(t: Table, policies: seq<Policy>, p: Pair, i: nat)
    requires i < |Rows(t, p)|
    ensures i < ByCount(t, p, Resolve(policies, p.source, p.kind)) <==> TooMany(policies, p, |Rows(t, p)| - i)
  {
    forall v ensures InForce(policies, p, Count, v) <==> Resolve(policies, p.source, p.kind).maxCount == Some(v) {
      InForceExactlyWhen(policies, p, Count, v);
    }
    var n := Resolve(policies, p.source, p.kind).maxCount;
    assert n.Some? ==> InForce(policies, p, Count, n.value);
  }

  lemma {:induction false} ByBytesExactlyWhen(t: Table, policies: seq<Policy>, p: Pair, q: seq<EventId>, i: nat)
    requires WellKeyed(t) && OldestFirst(t, p, q) && i < |q|
    ensures i < ByBytes(t, p, Resolve(policies, p.source, p.kind)) <==> TooMuch(policies, p, Size(t, q[i..]))
  {
    forall v ensures InForce(policies, p, Bytes, v) <==> Resolve(policies, p.source, p.kind).maxBytes == Some(v) {
      InForceExactlyWhen(policies, p, Bytes, v);
    }
    var eff := Resolve(policies, p.source, p.kind);
    OverBudget(t, eff, p, q, i);
    assert eff.maxBytes.Some? ==> InForce(policies, p, Bytes, eff.maxBytes.value);
  }

  lemma {:induction false} OverBudget(t: Table, eff: Effective, p: Pair, q: seq<EventId>, i: nat)
    requires WellKeyed(t) && OldestFirst(t, p, q) && i < |q|
    ensures i < ByBytes(t, p, eff) <==>
              eff.maxBytes.Some? && Min(Size(t, q[i..]), I64_MAX) > eff.maxBytes.value
  {
    RowsInOrder(t, p, q);
    RowsAreRows(t, p);
    KeysFrom(t, q, i);
    SizeIsWeight(t, q[i..], Rows(t, p)[i..]);
    OversizeSplits(t, Rows(t, p), UnwrapOr(eff.maxBytes, 0));
  }

  lemma {:induction false} KeptAsItWas(s0: Stores, s: Stores, r: Report, policies: seq<Policy>, now: int)
    requires Finished(s0, policies, now, s, r) && !r.dryRun
    ensures WellKeyed(s.cold) && forall id :: id in s.cold ==> id in s0.cold && s.cold[id] == s0.cold[id]
    ensures forall id :: id in s.vectors ==> id in s0.vectors && s.vectors[id] == s0.vectors[id]
  {
    var plan := PlanFor(s0, policies, now, r.dryRun);
    assert PairsIn(s0.cold) - {} == PairsIn(s0.cold);
    assert s == Kept(s0, plan, PairsIn(s0.cold));
  }

  /** A real pass removes a row if and only if it is older than the age in force for its pair, or it and
      the newer rows of the pair are more than the count in force, or hold more than the bytes in force;
      what stays is unchanged. */
  lemma {:induction false} RowGoesExactlyWhen(s0: Stores, s: Stores, r: Report, policies: seq<Policy>, now: int,
                                              p: Pair, q: seq<EventId>, i: nat)
    requires Finished(s0, policies, now, s, r) && !r.dryRun
    requires OldestFirst(s0.cold, p, q) && i < |q| && IsI64(now) && IsI64(s0.cold[q[i]].ts)
    ensures q[i] !in s.cold <==>
              TooOld(policies, p, now, s0.cold[q[i]].ts) || TooMany(policies, p, |q| - i) ||
              TooMuch(policies, p, Size(s0.cold, q[i..]))
    ensures q[i] in s.cold ==> s.cold[q[i]] == s0.cold[q[i]]
  {
    var n := Removed(s0.cold, p, Resolve(policies, p.source, p.kind), now);
    RowsInOrder(s0.cold, p, q);
    KeptAsItWas(s0, s, r, policies, now);
    FinishedRows(s0, s, r, policies, now, p);
    InKept(s0.cold, s.cold, p, q, n, i);
    ByAgeExactlyWhen(s0.cold, policies, p, now, i);
    ByCountExactlyWhen(s0.cold, policies, p, i);
    ByBytesExactlyWhen(s0.cold, policies, p, q, i);
  }

  lemma {:induction false} InKept(t0: Table, t: Table, p: Pair, q: seq<EventId>, n: nat, i: nat)
    requires WellKeyed(t0) && WellKeyed(t) && forall id :: id in t ==> id in t0 && t[id] == t0[id]
    requires OldestFirst(t0, p, q) && i < |q| && n <= |q| && Rows(t, p) == Keys(t0, q)[n..]
    ensures q[i] in t <==> i >= n
  {
    RowsAreRows(t, p);
    var k := Keys(t0, q)[i];
    assert q[i] in q;
    if i >= n {
      assert Keys(t0, q)[n..][i - n] == k;
    } else {
      forall j | 0 <= j < |Rows(t, p)| ensures Rows(t, p)[j] != k {
        assert Rows(t, p)[j] == Keys(t0, q)[n + j];
      }
      assert k !in Rows(t, p);
    }
  }

  /** The cold store holds an event of this source and kind. */
  ghost predicate HasRow(t: Table, source: string, kind: string) {
    exists e :: e in t && t[e].source == source && t[e].kind == kind
  }

  lemma {:induction false} RowsExactlyWhen(t: Table, p: Pair)
    requires WellKeyed(t)
    ensures Rows(t, p) != [] <==> HasRow(t, p.source, p.kind)
  {
    NoRowsNoPair(t, p);
    if e :| e in t && PairOf(t[e]) == p {
      assert t[e].source == p.source;
    }
    if HasRow(t, p.source, p.kind) {
      var e :| e in t && t[e].source == p.source && t[e].kind == p.kind;
      assert PairOf(t[e]) == p;
    }
  }

  ghost predicate PastVectorAge(policies: seq<Policy>, p: Pair, now: int, ts: int) {
    exists age :: InForce(policies, p, VectorAge, age) && now - ts > age
  }

  lemma {:induction false} DueExactlyWhen(t: Table, policies: seq<Policy>, p: Pair, now: int, ts: int)
    requires WellKeyed(t) && IsI64(now) && IsI64(ts)
    ensures var age := Resolve(policies, p.source, p.kind).vectorMaxAgeMs;
            Rows(t, p) != [] && age.Some? && ts < ClampI64(now - age.value) <==>
              HasRow(t, p.source, p.kind) && PastVectorAge(policies, p, now, ts)
  {
    RowsExactlyWhen(t, p);
    PastItsAge(policies, p, VectorAge, now, ts);
  }

  /** And a vector if and only if its pair has a row in the cold store to begin with and the vector is
      older than the vector age in force for it. */
  lemma {:induction false} VectorGoesExactlyWhen(s0: Stores, s: Stores, r: Report, policies: seq<Policy>, now: int,
                                                 id: EventId)
    requires Finished(s0, policies, now, s, r) && !r.dryRun
    requires id in s0.vectors && IsI64(now) && IsI64(s0.vectors[id].ts)
    ensures var v := s0.vectors[id];
            id !in s.vectors <==>
              HasRow(s0.cold, v.source, v.kind) && PastVectorAge(policies, Pair(v.source, v.kind), now, v.ts)
  {
    var v := s0.vectors[id];
    FinishedVectors(s0, s, r, policies, now, id);
    DueExactlyWhen(s0.cold, policies, VectorPair(v), now, v.ts);
  }
}
