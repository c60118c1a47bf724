/** How the age, count and byte sweeps of one pair compose, and what a dry run predicts. */
module SweepLaws {
  import opened Prelude
  import opened Events
  import opened ColdTable
  import opened Retention

  // ----- what each dimension alone would remove from a pair -----

  function AgeDemand(q: seq<Key>, eff: Effective, now: int): nat {
    if eff.maxAgeMs.None? then 0 else Expired(q, ClampI64(now - eff.maxAgeMs.value))
  }

  function ByAge(t: Table, p: Pair, eff: Effective, now: int): (n: nat)
    ensures n <= |Rows(t, p)|
  {
    ExpiredSplits(Rows(t, p), ClampI64(now - UnwrapOr(eff.maxAgeMs, 0)));
    AgeDemand(Rows(t, p), eff, now)
  }

  function ByCount(t: Table, p: Pair, eff: Effective): (n: nat)
    ensures n <= |Rows(t, p)|
  {
    if eff.maxCount.None? then 0 else Surplus(Rows(t, p), eff.maxCount.value)
  }

  function BytesDemand(t: Table, q: seq<Key>, eff: Effective): nat
    requires forall k :: k in q ==> k.id in t
  {
    if eff.maxBytes.None? then 0 else Oversize(t, q, eff.maxBytes.value)
  }

  function ByBytes(t: Table, p: Pair, eff: Effective): (n: nat)
    requires WellKeyed(t)
    ensures n <= |Rows(t, p)|
  {
    RowsAreRows(t, p);
    OversizeSplits(t, Rows(t, p), UnwrapOr(eff.maxBytes, 0));
    BytesDemand(t, Rows(t, p), eff)
  }

  /** The strictest dimension. */
  function Removed(t: Table, p: Pair, eff: Effective, now: int): (n: nat)
    requires WellKeyed(t)
    ensures n <= |Rows(t, p)|
  {
    Max(ByAge(t, p, eff, now), Max(ByCount(t, p, eff), ByBytes(t, p, eff)))
  }

  /** What the count dimension reports when nothing is executed. */
  function DryCount(t: Table, p: Pair, eff: Effective): nat {
    if eff.maxCount.None? then 0 else Max(0, |Rows(t, p)| - eff.maxCount.value)
  }

  function Predicted(t: Table, p: Pair, eff: Effective, now: int): nat
    requires WellKeyed(t)
  {
    ByAge(t, p, eff, now) + DryCount(t, p, eff) + ByBytes(t, p, eff)
  }

  lemma {:induction false} RowsKept(t: Table, p: Pair, n: nat, k: Key)
    requires WellKeyed(t) && n <= |Rows(t, p)| && k in Rows(t, p)[n..]
    ensures k.id in t && k.id in DropOldest(t, p, n) && DropOldest(t, p, n)[k.id] == t[k.id]
  {
    DropSeparates(t, p, n);
    assert k in Rows(t, p);
    RowsMember(t, p, k);
  }

  // Once n rows are gone every dimension wants n fewer.

  lemma {:induction false} AgeDemandAfterDrop(q: seq<Key>, eff: Effective, now: int, n: nat)
    requires Ascending(q) && n <= |q|
    ensures AgeDemand(q[n..], eff, now) == Max(0, AgeDemand(q, eff, now) - n)
  {
    if eff.maxAgeMs.Some? {
      ExpiredAfterDrop(q, ClampI64(now - eff.maxAgeMs.value), n);
    }
  }

  lemma {:induction false} ByAgeAfterDrop(t: Table, p: Pair, eff: Effective, now: int, n: nat)
    requires WellKeyed(t) && n <= |Rows(t, p)|
    ensures ByAge(DropOldest(t, p, n), p, eff, now) == Max(0, ByAge(t, p, eff, now) - n)
  {
    DropOldestRows(t, p, n);
    AgeDemandAfterDrop(Rows(t, p), eff, now, n);
  }

  lemma {:induction false} ByCountAfterDrop(t: Table, p: Pair, eff: Effective, n: nat)
    requires WellKeyed(t) && n <= |Rows(t, p)|
    ensures ByCount(DropOldest(t, p, n), p, eff) == Max(0, ByCount(t, p, eff) - n)
  {
    DropOldestRows(t, p, n);
  }

  lemma {:induction false} BytesDemandAfterDrop(t: Table, d: Table, q: seq<Key>, eff: Effective, n: nat)
    requires n <= |q|
    requires forall k :: k in q ==> k.id in t
    requires forall k :: k in q[n..] ==> k.id in t && k.id in d && d[k.id] == t[k.id]
    ensures BytesDemand(d, q[n..], eff) == Max(0, BytesDemand(t, q, eff) - n)
  {
    if eff.maxBytes.Some? {
      OversizeAfterDrop(t, q, eff.maxBytes.value, n);
      OversizeDepends(t, d, q[n..], eff.maxBytes.value);
    }
  }

  lemma {:induction false} ByBytesAfterDrop(t: Table, p: Pair, eff: Effective, n: nat)
    requires WellKeyed(t) && n <= |Rows(t, p)|
    ensures WellKeyed(DropOldest(t, p, n))
    ensures ByBytes(DropOldest(t, p, n), p, eff) == Max(0, ByBytes(t, p, eff) - n)
  {
    var q, d := Rows(t, p), DropOldest(t, p, n);
    DropOldestRows(t, p, n);
    RowsAreRows(t, p);
    forall k | k in q[n..] ensures k.id in t && k.id in d && d[k.id] == t[k.id] {
      RowsKept(t, p, n, k);
    }
    BytesDemandAfterDrop(t, d, q, eff, n);
  }

  lemma {:induction false} DemandAfterDrop(t: Table, p: Pair, eff: Effective, now: int, n: nat)
    requires WellKeyed(t) && n <= |Rows(t, p)|
    ensures WellKeyed(DropOldest(t, p, n)) && |Rows(DropOldest(t, p, n), p)| == |Rows(t, p)| - n
    ensures ByAge(DropOldest(t, p, n), p, eff, now) == Max(0, ByAge(t, p, eff, now) - n)
    ensures ByCount(DropOldest(t, p, n), p, eff) == Max(0, ByCount(t, p, eff) - n)
    ensures ByBytes(DropOldest(t, p, n), p, eff) == Max(0, ByBytes(t, p, eff) - n)
  {
    DropOldestRows(t, p, n);
    ByAgeAfterDrop(t, p, eff, now, n);
    ByCountAfterDrop(t, p, eff, n);
    ByBytesAfterDrop(t, p, eff, n);
  }

  /** The three sweeps in the sweeper's order. */
  function AfterAge(t: Table, p: Pair, eff: Effective, now: int): (r: Table)
    requires WellKeyed(t)
    ensures WellKeyed(r)
  {
    DropOldestRows(t, p, ByAge(t, p, eff, now));
    DropOldest(t, p, ByAge(t, p, eff, now))
  }

  function AfterCount(t: Table, p: Pair, eff: Effective): (r: Table)
    requires WellKeyed(t)
    ensures WellKeyed(r)
  {
    DropOldestRows(t, p, ByCount(t, p, eff));
    DropOldest(t, p, ByCount(t, p, eff))
  }

  function AfterBytes(t: Table, p: Pair, eff: Effective): (r: Table)
    requires WellKeyed(t)
    ensures WellKeyed(r)
  {
    DropOldestRows(t, p, ByBytes(t, p, eff));
    DropOldest(t, p, ByBytes(t, p, eff))
  }

  function AfterAll(t: Table, p: Pair, eff: Effective, now: int): (r: Table)
    requires WellKeyed(t)
    ensures WellKeyed(r)
  {
    AfterBytes(AfterCount(AfterAge(t, p, eff, now), p, eff), p, eff)
  }

  /** Reported by the real sweep: the three removals added up. */
  function Reported(t: Table, p: Pair, eff: Effective, now: int): nat
    requires WellKeyed(t)
  {
    var t1 := AfterAge(t, p, eff, now);
    var t2 := AfterCount(t1, p, eff);
    ByAge(t, p, eff, now) + ByCount(t1, p, eff) + ByBytes(t2, p, eff)
  }

  lemma {:induction false} AgeThenCount(t: Table, p: Pair, eff: Effective, now: int)
    requires WellKeyed(t)
    ensures var a, c := ByAge(t, p, eff, now), ByCount(t, p, eff);
            AfterCount(AfterAge(t, p, eff, now), p, eff) == DropOldest(t, p, Max(a, c)) &&
            a + ByCount(AfterAge(t, p, eff, now), p, eff) == Max(a, c)
  {
    var a := ByAge(t, p, eff, now);
    ByCountAfterDrop(t, p, eff, a);
    DropTwice(t, p, a, ByCount(AfterAge(t, p, eff, now), p, eff));
  }

  lemma {:induction false} BytesLast(t: Table, p: Pair, eff: Effective, m: nat)
    requires WellKeyed(t) && m <= |Rows(t, p)|
    ensures WellKeyed(DropOldest(t, p, m))
    ensures AfterBytes(DropOldest(t, p, m), p, eff) == DropOldest(t, p, Max(m, ByBytes(t, p, eff)))
    ensures m + ByBytes(DropOldest(t, p, m), p, eff) == Max(m, ByBytes(t, p, eff))
  {
    ByBytesAfterDrop(t, p, eff, m);
    DropTwice(t, p, m, ByBytes(DropOldest(t, p, m), p, eff));
  }

  /** A real sweep of a pair removes exactly the oldest max(a, c, b) rows and reports that number. */
  lemma {:induction false} SweepsComposeToMax(t: Table, p: Pair, eff: Effective, now: int)
    requires WellKeyed(t)
    ensures AfterAll(t, p, eff, now) == DropOldest(t, p, Removed(t, p, eff, now))
    ensures Reported(t, p, eff, now) == Removed(t, p, eff, now)
  {
    AgeThenCount(t, p, eff, now);
    BytesLast(t, p, eff, Max(ByAge(t, p, eff, now), ByCount(t, p, eff)));
  }

  /** Sweeping again at the same time finds nothing to do. */
  lemma {:induction false} SweepIdempotent(t: Table, p: Pair, eff: Effective, now: int)
    requires WellKeyed(t)
    ensures var t' := AfterAll(t, p, eff, now);
            Removed(t', p, eff, now) == 0 && AfterAll(t', p, eff, now) == t'
  {
    SweepsComposeToMax(t, p, eff, now);
    var t' := AfterAll(t, p, eff, now);
    DemandAfterDrop(t, p, eff, now, Removed(t, p, eff, now));
    SweepsComposeToMax(t', p, eff, now);
    DropNothing(t', p);
  }

  /** With a non-negative count limit the dry run never under-predicts, and it is exact
      precisely when at most one dimension asks for anything. */
  lemma {:induction false} DryRunOverPredicts(t: Table, p: Pair, eff: Effective, now: int)
    requires WellKeyed(t) && (eff.maxCount.Some? ==> eff.maxCount.value >= 0)
    ensures Predicted(t, p, eff, now) >= Removed(t, p, eff, now)
    ensures Predicted(t, p, eff, now) == Removed(t, p, eff, now) <==>
              var a, c, b := ByAge(t, p, eff, now), ByCount(t, p, eff), ByBytes(t, p, eff);
              (a == 0 && c == 0) || (a == 0 && b == 0) || (c == 0 && b == 0)
  {
    assert DryCount(t, p, eff) == ByCount(t, p, eff);
  }

  /** A single expired event over a count limit of zero is predicted twice and removed once. */
  lemma {:induction false} DryRunCountsTwice(e: Event, eff: Effective)
    requires IsI64(e.ts) && e.ts < I64_MAX && eff == Effective(Some(0), Some(0), None, None)
    ensures WellKeyed(map[e.id := e])
    ensures Predicted(map[e.id := e], PairOf(e), eff, e.ts + 1) == 2
    ensures Removed(map[e.id := e], PairOf(e), eff, e.ts + 1) == 1
  {
    OneRow(PairOf(e), e);
    assert Expired([KeyOf(e)], e.ts + 1) == 1;
  }

  /** With a negative count limit the prediction exceeds even the number of rows there are. */
  lemma {:induction false} NegativeCountOverstates(t: Table, p: Pair, eff: Effective, now: int)
    requires WellKeyed(t) && eff.maxCount.Some? && eff.maxCount.value < 0
    ensures Predicted(t, p, eff, now) > |Rows(t, p)| == Removed(t, p, eff, now)
  {
    assert ByCount(t, p, eff) == |Rows(t, p)|;
  }

  function Tally(t: Table, p: Pair, eff: Effective, now: int, dryRun: bool): nat
    requires WellKeyed(t)
  {
    if dryRun then Predicted(t, p, eff, now) else Removed(t, p, eff, now)
  }

  lemma {:induction false} SkippedRound(t: Table, p: Pair, eff: Effective, now: int)
    requires WellKeyed(t) && IsEmpty(eff)
    ensures Removed(t, p, eff, now) == 0 && Predicted(t, p, eff, now) == 0 && AfterAll(t, p, eff, now) == t
    ensures forall dryRun :: Warnings(t, p, eff, now, dryRun) == []
  {
    SweepsComposeToMax(t, p, eff, now);
    DropNothing(t, p);
  }

  // ----- warnings about expensive passes -----

  const EXPENSIVE_REWRITE_THRESHOLD := 1000

  datatype Warning = Warning(pair: Pair, dim: Dimension, touched: nat)

  function Warn(p: Pair, dim: Dimension, touched: nat): seq<Warning> {
    if touched > EXPENSIVE_REWRITE_THRESHOLD then [Warning(p, dim, touched)] else []
  }

  /** The count and byte sweeps warn about the rows that the earlier ones left them. */
  function WarningsAbout(p: Pair, eff: Effective, rows: nat, a: nat, c: nat, dryRun: bool): seq<Warning>
    requires a <= rows && c <= rows
  {
    (if eff.maxCount.None? then [] else Warn(p, Count, if dryRun then rows else rows - a)) +
    (if eff.maxBytes.None? then [] else Warn(p, Bytes, if dryRun then rows else rows - Max(a, c)))
  }

  function Warnings(t: Table, p: Pair, eff: Effective, now: int, dryRun: bool): seq<Warning>
    requires WellKeyed(t)
  {
    WarningsAbout(p, eff, |Rows(t, p)|, ByAge(t, p, eff, now), ByCount(t, p, eff), dryRun)
  }

  lemma {:induction false} RowsLeft(t: Table, p: Pair, eff: Effective, now: int)
    requires WellKeyed(t)
    ensures var a, c := ByAge(t, p, eff, now), ByCount(t, p, eff);
            |Rows(AfterAge(t, p, eff, now), p)| == |Rows(t, p)| - a &&
            |Rows(AfterCount(AfterAge(t, p, eff, now), p, eff), p)| == |Rows(t, p)| - Max(a, c)
  {
    var a, c := ByAge(t, p, eff, now), ByCount(t, p, eff);
    AgeThenCount(t, p, eff, now);
    DropOldestRows(t, p, a);
    DropOldestRows(t, p, Max(a, c));
  }

  lemma {:induction false} WarningsInOrder(t: Table, p: Pair, eff: Effective, now: int, dryRun: bool)
    requires WellKeyed(t)
    ensures var t1 := if dryRun then t else AfterAge(t, p, eff, now);
            var t2 := if dryRun then t else AfterCount(t1, p, eff);
            Warnings(t, p, eff, now, dryRun)
            == (if eff.maxCount.None? then [] else Warn(p, Count, |Rows(t1, p)|))
               + (if eff.maxBytes.None? then [] else Warn(p, Bytes, |Rows(t2, p)|))
  {
    RowsLeft(t, p, eff, now);
  }

  /** What the three steps of a pair, run one after the other, come to. */
  lemma {:induction false} StepsAddUp(t: Table, p: Pair, eff: Effective, now: int, dryRun: bool)
    requires WellKeyed(t)
    ensures var t1 := if dryRun then t else AfterAge(t, p, eff, now);
            var t2 := if dryRun then t else AfterCount(t1, p, eff);
            Tally(t, p, eff, now, dryRun)
            == ByAge(t, p, eff, now) + (if dryRun then DryCount(t1, p, eff) else ByCount(t1, p, eff))
               + ByBytes(t2, p, eff)
  {
    SweepsComposeToMax(t, p, eff, now);
  }

  lemma {:induction false} WarningsFit(p: Pair, eff: Effective, rows: nat, a: nat, c: nat, dryRun: bool)
    requires a <= rows && c <= rows
    ensures var w := WarningsAbout(p, eff, rows, a, c, dryRun);
            (forall i :: 0 <= i < |w| ==> w[i].pair == p) && |w| <= 2 && (|w| == 2 ==> w[0] != w[1])
  {
  }
}
