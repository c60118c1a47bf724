/** The cold store object driven through whole runs: what `ColdHistory` says of runs holds of it. */
module ColdReplay {
  import opened Prelude
  import opened Events
  import opened ColdTable
  import opened ColdStore
  import opened ColdHistory

  /** What one operation reports. */
  function Counted(t: Table, op: Op): nat
    requires WellKeyed(t)
  {
    if op.Append? then 0 else Condemns(t, op)
  }

  /** One operation on the object has the effect `Apply` describes; a sweep reports its number of rows. */
  method Perform(store: ColdStore, op: Op) returns (n: nat)
    requires store.Valid()
    modifies store
    ensures store.Valid() && n == Counted(old(store.events), op)
    ensures Cold(store.events, store.latest) == Apply(Cold(old(store.events), old(store.latest)), op)
  {
    n := 0;
    match op
    case Append(batch) => store.Append(batch);
    case SweepAge(p, cutoff) => n := store.SweepMaxAge(p, cutoff, false);
    case SweepCount(p, keep) => n := store.SweepMaxCount(p, keep, false);
    case SweepBytes(p, budget) => n := store.SweepMaxBytes(p, budget, false);
  }

  method Replay(ops: seq<Op>) returns (store: ColdStore)
    ensures fresh(store) && store.Valid() && Cold(store.events, store.latest) == Run(ops)
  {
    store := new ColdStore();
    for i := 0 to |ops|
      invariant store.Valid() && fresh(store) && Cold(store.events, store.latest) == Run(ops[..i])
    {
      assert ops[..i + 1][..i] == ops[..i];
      var _ := Perform(store, ops[i]);
    }
    assert ops[..|ops|] == ops;
  }

  /** After any run, `latest` answers with the first-arrived event among the newest ever appended
      to the pair, and with nothing exactly if there was none. */
  method LatestAfter(ops: seq<Op>, source: string, kind: string) returns (row: Option<Event>)
    ensures row.Some? <==> Mentions(History(ops), Pair(source, kind))
    ensures row.Some? ==>
              exists i :: FirstNewest(History(ops), Pair(source, kind), i) && ReadsBack(row.value, History(ops)[i])
  {
    var store := Replay(ops);
    row := store.Latest(source, kind);
    LatestIsFirstNewest(ops, Pair(source, kind));
  }
}
