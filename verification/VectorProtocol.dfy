/** The vector index under concurrency and restarts. `append` holds the connection lock
    while it updates first the table and then the mirror; `sweep_max_age` lets go of the
    connection between its two updates. Each step below is what happens under one hold of
    a lock; any process may stop between steps and a later one reopen the table. */
module VectorProtocol {
  import opened Prelude
  import opened Events
  import opened VectorIndex

  datatype Sweep = Sweep(pair: Pair, cutoff: int)

  datatype Session = Session(model: string, dim: nat)

  datatype State = State(
    table: VectorTable,
    rows: seq<MirrorRow>,
    appending: Option<seq<VectorRecord>>,   // committed, not yet mirrored; holds the connection
    sweeping: multiset<Sweep>,              // deleted, mirror not yet pruned
    finished: set<Sweep>,                   // completed in this session
    session: Option<Session>)

  datatype Step =
    | Open(order: seq<VectorRecord>, model: string, dim: nat)
    | AppendCommit(records: seq<VectorRecord>)
    | AppendMirror
    | SweepDelete(sweep: Sweep)
    | SweepPrune(sweep: Sweep)

  const INITIAL: State := State(map[], [], None, multiset{}, {}, None)

  predicate Own(r: VectorRecord, s: Session) {
    r.model == s.model && |r.vector| == s.dim
  }

  /** Lock discipline, plus: a session appends its own embedder's records. */
  ghost predicate Enabled(s: State, step: Step) {
    match step
    case Open(order, _, _) => Lists(order, s.table)
    case AppendCommit(records) =>
      s.session.Some? && s.appending.None? && records != [] &&
      forall r :: r in records ==> Own(r, s.session.value)
    case AppendMirror => s.appending.Some?
    case SweepDelete(_) => s.session.Some? && s.appending.None?
    case SweepPrune(sweep) => sweep in s.sweeping
  }

  function Next(s: State, step: Step): State {
    match step
    case Open(order, model, dim) =>
      var loaded := Load(order, model, dim);
      State(s.table, if loaded.Ok? then loaded.value else [], None, multiset{}, {},
            if loaded.Ok? then Some(Session(model, dim)) else None)
    case AppendCommit(records) =>
      s.(table := PutAll(s.table, records), appending := Some(records))
    case AppendMirror =>
      s.(rows := ReflectAll(s.rows, if s.appending.Some? then s.appending.value else []), appending := None)
    case SweepDelete(w) =>
      s.(table := DeleteOlder(s.table, w.pair, w.cutoff), sweeping := s.sweeping + multiset{w})
    case SweepPrune(w) =>
      s.(rows := Retain(s.rows, w.pair, w.cutoff), sweeping := s.sweeping - multiset{w},
         finished := s.finished + {w})
  }

  /** Where some steps lead from a state, and whether each of them may happen. */
  function After(s: State, steps: seq<Step>): State {
    if steps == [] then s else Next(After(s, steps[..|steps| - 1]), steps[|steps| - 1])
  }

  ghost predicate LegalFrom(s: State, steps: seq<Step>) {
    steps == [] ||
    (LegalFrom(s, steps[..|steps| - 1]) && Enabled(After(s, steps[..|steps| - 1]), steps[|steps| - 1]))
  }

  function Exec(steps: seq<Step>): State {
    After(INITIAL, steps)
  }

  ghost predicate Legal(steps: seq<Step>) {
    LegalFrom(INITIAL, steps)
  }

  lemma {:induction false} Compose(s: State, a: seq<Step>, b: seq<Step>)
    ensures After(s, a + b) == After(After(s, a), b)
    ensures LegalFrom(s, a + b) <==> LegalFrom(s, a) && LegalFrom(After(s, a), b)
  {
    if b == [] {
      assert a + b == a;
    } else {
      assert (a + b)[..|a + b| - 1] == a + b[..|b| - 1];
      Compose(s, a, b[..|b| - 1]);
    }
  }

  lemma {:induction false} SingleStep(s: State, step: Step)
    ensures After(s, [step]) == Next(s, step)
    ensures LegalFrom(s, [step]) <==> Enabled(s, step)
  {
    assert [step][..0] == [];
  }

  // ----- the invariant -----

  /** What the append in flight has committed. */
  function InFlight(s: State): VectorTable {
    if s.appending.Some? then PutAll(map[], s.appending.value) else map[]
  }

  ghost predicate CoveredIn(row: MirrorRow, ws: multiset<Sweep>) {
    exists w :: w in ws && Expires(w.pair, w.cutoff, row)
  }

  ghost predicate CoveredBy(row: MirrorRow, ws: set<Sweep>) {
    exists w :: w in ws && Expires(w.pair, w.cutoff, row)
  }

  /** A mirrored row is about to be replaced, or is current, or awaits pruning. */
  ghost predicate RowExplained(s: State, x: MirrorRow) {
    x.id in InFlight(s)
    || (x.id in s.table && ToRow(s.table[x.id]) == x)
    || (x.id !in s.table && CoveredIn(x, s.sweeping))
  }

  /** A stored row is about to be mirrored, or is mirrored, or was pruned by a finished sweep. */
  ghost predicate RecordExplained(s: State, id: EventId)
    requires id in s.table
  {
    id in InFlight(s)
    || ToRow(s.table[id]) in s.rows
    || ((forall x :: x in s.rows ==> x.id != id) && CoveredBy(ToRow(s.table[id]), s.finished))
  }

  ghost predicate Mirrored(s: State) {
    Keyed(s.table) && UniqueIds(s.rows) &&
    (forall id :: id in InFlight(s) ==> id in s.table && s.table[id] == InFlight(s)[id]) &&
    (forall x :: x in s.rows ==> RowExplained(s, x)) &&
    (forall id :: id in s.table ==> RecordExplained(s, id))
  }

  lemma {:induction false} AppendCommitMirrored(s: State, step: Step)
    requires Mirrored(s) && Enabled(s, step) && step.AppendCommit?
    ensures Mirrored(Next(s, step))
  {
    var s' := Next(s, step);
    PutAllMerges(s.table, step.records);
    forall x | x in s'.rows ensures RowExplained(s', x) {
      assert RowExplained(s, x);
    }
    forall id | id in s'.table ensures RecordExplained(s', id) {
      if id !in InFlight(s') {
        assert RecordExplained(s, id);
      }
    }
  }

  lemma {:induction false} AppendMirrorMirrored(s: State, step: Step)
    requires Mirrored(s) && Enabled(s, step) && step.AppendMirror?
    ensures Mirrored(Next(s, step))
  {
    var s' := Next(s, step);
    var batch := InFlight(s);
    PutAllMerges(map[], s.appending.value);
    ReflectAllMembers(s.rows, s.appending.value);
    forall x | x in s'.rows ensures RowExplained(s', x) {
      if x.id !in batch {
        assert RowExplained(s, x);
      }
    }
    forall id | id in s'.table ensures RecordExplained(s', id) {
      assert RecordExplained(s, id);
      var row := ToRow(s.table[id]);
      if id in batch {
        assert row in s'.rows;
      } else if row in s.rows {
        assert row in s'.rows;
      } else {
        forall x | x in s'.rows ensures x.id != id {
          assert x.id !in batch ==> x in s.rows;
        }
      }
    }
  }

  lemma {:induction false} SweepDeleteMirrored(s: State, step: Step)
    requires Mirrored(s) && Enabled(s, step) && step.SweepDelete?
    ensures Mirrored(Next(s, step))
  {
    var s' := Next(s, step);
    var w := step.sweep;
    forall x | x in s'.rows ensures RowExplained(s', x) {
      assert RowExplained(s, x);
      if x.id in s.table && x.id !in s'.table {
        assert w in s'.sweeping && Expires(w.pair, w.cutoff, x);
      } else if x.id !in s.table {
        var w0 :| w0 in s.sweeping && Expires(w0.pair, w0.cutoff, x);
        assert w0 in s'.sweeping;
      }
    }
    forall id | id in s'.table ensures RecordExplained(s', id) {
      assert RecordExplained(s, id);
    }
  }

  lemma {:induction false} SweepPruneMirrored(s: State, step: Step)
    requires Mirrored(s) && Enabled(s, step) && step.SweepPrune?
    ensures Mirrored(Next(s, step))
  {
    var s' := Next(s, step);
    var w := step.sweep;
    RetainMembers(s.rows, w.pair, w.cutoff);
    forall x | x in s'.rows ensures RowExplained(s', x) {
      assert RowExplained(s, x);
      if x.id !in InFlight(s) && x.id !in s.table {
        var w0 :| w0 in s.sweeping && Expires(w0.pair, w0.cutoff, x);
        assert w0 in s'.sweeping;
      }
    }
    forall id | id in s'.table ensures RecordExplained(s', id) {
      assert RecordExplained(s, id);
      var row := ToRow(s.table[id]);
      if id !in InFlight(s) && row !in s'.rows {
        PrunedRecord(s, w, id);
      }
    }
  }

  lemma {:induction false} PrunedRecord(s: State, w: Sweep, id: EventId)
    requires Mirrored(s) && id in s.table && id !in InFlight(s)
    requires ToRow(s.table[id]) !in Retain(s.rows, w.pair, w.cutoff)
    ensures (forall x :: x in Retain(s.rows, w.pair, w.cutoff) ==> x.id != id)
    ensures CoveredBy(ToRow(s.table[id]), s.finished + {w})
  {
    var row := ToRow(s.table[id]);
    RetainMembers(s.rows, w.pair, w.cutoff);
    assert RecordExplained(s, id);
    forall x | x in Retain(s.rows, w.pair, w.cutoff) ensures x.id != id {
      assert RowExplained(s, x);
    }
    if row in s.rows {
      assert w in s.finished + {w} && Expires(w.pair, w.cutoff, row);
    } else {
      var w0 :| w0 in s.finished && Expires(w0.pair, w0.cutoff, row);
      assert w0 in s.finished + {w};
    }
  }

  // ----- sessions -----

  /** All stored vectors share one model and dimension; while a session runs they are its own. */
  ghost predicate Uniform(s: State) {
    (forall i, j :: i in s.table && j in s.table ==>
      s.table[i].model == s.table[j].model && |s.table[i].vector| == |s.table[j].vector|) &&
    match s.session
    case Some(own) =>
      (forall id :: id in s.table ==> Own(s.table[id], own)) &&
      (forall x :: x in s.rows ==> |x.vector| == own.dim) &&
      (s.appending.Some? ==> forall r :: r in s.appending.value ==> Own(r, own))
    case None => s.rows == [] && s.appending.None?
  }

  /** Checking the first row read decides for all of them, whatever order they come in. */
  lemma {:induction false} OpenSucceedsExactlyWhen(s: State, order: seq<VectorRecord>, model: string, dim: nat)
    requires Keyed(s.table) && Uniform(s) && Lists(order, s.table)
    ensures Load(order, model, dim).Ok? <==> forall id :: id in s.table ==> Own(s.table[id], Session(model, dim))
  {
    assert forall id :: id in s.table ==> s.table[id] in order;
    assert order != [] ==> order[0] in order;
  }

  lemma {:induction false} OpenUniform(s: State, step: Step)
    requires Keyed(s.table) && Uniform(s) && Enabled(s, step) && step.Open?
    ensures Uniform(Next(s, step))
  {
    OpenSucceedsExactlyWhen(s, step.order, step.model, step.dim);
    ToRowsMembers(step.order);
    var s' := Next(s, step);
    if s'.session.Some? {
      forall x | x in s'.rows ensures |x.vector| == step.dim {
        var i :| 0 <= i < |s'.rows| && s'.rows[i] == x;
        assert step.order[i] in step.order;
      }
    }
  }

  lemma {:induction false} CommitUniform(s: State, step: Step)
    requires Uniform(s) && Enabled(s, step) && step.AppendCommit?
    ensures Uniform(Next(s, step))
  {
    PutAllMerges(s.table, step.records);
    var own, t := s.session.value, Next(s, step).table;
    forall id | id in t ensures Own(t[id], own) {
      assert id in PutAll(map[], step.records) || t[id] == s.table[id];
    }
  }

  lemma {:induction false} MirrorUniform(s: State, step: Step)
    requires Mirrored(s) && Uniform(s) && Enabled(s, step) && step.AppendMirror?
    ensures Uniform(Next(s, step))
  {
    var records := s.appending.value;
    PutAllMerges(map[], records);
    ReflectAllMembers(s.rows, records);
    forall x | x in ReflectAll(s.rows, records) ensures |x.vector| == s.session.value.dim {
      if x.id in PutAll(map[], records) {
        assert PutAll(map[], records)[x.id] in records;
      }
    }
  }

  lemma {:induction false} SweepUniform(s: State, step: Step)
    requires Uniform(s) && Enabled(s, step) && (step.SweepDelete? || step.SweepPrune?)
    requires s.session.None? ==> s.sweeping == multiset{}
    ensures Uniform(Next(s, step))
  {
    RetainMembers(s.rows, step.sweep.pair, step.sweep.cutoff);
  }

  ghost predicate Inv(s: State) {
    Uniform(s) && Keyed(s.table) &&
    if s.session.Some? then Mirrored(s) else s.sweeping == multiset{} && s.finished == {}
  }

  lemma {:induction false} StepKeepsInv(s: State, step: Step)
    requires Inv(s) && Enabled(s, step)
    ensures Inv(Next(s, step))
  {
    match step
    case Open(order, _, _) =>
      OpenUniform(s, step);
      if Next(s, step).session.Some? {
        ReopenMirrored(s, step);
      }
    case AppendCommit(_) => CommitUniform(s, step); AppendCommitMirrored(s, step);
    case AppendMirror => MirrorUniform(s, step); AppendMirrorMirrored(s, step);
    case SweepDelete(_) => SweepUniform(s, step); SweepDeleteMirrored(s, step);
    case SweepPrune(_) => SweepUniform(s, step); SweepPruneMirrored(s, step);
  }

  lemma {:induction false} ReopenMirrored(s: State, step: Step)
    requires Keyed(s.table) && Enabled(s, step) && step.Open? && Next(s, step).session.Some?
    ensures Mirrored(Next(s, step)) && Agree(s.table, Next(s, step).rows)
  {
    LoadAgrees(s.table, step.order);
    var s' := Next(s, step);
    assert step.order == [] ==> s'.rows == ToRows(step.order);
    forall id | id in s'.table ensures RecordExplained(s', id) {
      assert ToRow(s.table[id]).id == id;
    }
  }

  lemma {:induction false} RunsKeepInv(steps: seq<Step>)
    requires Legal(steps)
    ensures Inv(Exec(steps))
  {
    if steps == [] {
    } else {
      var init := steps[..|steps| - 1];
      RunsKeepInv(init);
      StepKeepsInv(Exec(init), steps[|steps| - 1]);
    }
  }

  // ----- the theorems -----

  ghost predicate Quiet(s: State) {
    s.session.Some? && s.appending.None? && s.sweeping == multiset{}
  }

  /** In every run, with every interleaving and any restarts: whenever nothing is in flight,
      mirror ids are unique, every mirrored row is the table's row of its id, and a stored row
      the mirror lacks is older than the cutoff of a finished sweep of its pair. */
  lemma {:induction false} QuietMirrorAgrees(steps: seq<Step>)
    requires Legal(steps) && Quiet(Exec(steps))
    ensures var s := Exec(steps);
            UniqueIds(s.rows) &&
            (forall x :: x in s.rows ==> x.id in s.table && Shows(x, s.table[x.id])) &&
            (forall id :: id in s.table && (forall x :: x in s.rows ==> x.id != id) ==>
              exists w :: w in s.finished && w.pair == Pair(s.table[id].source, s.table[id].kind)
                          && s.table[id].ts < w.cutoff)
  {
    RunsKeepInv(steps);
    var s := Exec(steps);
    forall x | x in s.rows ensures x.id in s.table && Shows(x, s.table[x.id]) {
      assert RowExplained(s, x);
    }
    forall id | id in s.table && (forall x :: x in s.rows ==> x.id != id)
      ensures exists w :: w in s.finished && w.pair == Pair(s.table[id].source, s.table[id].kind)
                          && s.table[id].ts < w.cutoff
    {
      assert RecordExplained(s, id);
      assert ToRow(s.table[id]).id == id;
      var w :| w in s.finished && Expires(w.pair, w.cutoff, ToRow(s.table[id]));
    }
  }

  /** In every run all stored vectors share one model and dimension, and every vector a search
      can meet has the running embedder's dimension, even in the middle of an operation. */
  lemma {:induction false} SessionsStayUniform(steps: seq<Step>)
    requires Legal(steps)
    ensures Uniform(Exec(steps))
    ensures Exec(steps).session.Some? ==>
              forall x :: x in Exec(steps).rows ==> |x.vector| == Exec(steps).session.value.dim
  {
    RunsKeepInv(steps);
  }

  // ----- exactly which appends are safe -----

  /** What a batch leaves of itself: the last record of each id. */
  function Batch(records: seq<VectorRecord>): VectorTable {
    PutAll(map[], records)
  }

  /** No sweep that stands between its two halves covers anything this append would store. */
  ghost predicate SafeAppend(s: State, records: seq<VectorRecord>) {
    forall id :: id in Batch(records) ==> !CoveredIn(ToRow(Batch(records)[id]), s.sweeping)
  }

  ghost predicate SafeRun(steps: seq<Step>) {
    steps == [] ||
    (SafeRun(steps[..|steps| - 1]) &&
     (steps[|steps| - 1].AppendCommit? ==> SafeAppend(Exec(steps[..|steps| - 1]), steps[|steps| - 1].records)))
  }

  /** The record is stored, mirrored or about to be, and no sweep in flight will prune it. */
  ghost predicate Secure(s: State, r: VectorRecord) {
    r.id in s.table && s.table[r.id] == r && !CoveredIn(ToRow(r), s.sweeping) &&
    (r.id in InFlight(s) || ToRow(r) in s.rows)
  }

  /** Once secure, a record stays so until it is swept, appended anew or reloaded. */
  lemma {:induction false} SecureStays(s: State, step: Step, r: VectorRecord)
    requires Mirrored(s) && Enabled(s, step) && Secure(s, r) && !step.Open?
    requires step.AppendCommit? ==> r.id !in Batch(step.records)
    ensures r.id in Next(s, step).table ==> Secure(Next(s, step), r)
  {
    match step
    case AppendCommit(records) => PutAllMerges(s.table, records);
    case AppendMirror =>
      PutAllMerges(map[], s.appending.value);
      ReflectAllMembers(s.rows, s.appending.value);
    case SweepDelete(_) =>
    case SweepPrune(w) => RetainMembers(s.rows, w.pair, w.cutoff);
  }

  lemma {:induction false} SafeAppendSecures(s: State, step: Step, id: EventId)
    requires Enabled(s, step) && step.AppendCommit? && SafeAppend(s, step.records) && id in Batch(step.records)
    ensures Secure(Next(s, step), Batch(step.records)[id])
  {
    PutAllMerges(s.table, step.records);
  }

  /** While a session runs, everything stored is secure. */
  ghost predicate AllSecure(s: State) {
    s.session.Some? ==> forall id :: id in s.table ==> Secure(s, s.table[id])
  }

  lemma {:induction false} OpenSecures(s: State, step: Step)
    requires Keyed(s.table) && Enabled(s, step) && step.Open?
    ensures AllSecure(Next(s, step))
  {
    if Next(s, step).session.Some? {
      ReopenMirrored(s, step);
      var s' := Next(s, step);
      forall id | id in s'.table ensures Secure(s', s'.table[id]) {
        assert ToRow(s'.table[id]).id == id;
      }
    }
  }

  lemma {:induction false} StepKeepsSecure(s: State, step: Step)
    requires Inv(s) && Enabled(s, step) && AllSecure(s)
    requires step.AppendCommit? ==> SafeAppend(s, step.records)
    ensures AllSecure(Next(s, step))
  {
    if step.Open? {
      OpenSecures(s, step);
    } else if s.session.Some? {
      forall id | id in Next(s, step).table ensures Secure(Next(s, step), Next(s, step).table[id]) {
        StoredStaysSecure(s, step, id);
      }
    }
  }

  lemma {:induction false} StoredStaysSecure(s: State, step: Step, id: EventId)
    requires Mirrored(s) && Enabled(s, step) && !step.Open? && AllSecure(s) && s.session.Some?
    requires step.AppendCommit? ==> SafeAppend(s, step.records)
    requires id in Next(s, step).table
    ensures Secure(Next(s, step), Next(s, step).table[id])
  {
    if step.AppendCommit? {
      PutAllMerges(s.table, step.records);
      if id in Batch(step.records) {
        SafeAppendSecures(s, step, id);
      } else {
        SecureStays(s, step, s.table[id]);
      }
    } else {
      SecureStays(s, step, s.table[id]);
    }
  }

  lemma {:induction false} SafeRunsKeepSecure(steps: seq<Step>)
    requires Legal(steps) && SafeRun(steps)
    ensures AllSecure(Exec(steps))
  {
    if steps == [] {
    } else {
      var init := steps[..|steps| - 1];
      SafeRunsKeepSecure(init);
      RunsKeepInv(init);
      StepKeepsSecure(Exec(init), steps[|steps| - 1]);
    }
  }

  /** In every run, however its operations overlap, whose appends are all safe: whenever nothing
      is in flight, table and mirror agree exactly. */
  lemma {:induction false} SafeRunsStayInStep(steps: seq<Step>)
    requires Legal(steps) && SafeRun(steps) && Quiet(Exec(steps))
    ensures Agree(Exec(steps).table, Exec(steps).rows)
  {
    SafeRunsKeepSecure(steps);
    RunsKeepInv(steps);
    QuietMirrorAgrees(steps);
    var s := Exec(steps);
    forall x ensures x in s.rows <==> x.id in s.table && Shows(x, s.table[x.id]) {
      if x.id in s.table {
        assert Secure(s, s.table[x.id]);
      }
    }
  }

  /** Only what is already in flight goes on. */
  ghost predicate WindsDown(tail: seq<Step>) {
    forall step :: step in tail ==> step.AppendMirror? || step.SweepPrune?
  }

  lemma {:induction false} SecureThroughout(s: State, tail: seq<Step>, r: VectorRecord)
    requires Inv(s) && s.session.Some? && Secure(s, r) && WindsDown(tail) && LegalFrom(s, tail)
    ensures Inv(After(s, tail)) && After(s, tail).session.Some? && Secure(After(s, tail), r)
  {
    if tail == [] {
    } else {
      var init, step := tail[..|tail| - 1], tail[|tail| - 1];
      assert step in tail;
      SecureThroughout(s, init, r);
      StepKeepsInv(After(s, init), step);
      SecureStays(After(s, init), step, r);
    }
  }

  lemma {:induction false} CoveredByRest(x: MirrorRow, ws: multiset<Sweep>, w: Sweep)
    requires w in ws && !CoveredIn(x, ws - multiset{w}) && !Expires(w.pair, w.cutoff, x)
    ensures !CoveredIn(x, ws)
  {
    forall w0 | w0 in ws ensures !Expires(w0.pair, w0.cutoff, x) {
      assert w0 == w || w0 in ws - multiset{w};
    }
  }

  /** Every sweep in flight can finish; then nothing any of them covers is mirrored. */
  lemma {:induction false} Drain(s: State) returns (tail: seq<Step>)
    requires s.session.Some? && s.appending.None?
    ensures WindsDown(tail) && LegalFrom(s, tail) && Quiet(After(s, tail)) && After(s, tail).table == s.table
    ensures forall x :: x in After(s, tail).rows ==> x in s.rows && !CoveredIn(x, s.sweeping)
    decreases |s.sweeping|
  {
    if s.sweeping == multiset{} {
      tail := [];
    } else {
      var w :| w in s.sweeping;
      var rest := Drain(Next(s, SweepPrune(w)));
      tail := [SweepPrune(w)] + rest;
      SingleStep(s, SweepPrune(w));
      Compose(s, [SweepPrune(w)], rest);
      RetainMembers(s.rows, w.pair, w.cutoff);
      forall x | x in After(s, tail).rows ensures x in s.rows && !CoveredIn(x, s.sweeping) {
        CoveredByRest(x, s.sweeping, w);
      }
    }
  }

  ghost predicate MirrorsBatch(s: State, records: seq<VectorRecord>) {
    forall id :: id in Batch(records) ==> ToRow(Batch(records)[id]) in s.rows
  }

  /** Some way of letting everything in flight finish leaves the unsafe record stored, unmirrored. */
  lemma {:induction false} UnsafeAppendCanHide(s: State, records: seq<VectorRecord>, id: EventId)
      returns (tail: seq<Step>)
    requires Enabled(s, AppendCommit(records))
    requires id in Batch(records) && CoveredIn(ToRow(Batch(records)[id]), s.sweeping)
    ensures WindsDown(tail) && LegalFrom(Next(s, AppendCommit(records)), tail)
    ensures var end := After(Next(s, AppendCommit(records)), tail);
            Quiet(end) && id in end.table && end.table[id] == Batch(records)[id] && ToRow(end.table[id]) !in end.rows
  {
    var committed := Next(s, AppendCommit(records));
    var rest := Drain(Next(committed, AppendMirror));
    tail := [AppendMirror] + rest;
    SingleStep(committed, AppendMirror);
    Compose(committed, [AppendMirror], rest);
    PutAllMerges(s.table, records);
  }

  /** An append is safe exactly when, however what is in flight then finishes, all it stored is
      mirrored in the end. */
  lemma {:induction false} AppendSafeExactlyWhen(steps: seq<Step>, records: seq<VectorRecord>)
    requires Legal(steps) && Enabled(Exec(steps), AppendCommit(records))
    ensures var committed := Next(Exec(steps), AppendCommit(records));
            SafeAppend(Exec(steps), records) <==>
              forall tail :: WindsDown(tail) && LegalFrom(committed, tail) && Quiet(After(committed, tail)) ==>
                MirrorsBatch(After(committed, tail), records)
  {
    var s := Exec(steps);
    var committed := Next(s, AppendCommit(records));
    if SafeAppend(s, records) {
      RunsKeepInv(steps);
      StepKeepsInv(s, AppendCommit(records));
      forall tail | WindsDown(tail) && LegalFrom(committed, tail) && Quiet(After(committed, tail))
        ensures MirrorsBatch(After(committed, tail), records)
      {
        SafeBatchMirrored(s, records, tail);
      }
    } else {
      var id :| id in Batch(records) && CoveredIn(ToRow(Batch(records)[id]), s.sweeping);
      var tail := UnsafeAppendCanHide(s, records, id);
      assert !MirrorsBatch(After(committed, tail), records);
    }
  }

  lemma {:induction false} SafeBatchMirrored(s: State, records: seq<VectorRecord>, tail: seq<Step>)
    requires Enabled(s, AppendCommit(records)) && SafeAppend(s, records) && Inv(Next(s, AppendCommit(records)))
    requires WindsDown(tail) && LegalFrom(Next(s, AppendCommit(records)), tail)
    requires Quiet(After(Next(s, AppendCommit(records)), tail))
    ensures MirrorsBatch(After(Next(s, AppendCommit(records)), tail), records)
  {
    var committed := Next(s, AppendCommit(records));
    forall id | id in Batch(records) ensures ToRow(Batch(records)[id]) in After(committed, tail).rows {
      SafeAppendSecures(s, AppendCommit(records), id);
      SecureThroughout(committed, tail, Batch(records)[id]);
    }
  }

  // ----- operations that do not overlap -----

  datatype Whole =
    | WholeOpen(order: seq<VectorRecord>, model: string, dim: nat)
    | WholeAppend(records: seq<VectorRecord>)
    | WholeSweep(sweep: Sweep)

  function Halves(op: Whole): seq<Step> {
    match op
    case WholeOpen(order, model, dim) => [Open(order, model, dim)]
    case WholeAppend(records) => if records == [] then [] else [AppendCommit(records), AppendMirror]
    case WholeSweep(w) => [SweepDelete(w), SweepPrune(w)]
  }

  function Unfold(ops: seq<Whole>): seq<Step> {
    if ops == [] then [] else Unfold(ops[..|ops| - 1]) + Halves(ops[|ops| - 1])
  }

  ghost predicate InAgreement(s: State) {
    s.session.Some? ==> Agree(s.table, s.rows)
  }

  lemma {:induction false} OpenGivesAgreement(s: State, open: Step)
    requires open.Open? && Keyed(s.table) && Enabled(s, open)
    ensures InAgreement(Next(s, open))
  {
    if Next(s, open).session.Some? {
      ReopenMirrored(s, open);
    }
  }

  lemma {:induction false} TwoSteps(s: State, a: Step, b: Step)
    ensures After(s, [a, b]) == Next(Next(s, a), b)
    ensures LegalFrom(s, [a, b]) ==> Enabled(s, a)
  {
    assert [a, b] == [a] + [b];
    Compose(s, [a], [b]);
    SingleStep(s, a);
    SingleStep(Next(s, a), b);
  }

  lemma {:induction false} WholeKeepsAgreement(s: State, op: Whole)
    requires Keyed(s.table) && LegalFrom(s, Halves(op)) && InAgreement(s)
    ensures InAgreement(After(s, Halves(op)))
  {
    match op {
      case WholeOpen(order, model, dim) =>
        SingleStep(s, Open(order, model, dim));
        OpenGivesAgreement(s, Open(order, model, dim));
      case WholeAppend(records) =>
        if records != [] {
          TwoSteps(s, AppendCommit(records), AppendMirror);
          AppendKeepsAgreement(s.table, s.rows, records);
        }
      case WholeSweep(w) =>
        TwoSteps(s, SweepDelete(w), SweepPrune(w));
        SweepKeepsAgreement(s.table, s.rows, w.pair, w.cutoff);
    }
  }

  /** In every history of opens, appends and sweeps that never overlap, table and mirror agree
      exactly while a session runs, ... */
  lemma {:induction false} WholeOpsStayInStep(ops: seq<Whole>)
    requires Legal(Unfold(ops))
    ensures Exec(Unfold(ops)).session.Some? ==> Agree(Exec(Unfold(ops)).table, Exec(Unfold(ops)).rows)
  {
    if ops == [] {
    } else {
      var init, op := ops[..|ops| - 1], ops[|ops| - 1];
      Compose(INITIAL, Unfold(init), Halves(op));
      WholeOpsStayInStep(init);
      RunsKeepInv(Unfold(init));
      WholeKeepsAgreement(Exec(Unfold(init)), op);
    }
  }

  /** ... so reopening, whatever order the rows come in, loads the very rows already in memory. */
  lemma {:induction false} ReopenLoadsTheSameRows(ops: seq<Whole>, order: seq<VectorRecord>)
    requires Legal(Unfold(ops)) && Exec(Unfold(ops)).session.Some?
    requires Lists(order, Exec(Unfold(ops)).table)
    ensures var s := Exec(Unfold(ops));
            Load(order, s.session.value.model, s.session.value.dim) == Ok(ToRows(order)) &&
            forall x :: x in ToRows(order) <==> x in s.rows
  {
    var s := Exec(Unfold(ops));
    WholeOpsStayInStep(ops);
    LoadAgrees(s.table, order);
    RunsKeepInv(Unfold(ops));
    OpenSucceedsExactlyWhen(s, order, s.session.value.model, s.session.value.dim);
    assert order == [] ==> ToRows(order) == [];
  }

  function Covering(r: VectorRecord): Sweep {
    Sweep(Pair(r.source, r.kind), r.ts + 1)
  }

  /** Open, then a sweep with an append between its halves. */
  function OverlappingRun(r: VectorRecord): seq<Step> {
    [Open([], r.model, |r.vector|), SweepDelete(Covering(r)), AppendCommit([r]), AppendMirror, SweepPrune(Covering(r))]
  }

  /** The states along it. */
  function Along(r: VectorRecord, n: nat): State {
    var own, w := Some(Session(r.model, |r.vector|)), Covering(r);
    if n == 0 then INITIAL
    else if n == 1 then State(map[], [], None, multiset{}, {}, own)
    else if n == 2 then State(map[], [], None, multiset{w}, {}, own)
    else if n == 3 then State(map[r.id := r], [], Some([r]), multiset{w}, {}, own)
    else if n == 4 then State(map[r.id := r], [ToRow(r)], None, multiset{w}, {}, own)
    else State(map[r.id := r], [], None, multiset{}, {w}, own)
  }

  lemma {:induction false} AlongOpen(r: VectorRecord)
    ensures Enabled(Along(r, 0), Open([], r.model, |r.vector|))
    ensures Next(Along(r, 0), Open([], r.model, |r.vector|)) == Along(r, 1)
  {
  }

  lemma {:induction false} AlongDelete(r: VectorRecord)
    ensures Next(Along(r, 1), SweepDelete(Covering(r))) == Along(r, 2)
  {
    assert DeleteOlder(map[], Covering(r).pair, Covering(r).cutoff) == map[];
    assert multiset{} + multiset{Covering(r)} == multiset{Covering(r)};
  }

  lemma {:induction false} AlongCommit(r: VectorRecord)
    ensures Enabled(Along(r, 2), AppendCommit([r])) && Next(Along(r, 2), AppendCommit([r])) == Along(r, 3)
  {
    assert [r][..0] == [];
    assert PutAll(map[], [r]) == map[r.id := r];
  }

  lemma {:induction false} AlongMirror(r: VectorRecord)
    ensures Next(Along(r, 3), AppendMirror) == Along(r, 4)
  {
    assert [r][..0] == [];
    assert ReflectAll([], []) == [];
    assert Reflect([], r) == [] + [ToRow(r)];
  }

  lemma {:induction false} AlongPrune(r: VectorRecord)
    ensures Next(Along(r, 4), SweepPrune(Covering(r))) == Along(r, 5)
  {
    assert Retain([ToRow(r)], Covering(r).pair, Covering(r).cutoff) == [];
    assert multiset{Covering(r)} - multiset{Covering(r)} == multiset{};
  }

  lemma {:induction false} AlongNext(r: VectorRecord, n: nat)
    requires n < 5
    ensures Enabled(Along(r, n), OverlappingRun(r)[n]) && Next(Along(r, n), OverlappingRun(r)[n]) == Along(r, n + 1)
  {
    if n == 0 { AlongOpen(r); }
    if n == 1 { AlongDelete(r); }
    if n == 2 { AlongCommit(r); }
    if n == 3 { AlongMirror(r); }
    if n == 4 { AlongPrune(r); }
  }

  lemma {:induction false} OneStepOn(run: seq<Step>, n: nat, s: State, s': State)
    requires n < |run| && Legal(run[..n]) && Exec(run[..n]) == s && Enabled(s, run[n]) && Next(s, run[n]) == s'
    ensures Legal(run[..n + 1]) && Exec(run[..n + 1]) == s'
  {
    assert run[..n + 1][..n] == run[..n];
  }

  lemma {:induction false} Unrolls(r: VectorRecord, n: nat)
    requires n <= 5
    ensures Legal(OverlappingRun(r)[..n]) && Exec(OverlappingRun(r)[..n]) == Along(r, n)
  {
    if n == 0 {
    } else {
      Unrolls(r, n - 1);
      AlongNext(r, n - 1);
      OneStepOn(OverlappingRun(r), n - 1, Along(r, n - 1), Along(r, n));
    }
  }

  /** Unsafe appends do happen: a record appended between the two halves of a sweep that covers
      it is stored but not searchable until the index is reopened. */
  lemma {:induction false} OverlapCanHideARow(r: VectorRecord)
    ensures var s := Exec(OverlappingRun(r));
            Legal(OverlappingRun(r)) && Quiet(s) && r.id in s.table && s.rows == []
  {
    Unrolls(r, 5);
    assert OverlappingRun(r)[..5] == OverlappingRun(r);
  }

  // ----- the embedder task supplies its own records -----

  /** The running embedder; `prepare` serialises, truncates and flags a payload. */
  datatype Embedder = Embedder(model: string, dim: nat, embed: string -> seq<real>, prepare: Json -> (string, bool))

  ghost predicate Regular(m: Embedder) {
    forall text :: |m.embed(text)| == m.dim
  }

  function BuildRecord(m: Embedder, e: Event): VectorRecord {
    var (text, truncated) := m.prepare(e.semantic);
    VectorRecord(e.id, e.source, e.kind, e.ts, truncated, m.model, m.embed(text))
  }

  /** The record of an event: its own id, source, kind and time, and the vector of its payload's
      prepared text, with the flag that preparing gave. */
  ghost predicate Embeds(m: Embedder, e: Event, r: VectorRecord) {
    r.id == e.id && r.source == e.source && r.kind == e.kind && r.ts == e.ts && r.model == m.model &&
    r.vector == m.embed(m.prepare(e.semantic).0) && r.truncated == m.prepare(e.semantic).1
  }

  /** A flushed buffer becomes one record per event, in order, all of them the session's own, so
      an embedder task only ever makes appends the protocol allows. */
  method BuildRecords(m: Embedder, buf: seq<Event>) returns (records: seq<VectorRecord>)
    ensures |records| == |buf| && forall i :: 0 <= i < |buf| ==> Embeds(m, buf[i], records[i])
    ensures Regular(m) ==> forall r :: r in records ==> Own(r, Session(m.model, m.dim))
  {
    records := [];
    for i := 0 to |buf|
      invariant |records| == i && forall j :: 0 <= j < i ==> Embeds(m, buf[j], records[j])
    {
      records := records + [BuildRecord(m, buf[i])];
    }
    if Regular(m) {
      forall r | r in records ensures Own(r, Session(m.model, m.dim)) {
        var i :| 0 <= i < |records| && records[i] == r;
        assert |m.embed(m.prepare(buf[i].semantic).0)| == m.dim;
      }
    }
  }
}
