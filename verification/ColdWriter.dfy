/** The cold writer task: batches into the cold store, with its counters. */
module ColdWriter {
  import opened Events
  import opened ColdTable
  import opened ColdStore
  import opened BatchFlush

  type Entry = Flush<Event, bool>

  /** Events of the batches whose transaction went through, in order. */
  function Committed(log: seq<Entry>): seq<Event> {
    if log == [] then []
    else Committed(log[..|log| - 1]) + (if log[|log| - 1].outcome then log[|log| - 1].batch else [])
  }

  function Lost(log: seq<Entry>): nat {
    if log == [] then 0 else Lost(log[..|log| - 1]) + (if log[|log| - 1].outcome then 0 else |log[|log| - 1].batch|)
  }

  /** How many transactions went through. */
  function Commits(log: seq<Entry>): nat {
    if log == [] then 0 else Commits(log[..|log| - 1]) + (if log[|log| - 1].outcome then 1 else 0)
  }

  lemma {:induction false} CommittedOrLost(log: seq<Entry>)
    ensures |Committed(log)| + Lost(log) == |Sent(log)|
  {
    if log == [] {
    } else {
      CommittedOrLost(log[..|log| - 1]);
    }
  }

  /** What one more flush adds to each account. */
  lemma {:induction false} OneMoreFlush(log: seq<Entry>, batch: seq<Event>, ok: bool, log': seq<Entry>)
    requires log' == log + [Flush(batch, ok)]
    ensures Committed(log') == if ok then Committed(log) + batch else Committed(log)
    ensures Lost(log') == Lost(log) + if ok then 0 else |batch|
    ensures Commits(log') == Commits(log) + if ok then 1 else 0
  {
    assert log'[..|log'| - 1] == log;
    assert Committed(log) + [] == Committed(log);
  }

  class ColdWriterTask {
    const store: ColdStore
    const batchSize: nat
    var buf: seq<Event>
    var batchesCommitted: nat
    var eventsCommitted: nat
    var eventsDropped: nat
    var commitErrors: nat
    var pendingBuffer: nat
    ghost var log: seq<Entry>
    ghost const events0: Table        // what the store held to begin with
    ghost const latest0: LatestTable

    /** Counters and store agree with the log of flushes. */
    ghost predicate Valid()
      reads this, store
    {
      store.Valid() && pendingBuffer == |buf| &&
      eventsCommitted == |Committed(log)| && eventsDropped == Lost(log) &&
      batchesCommitted == Commits(log) && batchesCommitted + commitErrors == |log| &&
      store.events == InsertAll(events0, Committed(log)) &&
      store.latest == UpsertAll(latest0, Committed(log))
    }

    constructor (store: ColdStore, batchSize: nat)
      requires store.Valid()
      ensures Valid() && this.store == store && this.batchSize == batchSize && buf == [] && log == []
      ensures events0 == store.events && latest0 == store.latest
    {
      this.store, this.batchSize := store, batchSize;
      buf, batchesCommitted, eventsCommitted, eventsDropped, commitErrors, pendingBuffer := [], 0, 0, 0, 0, 0;
      log, events0, latest0 := [], store.events, store.latest;
    }

    /** The buffer goes to the store, after everything committed before. */
    method CommitBuffer()
      requires Valid()
      modifies store
      ensures store.Valid()
      ensures store.events == InsertAll(events0, Committed(log) + buf)
      ensures store.latest == UpsertAll(latest0, Committed(log) + buf)
    {
      InsertAllConcat(events0, Committed(log), buf);
      UpsertAllConcat(latest0, Committed(log), buf);
      store.Append(buf);
    }

    /** `ok` says whether the transaction goes through. */
    method FlushBuffer(ok: bool)
      requires Valid()
      modifies this, store
      ensures Valid() && buf == [] && log == old(log) + [Flush(old(buf), ok)]
    {
      ghost var log' := log + [Flush(buf, ok)];
      OneMoreFlush(log, buf, ok, log');
      var n := |buf|;
      if ok {
        CommitBuffer();
        batchesCommitted := batchesCommitted + 1;
        eventsCommitted := eventsCommitted + n;
      } else {
        commitErrors := commitErrors + 1;
        eventsDropped := eventsDropped + n;
      }
      buf := [];
      log := log';
      pendingBuffer := 0;
    }

    /** One turn of the select loop; `closed` ends the task. */
    method OnWake(w: Wake<Event, bool>) returns (closed: bool)
      requires Valid()
      modifies this, store
      ensures Valid()
      ensures closed == w.signal.Close?
      ensures Task(buf, log, closed) == Turn(Task(old(buf), old(log), false), batchSize, w)
    {
      closed := false;
      match w.signal
      case Recv(e) =>
        buf := buf + [e];
        pendingBuffer := |buf|;
        if |buf| >= batchSize {
          FlushBuffer(w.outcome);
        }
      case Tick =>
        if buf != [] {
          FlushBuffer(w.outcome);
        }
      case Close =>
        if buf != [] {
          FlushBuffer(w.outcome);
        }
        closed := true;
    }

    /** The whole task, fed with an arbitrary run of wake-ups. */
    method Run(wakes: seq<Wake<Event, bool>>)
      requires Valid() && buf == [] && log == []
      modifies this, store
      ensures Valid()
      ensures buf == RunTask(batchSize, wakes).buf && log == RunTask(batchSize, wakes).log
      ensures eventsCommitted + eventsDropped + |buf| == |Received(wakes)|
      ensures Closed(wakes) ==> buf == []
    {
      var done := false;
      var i := 0;
      while i < |wakes| && !done
        invariant 0 <= i <= |wakes| && Valid()
        invariant Task(buf, log, done) == RunTask(batchSize, wakes[..i])
      {
        assert wakes[..i + 1][..i] == wakes[..i];
        done := OnWake(wakes[i]);
        i := i + 1;
      }
      DoneStaysDone(batchSize, wakes, i);
      CommittedOrLost(log);
      RunKeeps(batchSize, wakes);
    }
  }
}
