/** The buffer-and-flush loop shared by the cold writer, the embedder task, the forwarder and
    the client-side batcher, for every interleaving of receives, timer ticks and close. */
module BatchFlush {
  import opened Prelude

  datatype Signal<T> = Recv(item: T) | Tick | Close

  /** One wake-up of the select loop, with the outcome a flush would have if it happens now. */
  datatype Wake<T, R> = Wake(signal: Signal<T>, outcome: R)

  datatype Flush<T, R> = Flush(batch: seq<T>, outcome: R)

  datatype Task<T, R> = Task(buf: seq<T>, log: seq<Flush<T, R>>, done: bool)

  function Start<T, R>(): Task<T, R> {
    Task([], [], false)
  }

  function FlushNow<T, R>(t: Task<T, R>, outcome: R): Task<T, R> {
    Task([], t.log + [Flush(t.buf, outcome)], t.done)
  }

  function Turn<T, R>(t: Task<T, R>, size: nat, w: Wake<T, R>): Task<T, R> {
    if t.done then t
    else match w.signal
      case Recv(x) =>
        var t' := t.(buf := t.buf + [x]);
        if |t'.buf| >= size then FlushNow(t', w.outcome) else t'
      case Tick => if t.buf != [] then FlushNow(t, w.outcome) else t
      case Close => (if t.buf != [] then FlushNow(t, w.outcome) else t).(done := true)
  }

  function RunTask<T, R>(size: nat, wakes: seq<Wake<T, R>>): Task<T, R> {
    if wakes == [] then Start() else Turn(RunTask(size, wakes[..|wakes| - 1]), size, wakes[|wakes| - 1])
  }

  predicate Closed<T, R>(wakes: seq<Wake<T, R>>) {
    wakes != [] && (wakes[|wakes| - 1].signal.Close? || Closed(wakes[..|wakes| - 1]))
  }

  /** What the channel delivered before it closed. */
  function Received<T, R>(wakes: seq<Wake<T, R>>): seq<T> {
    if wakes == [] then []
    else
      var init, w := wakes[..|wakes| - 1], wakes[|wakes| - 1];
      if w.signal.Recv? && !Closed(init) then Received(init) + [w.signal.item] else Received(init)
  }

  function Batches<T, R>(log: seq<Flush<T, R>>): seq<seq<T>> {
    if log == [] then [] else Batches(log[..|log| - 1]) + [log[|log| - 1].batch]
  }

  /** Everything flushed so far, end to end. */
  function Sent<T, R>(log: seq<Flush<T, R>>): seq<T> {
    if log == [] then [] else Sent(log[..|log| - 1]) + log[|log| - 1].batch
  }

  lemma {:induction false} SentIsConcat<T, R>(log: seq<Flush<T, R>>)
    ensures Sent(log) == Concat(Batches(log))
  {
    if log == [] {
    } else {
      SentIsConcat(log[..|log| - 1]);
      ConcatSnoc(Batches(log[..|log| - 1]), log[|log| - 1].batch);
    }
  }

  ghost predicate Sized<T, R>(log: seq<Flush<T, R>>, size: nat) {
    forall f :: f in log ==> 1 <= |f.batch| <= Max(1, size)
  }

  ghost predicate TaskInv<T, R>(t: Task<T, R>, size: nat, received: seq<T>, closed: bool) {
    Sent(t.log) + t.buf == received && Sized(t.log, size) && |t.buf| < Max(1, size) &&
    (t.done <==> closed) && (t.done ==> t.buf == [])
  }

  lemma {:induction false} FlushKeeps<T, R>(t: Task<T, R>, size: nat, outcome: R)
    requires Sized(t.log, size) && 1 <= |t.buf| <= Max(1, size)
    ensures Sized(FlushNow(t, outcome).log, size)
    ensures Sent(FlushNow(t, outcome).log) + FlushNow(t, outcome).buf == Sent(t.log) + t.buf
  {
    var log' := FlushNow(t, outcome).log;
    assert log'[..|log'| - 1] == t.log;
  }

  lemma {:induction false} TurnKeeps<T, R>(t: Task<T, R>, size: nat, received: seq<T>, closed: bool, w: Wake<T, R>)
    requires TaskInv(t, size, received, closed)
    ensures TaskInv(Turn(t, size, w), size,
                    if w.signal.Recv? && !closed then received + [w.signal.item] else received,
                    closed || w.signal.Close?)
  {
    if !t.done {
      match w.signal
      case Recv(x) =>
        var t' := t.(buf := t.buf + [x]);
        assert Sent(t.log) + (t.buf + [x]) == received + [x];
        if |t'.buf| >= size {
          FlushKeeps(t', size, w.outcome);
        }
      case Tick => if t.buf != [] { FlushKeeps(t, size, w.outcome); }
      case Close => if t.buf != [] { FlushKeeps(t, size, w.outcome); }
    }
  }

  lemma {:induction false} RunKeeps<T, R>(size: nat, wakes: seq<Wake<T, R>>)
    ensures TaskInv(RunTask(size, wakes), size, Received(wakes), Closed(wakes))
  {
    if wakes == [] {
    } else {
      var init := wakes[..|wakes| - 1];
      RunKeeps(size, init);
      TurnKeeps(RunTask(size, init), size, Received(init), Closed(init), wakes[|wakes| - 1]);
    }
  }

  /** For every interleaving: flushed batches followed by the buffer are the received items in
      order; each batch has 1 to max(1, size) items; right after a tick, and ever after close, nothing
      is left buffered. */
  lemma {:induction false} BatchesPartitionInput<T, R>(size: nat, wakes: seq<Wake<T, R>>)
    ensures var t := RunTask(size, wakes);
            Concat(Batches(t.log)) + t.buf == Received(wakes) &&
            (forall f :: f in t.log ==> 1 <= |f.batch| <= Max(1, size)) &&
            (Closed(wakes) || (wakes != [] && wakes[|wakes| - 1].signal.Tick?) ==> t.buf == [])
  {
    RunKeeps(size, wakes);
    SentIsConcat(RunTask(size, wakes).log);
    if wakes != [] {
      RunKeeps(size, wakes[..|wakes| - 1]);
    }
  }

  // ----- when a batch goes out -----

  /** What the task holds once it has taken in this wake-up. */
  ghost function Held<T, R>(buf: seq<T>, w: Wake<T, R>): seq<T> {
    if w.signal.Recv? then buf + [w.signal.item] else buf
  }

  /** A receive calls for a flush once `size` items are held, a tick and the close whenever there are any. */
  ghost predicate CallsForFlush<T, R>(size: nat, buf: seq<T>, w: Wake<T, R>) {
    Held(buf, w) != [] && (w.signal.Recv? ==> |Held(buf, w)| >= size)
  }

  /** The task flushes at its k-th wake-up exactly if that calls for it: everything it holds, with this
      wake-up's outcome; otherwise it keeps all of that buffered. */
  lemma {:induction false} FlushesExactlyWhen<T, R>(size: nat, wakes: seq<Wake<T, R>>, k: nat)
    requires k < |wakes| && !Closed(wakes[..k])
    ensures var before, after := RunTask(size, wakes[..k]), RunTask(size, wakes[..k + 1]);
            if CallsForFlush(size, before.buf, wakes[k]) then
              after.log == before.log + [Flush(Held(before.buf, wakes[k]), wakes[k].outcome)] && after.buf == []
            else
              after.log == before.log && after.buf == Held(before.buf, wakes[k])
  {
    assert wakes[..k + 1][..k] == wakes[..k];
    RunKeeps(size, wakes[..k]);
  }

  /** The i-th batch went out at the k-th wake-up. */
  ghost predicate WentOutAt<T, R>(size: nat, wakes: seq<Wake<T, R>>, i: nat, k: nat) {
    k < |wakes| &&
    var before, log := RunTask(size, wakes[..k]), RunTask(size, wakes).log;
    i < |log| && before.log == log[..i] && CallsForFlush(size, before.buf, wakes[k]) &&
    log[i] == Flush(Held(before.buf, wakes[k]), wakes[k].outcome)
  }

  lemma {:induction false} FlushGoesOut<T, R>(size: nat, wakes: seq<Wake<T, R>>)
    requires wakes != [] && RunTask(size, wakes).log != RunTask(size, wakes[..|wakes| - 1]).log
    ensures var log := RunTask(size, wakes).log;
            log != [] && WentOutAt(size, wakes, |log| - 1, |wakes| - 1)
            && log[..|log| - 1] == RunTask(size, wakes[..|wakes| - 1]).log
  {
    RunKeeps(size, wakes[..|wakes| - 1]);
  }

  /** Every batch went out at some wake-up that called for it; so one shorter than max(1, size) was sent
      by a tick or the close, never by a receive. */
  lemma {:induction false} ShortBatchesOnTimer<T, R>(size: nat, wakes: seq<Wake<T, R>>, i: nat) returns (k: nat)
    requires i < |RunTask(size, wakes).log|
    ensures WentOutAt(size, wakes, i, k)
    ensures |RunTask(size, wakes).log[i].batch| < Max(1, size) ==> wakes[k].signal.Tick? || wakes[k].signal.Close?
  {
    var init := wakes[..|wakes| - 1];
    var log, log0 := RunTask(size, wakes).log, RunTask(size, init).log;
    if log != log0 {
      FlushGoesOut(size, wakes);
    }
    if i < |log0| {
      k := ShortBatchesOnTimer(size, init, i);
      assert wakes[..k] == init[..k] && log[..i] == log0[..i];
    } else {
      k := |wakes| - 1;
    }
  }

  lemma {:induction false} DoneStaysDone<T, R>(size: nat, wakes: seq<Wake<T, R>>, i: nat)
    requires i <= |wakes| && (i == |wakes| || RunTask(size, wakes[..i]).done)
    ensures RunTask(size, wakes) == RunTask(size, wakes[..i])
    decreases |wakes| - i
  {
    if i == |wakes| {
      assert wakes[..i] == wakes;
    } else {
      assert wakes[..i + 1][..i] == wakes[..i];
      DoneStaysDone(size, wakes, i + 1);
    }
  }
}
