/** The edge-to-hub forwarder: what it sends, and its counters. */
module Forwarder {
  import opened Prelude
  import opened Events
  import opened Client
  import opened BatchFlush
  import opened Normalizer

  function Prefixed(peer: string, source: string): string {
    peer + "." + source
  }

  /** The wire form of a local event. Links are not carried over. */
  function ToClientEvent(peer: string, e: Event): IngestEvent {
    IngestEvent(Some(e.id), Prefixed(peer, e.source), e.kind, e.ts, e.semantic, None, e.traceId, e.producerId)
  }

  /** What the wire form says of the local event: all but links, under the prefixed source. */
  ghost predicate OnTheWire(peer: string, e: Event, x: IngestEvent) {
    x.id == Some(e.id) && x.source == peer + "." + e.source && x.kind == e.kind && x.ts == e.ts &&
    x.semantic == e.semantic && x.links.None? && x.traceId == e.traceId && x.producerId == e.producerId
  }

  // ----- peers do not collide on the hub -----

  lemma {:induction false} DotPosition(p: string, q: string, s: string, t: string)
    requires p + "." + s == q + "." + t && |p| <= |q|
    ensures p == q || p + "." <= q
  {
    var whole := p + "." + s;
    assert whole == q + "." + t;
    assert p == whole[..|p|] == q[..|p|];
    if |p| < |q| {
      assert whole[|p|] == '.' && whole[|p|] == q[|p|];
      assert (p + ".") == q[..|p| + 1];
    }
  }

  /** Two different peers can produce the same source id exactly when one's name continues the
      other's after a dot. */
  lemma {:induction false} PeersCollideExactlyWhen(p: string, q: string)
    requires p != q
    ensures (exists s, t :: Prefixed(p, s) == Prefixed(q, t)) <==> p + "." <= q || q + "." <= p
    ensures forall s :: Prefixed(p, s) == p + "." + s
  {
    forall s, t | Prefixed(p, s) == Prefixed(q, t) ensures p + "." <= q || q + "." <= p {
      if |p| <= |q| { DotPosition(p, q, s, t); } else { DotPosition(q, p, t, s); }
    }
    if p + "." <= q {
      var s := q[|p| + 1..] + ".";
      assert Prefixed(p, s) == Prefixed(q, "");
    }
    if q + "." <= p {
      var t := p[|q| + 1..] + ".";
      assert Prefixed(p, "") == Prefixed(q, t);
    }
  }

  lemma {:induction false} ContinuedNameHasDot(p: string, q: string)
    ensures p + "." <= q ==> '.' in q
  {
    if p + "." <= q {
      assert q[|p|] == (p + ".")[|p|];
    }
  }

  /** For peer names without dots the prefixed id determines both peer and source. */
  lemma {:induction false} PrefixInjective(p: string, s: string, q: string, t: string)
    requires '.' !in p && '.' !in q && Prefixed(p, s) == Prefixed(q, t)
    ensures p == q && s == t
  {
    if |p| <= |q| { DotPosition(p, q, s, t); } else { DotPosition(q, p, t, s); }
    ContinuedNameHasDot(p, q);
    ContinuedNameHasDot(q, p);
    assert s == (p + "." + s)[|p| + 1..] && t == (q + "." + t)[|q| + 1..];
  }

  // ----- the task -----

  type Entry = Flush<IngestEvent, Result<nat, ClientError>>

  function Forwarded(log: seq<Entry>): nat {
    if log == [] then 0
    else Forwarded(log[..|log| - 1]) + (match log[|log| - 1].outcome case Ok(n) => n case Err(_) => 0)
  }

  function Dropped(log: seq<Entry>): nat {
    if log == [] then 0
    else
      var f := log[|log| - 1];
      Dropped(log[..|log| - 1]) + (match f.outcome
        case Ok(n) => if n < |f.batch| then |f.batch| - n else 0
        case Err(_) => |f.batch|)
  }

  /** How many batches the hub answered with success. */
  function Successes(log: seq<Entry>): nat {
    if log == [] then 0 else Successes(log[..|log| - 1]) + (if log[|log| - 1].outcome.Ok? then 1 else 0)
  }

  /** No success claims more events than were sent. */
  ghost predicate Honest(log: seq<Entry>) {
    forall f :: f in log && f.outcome.Ok? ==> f.outcome.value <= |f.batch|
  }

  /** Forwarded + dropped never falls short of what was sent, and equals it exactly when the hub
      never claimed more than it was sent. */
  lemma {:induction false} ForwarderBalance(log: seq<Entry>)
    ensures Forwarded(log) + Dropped(log) >= |Sent(log)|
    ensures Forwarded(log) + Dropped(log) == |Sent(log)| <==> Honest(log)
  {
    if log == [] {
    } else {
      var init, f := log[..|log| - 1], log[|log| - 1];
      ForwarderBalance(init);
      assert log == init + [f];
      assert forall g :: g in log <==> g in init || g == f;
    }
  }

  class ForwarderTask {
    const peer: string
    const batchSize: nat
    var buf: seq<IngestEvent>
    var batchesSent: nat
    var eventsForwarded: nat
    var eventsDropped: nat
    var sendErrors: nat
    ghost var log: seq<Entry>

    ghost predicate Valid()
      reads this
    {
      eventsForwarded == Forwarded(log) && eventsDropped == Dropped(log) &&
      batchesSent == Successes(log) && batchesSent + sendErrors == |log|
    }

    constructor (peer: string, batchSize: nat)
      ensures Valid() && this.peer == peer && this.batchSize == batchSize && buf == [] && log == []
    {
      this.peer, this.batchSize := peer, batchSize;
      buf, batchesSent, eventsForwarded, eventsDropped, sendErrors, log := [], 0, 0, 0, 0, [];
    }

    /** `outcome` is what the client's send returned. */
    method FlushBuffer(outcome: Result<nat, ClientError>)
      requires Valid()
      modifies this
      ensures Valid() && buf == [] && log == old(log) + [Flush(old(buf), outcome)]
    {
      ghost var log' := log + [Flush(buf, outcome)];
      assert log'[..|log'| - 1] == log;
      var n := |buf|;
      buf := [];
      match outcome {
        case Ok(accepted) =>
          batchesSent := batchesSent + 1;
          eventsForwarded := eventsForwarded + accepted;
          if accepted < n {
            eventsDropped := eventsDropped + (n - accepted);
          }
        case Err(_) =>
          sendErrors := sendErrors + 1;
          eventsDropped := eventsDropped + n;
      }
      log := log';
    }

    method OnWake(w: Wake<Event, Result<nat, ClientError>>) returns (closed: bool)
      requires Valid()
      modifies this
      ensures Valid() && closed == w.signal.Close?
      ensures Task(buf, log, closed) == Turn(Task(old(buf), old(log), false), batchSize, ToWire(peer, w))
    {
      closed := false;
      match w.signal
      case Recv(e) =>
        buf := buf + [ToClientEvent(peer, e)];
        if |buf| >= batchSize {
          FlushBuffer(w.outcome);
        }
      case Tick =>
        if buf != [] {
          FlushBuffer(w.outcome);
        }
      case Close =>
        if buf != [] {
          FlushBuffer(w.outcome);
        }
        closed := true;
    }

    /** The whole task, fed with an arbitrary run of wake-ups. */
    method Run(wakes: seq<Wake<Event, Result<nat, ClientError>>>)
      requires Valid() && buf == [] && log == []
      modifies this
      ensures Valid()
      ensures buf == RunTask(batchSize, AllToWire(peer, wakes)).buf
      ensures log == RunTask(batchSize, AllToWire(peer, wakes)).log
      ensures eventsForwarded + eventsDropped + |buf| >= |Received(AllToWire(peer, wakes))|
      ensures eventsForwarded + eventsDropped + |buf| == |Received(AllToWire(peer, wakes))| <==> Honest(log)
    {
      ghost var wire := AllToWire(peer, wakes);
      var done := false;
      var i := 0;
      while i < |wakes| && !done
        invariant 0 <= i <= |wakes| && Valid()
        invariant Task(buf, log, done) == RunTask(batchSize, wire[..i])
      {
        assert wire[..i + 1][..i] == wire[..i];
        done := OnWake(wakes[i]);
        i := i + 1;
      }
      DoneStaysDone(batchSize, wire, i);
      TaskBalance(batchSize, wire);
    }
  }

  lemma {:induction false} TaskBalance(size: nat, wire: seq<Wake<IngestEvent, Result<nat, ClientError>>>)
    ensures var t := RunTask(size, wire);
            Forwarded(t.log) + Dropped(t.log) + |t.buf| >= |Received(wire)| &&
            (Forwarded(t.log) + Dropped(t.log) + |t.buf| == |Received(wire)| <==> Honest(t.log))
  {
    ForwarderBalance(RunTask(size, wire).log);
    RunKeeps(size, wire);
  }

  function AllToWire<R>(peer: string, wakes: seq<Wake<Event, R>>): (r: seq<Wake<IngestEvent, R>>)
    ensures |r| == |wakes| && forall i :: 0 <= i < |wakes| ==> r[i] == ToWire(peer, wakes[i])
  {
    if wakes == [] then [] else [ToWire(peer, wakes[0])] + AllToWire(peer, wakes[1..])
  }

  function ToWire<R>(peer: string, w: Wake<Event, R>): (r: Wake<IngestEvent, R>)
    ensures r.outcome == w.outcome && (r.signal.Tick? <==> w.signal.Tick?)
    ensures r.signal.Recv? <==> w.signal.Recv?
    ensures w.signal.Recv? ==> OnTheWire(peer, w.signal.item, r.signal.item)
  {
    match w.signal
    case Recv(e) => Wake(Recv(ToClientEvent(peer, e)), w.outcome)
    case Tick => Wake(Tick, w.outcome)
    case Close => Wake(Signal.Close, w.outcome)
  }
}
