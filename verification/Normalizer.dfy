/** The single normalizer task: numbering per source, and lossy fan-out to bounded queues. */
module Normalizer {
  import opened Prelude
  import opened Events
  import HotRing

  /** An event as a producer sends it. */
  datatype IngestEvent = IngestEvent(
    id: Option<EventId>, source: string, kind: string, ts: int, semantic: Json,
    links: Option<Json>, traceId: Option<string>, producerId: Option<string>)

  /** What the task reads from its surroundings for one event: fresh ids, the clock, the
      verdict of schema validation. */
  datatype Surroundings = Surroundings(freshId: EventId, freshTrace: string, now: int, schemaInvalid: bool)

  function Normalize(e: IngestEvent, seqNo: nat, w: Surroundings): Event {
    Event(UnwrapOr(e.id, w.freshId), e.source, e.kind, e.ts, e.semantic, e.links,
          Some(UnwrapOr(e.traceId, w.freshTrace)), Some(w.now), Some(seqNo), e.producerId,
          if w.schemaInvalid then Some(true) else None)
  }

  /** What the completed event owes to the producer, what to the server: id and trace id are the
      producer's if it gave them. */
  ghost predicate Completes(event: Event, e: IngestEvent, n: nat, w: Surroundings) {
    event.source == e.source && event.kind == e.kind && event.ts == e.ts && event.semantic == e.semantic &&
    event.links == e.links && event.producerId == e.producerId &&
    event.id == (if e.id.Some? then e.id.value else w.freshId) &&
    event.traceId == (if e.traceId.Some? then e.traceId else Some(w.freshTrace)) &&
    event.ingestTs == Some(w.now) && event.seqNo == Some(n) &&
    (event.schemaInvalid == Some(true) <==> w.schemaInvalid) && (event.schemaInvalid.None? <==> !w.schemaInvalid)
  }

  // ----- bounded queues -----

  datatype SinkName = ColdWriter | Embedder | Forwarder

  /** A bounded channel: what waits in it, what its consumer has taken, and what was lost. The
      original counts losses to a full queue, not losses to a closed one. */
  datatype Sink = Sink(
    depth: nat, queue: seq<Event>, taken: seq<Event>, closed: bool, fullDrops: nat, closedDrops: nat)

  type Sinks = map<SinkName, Sink>

  function TrySend(s: Sink, e: Event): Sink {
    if s.closed then s.(closedDrops := s.closedDrops + 1)
    else if |s.queue| >= s.depth then s.(fullDrops := s.fullDrops + 1)
    else s.(queue := s.queue + [e])
  }

  function Offer(selector: (string, string) -> bool, sinks: Sinks, e: Event): Sinks {
    map n | n in sinks :: if n != Embedder || selector(e.source, e.kind) then TrySend(sinks[n], e) else sinks[n]
  }

  /** Only the embedder is selective. */
  ghost predicate Eligible(selector: (string, string) -> bool, name: SinkName, source: string, kind: string) {
    match name
    case ColdWriter => true
    case Embedder => selector(source, kind)
    case Forwarder => true
  }

  /** An open queue with room has got the event at its end; a full one has counted it, and so has a
      closed one, in its own account; nothing else about the queue has changed. */
  ghost predicate Delivered(before: Sink, after: Sink, e: Event) {
    after.depth == before.depth && after.taken == before.taken && after.closed == before.closed &&
    after.queue == before.queue + (if !before.closed && |before.queue| < before.depth then [e] else []) &&
    after.fullDrops - before.fullDrops == (if !before.closed && |before.queue| >= before.depth then 1 else 0) &&
    after.closedDrops - before.closedDrops == (if before.closed then 1 else 0)
  }

  /** Every configured sink that is meant to get the event was offered it once; no other was. */
  ghost predicate FannedOut(selector: (string, string) -> bool, before: Sinks, after: Sinks, e: Event) {
    after.Keys == before.Keys &&
    forall n :: n in before ==>
      if Eligible(selector, n, e.source, e.kind) then Delivered(before[n], after[n], e) else after[n] == before[n]
  }

  lemma {:induction false} OfferFansOut(selector: (string, string) -> bool, sinks: Sinks, e: Event)
    ensures FannedOut(selector, sinks, Offer(selector, sinks, e), e)
  {
    var after := Offer(selector, sinks, e);
    forall n | n in sinks
      ensures if Eligible(selector, n, e.source, e.kind) then Delivered(sinks[n], after[n], e)
              else after[n] == sinks[n]
    {
      assert sinks[n].queue + [] == sinks[n].queue;
    }
  }

  lemma {:induction false} OfferedOneByOne(selector: (string, string) -> bool, before: Sinks, after: Sinks, e: Event)
    requires after.Keys == before.Keys
    requires forall n :: n in before && n != Embedder ==> after[n] == TrySend(before[n], e)
    requires Embedder in before ==>
               after[Embedder] == if selector(e.source, e.kind) then TrySend(before[Embedder], e) else before[Embedder]
    ensures after == Offer(selector, before, e) && FannedOut(selector, before, after, e)
  {
    OfferFansOut(selector, before, e);
    assert after == Offer(selector, before, e);
  }

  function SeqOf(seqs: map<string, nat>, source: string): nat {
    if source in seqs then seqs[source] else 0
  }

  class NormalizerTask {
    const selector: (string, string) -> bool
    const rings: HotRing.HotRings
    var seqBySource: map<string, nat>
    var sinks: Sinks

    constructor (selector: (string, string) -> bool, rings: HotRing.HotRings, sinks: Sinks)
      ensures this.selector == selector && this.rings == rings && this.sinks == sinks && seqBySource == map[]
    {
      this.selector, this.rings, this.sinks, seqBySource := selector, rings, sinks, map[];
    }

    /** Numbers and completes an event. */
    method Assign(e: IngestEvent, w: Surroundings) returns (event: Event)
      modifies this`seqBySource
      ensures event == Normalize(e, SeqOf(old(seqBySource), e.source) + 1, w)
      ensures Completes(event, e, SeqOf(old(seqBySource), e.source) + 1, w)
      ensures seqBySource == old(seqBySource)[e.source := SeqOf(old(seqBySource), e.source) + 1]
    {
      if e.source !in seqBySource {
        seqBySource := seqBySource[e.source := 0];
      }
      seqBySource := seqBySource[e.source := seqBySource[e.source] + 1];
      event := Normalize(e, seqBySource[e.source], w);
    }

    /** Offers an event to each configured sink in turn. */
    method FanOut(event: Event)
      modifies this`sinks
      ensures sinks == Offer(selector, old(sinks), event)
      ensures FannedOut(selector, old(sinks), sinks, event)
    {
      if ColdWriter in sinks {
        sinks := sinks[ColdWriter := TrySend(sinks[ColdWriter], event)];
      }
      if Embedder in sinks {
        if selector(event.source, event.kind) {
          sinks := sinks[Embedder := TrySend(sinks[Embedder], event)];
        }
      }
      if Forwarder in sinks {
        sinks := sinks[Forwarder := TrySend(sinks[Forwarder], event)];
      }
      OfferedOneByOne(selector, old(sinks), sinks, event);
    }

    /** One turn of the receive loop. */
    method Handle(e: IngestEvent, w: Surroundings, clock: int) returns (event: Event)
      modifies this, rings
      ensures event == Normalize(e, SeqOf(old(seqBySource), e.source) + 1, w)
      ensures Completes(event, e, SeqOf(old(seqBySource), e.source) + 1, w)
      ensures seqBySource == old(seqBySource)[e.source := SeqOf(old(seqBySource), e.source) + 1]
      ensures sinks == Offer(selector, old(sinks), event)
      ensures FannedOut(selector, old(sinks), sinks, event)
      ensures rings.rings == old(rings.rings)[Pair(e.source, e.kind) :=
                HotRing.Pushed(rings.cfg, old(rings.Ring(Pair(e.source, e.kind))), event, clock)]
    {
      event := Assign(e, w);
      var _ := rings.Push(event, clock);
      FanOut(event);
    }
  }

  // ----- runs -----

  datatype State = State(seqs: map<string, nat>, stream: seq<Event>, sinks: Sinks)

  /** The task handles an event; a consumer takes one; a consumer goes away. */
  datatype Step = Receive(e: IngestEvent, w: Surroundings) | Take(name: SinkName) | Close(name: SinkName)

  function TakeOne(s: Sink): Sink {
    if s.queue == [] then s else s.(queue := s.queue[1..], taken := s.taken + [s.queue[0]])
  }

  function Next(selector: (string, string) -> bool, s: State, step: Step): State {
    match step
    case Receive(e, w) =>
      var n := SeqOf(s.seqs, e.source) + 1;
      var event := Normalize(e, n, w);
      State(s.seqs[e.source := n], s.stream + [event], Offer(selector, s.sinks, event))
    case Take(name) =>
      if name in s.sinks then s.(sinks := s.sinks[name := TakeOne(s.sinks[name])]) else s
    case Close(name) =>
      if name in s.sinks then s.(sinks := s.sinks[name := s.sinks[name].(closed := true)]) else s
  }

  /** Empty queues of the configured depths. */
  function Start(depths: map<SinkName, nat>): State {
    State(map[], [], map n | n in depths :: Sink(depths[n], [], [], false, 0, 0))
  }

  function Exec(selector: (string, string) -> bool, depths: map<SinkName, nat>, steps: seq<Step>): State {
    if steps == [] then Start(depths)
    else Next(selector, Exec(selector, depths, steps[..|steps| - 1]), steps[|steps| - 1])
  }

  // ----- numbering -----

  function OfSource(stream: seq<Event>, source: string): seq<Event> {
    if stream == [] then []
    else OfSource(stream[..|stream| - 1], source)
         + (if stream[|stream| - 1].source == source then [stream[|stream| - 1]] else [])
  }

  ghost predicate Numbered(s: State) {
    forall source ::
      |OfSource(s.stream, source)| == SeqOf(s.seqs, source) &&
      forall i :: 0 <= i < |OfSource(s.stream, source)| ==> OfSource(s.stream, source)[i].seqNo == Some(i + 1)
  }

  lemma {:induction false} ReceiveKeepsNumbered(selector: (string, string) -> bool, s: State, e: IngestEvent,
                                                w: Surroundings)
    requires Numbered(s)
    ensures Numbered(Next(selector, s, Receive(e, w)))
  {
    var s' := Next(selector, s, Receive(e, w));
    var event := s'.stream[|s.stream|];
    assert s'.stream[..|s'.stream| - 1] == s.stream;
    forall source
      ensures |OfSource(s'.stream, source)| == SeqOf(s'.seqs, source) &&
        forall i :: 0 <= i < |OfSource(s'.stream, source)| ==> OfSource(s'.stream, source)[i].seqNo == Some(i + 1)
    {
      assert |OfSource(s.stream, source)| == SeqOf(s.seqs, source);
      assert OfSource(s'.stream, source)
          == OfSource(s.stream, source) + (if event.source == source then [event] else []);
    }
  }

  /** In every run each source's events carry 1, 2, 3, ... without gaps. */
  lemma {:induction false} SequenceHasNoGaps(selector: (string, string) -> bool, depths: map<SinkName, nat>,
                                             steps: seq<Step>)
    ensures Numbered(Exec(selector, depths, steps))
  {
    if steps == [] {
      forall source ensures OfSource(Start(depths).stream, source) == [] {}
    } else {
      var init, step := steps[..|steps| - 1], steps[|steps| - 1];
      SequenceHasNoGaps(selector, depths, init);
      if step.Receive? {
        ReceiveKeepsNumbered(selector, Exec(selector, depths, init), step.e, step.w);
      }
    }
  }

  // ----- fan-out -----

  /** a is b with some elements left out, order kept. */
  ghost predicate Subsequence(a: seq<Event>, b: seq<Event>)
    decreases |b|
  {
    a == [] ||
    (b != [] &&
      ((a[|a| - 1] == b[|b| - 1] && Subsequence(a[..|a| - 1], b[..|b| - 1])) || Subsequence(a, b[..|b| - 1])))
  }

  lemma {:induction false} SubsequenceGrows(a: seq<Event>, b: seq<Event>, e: Event)
    requires Subsequence(a, b)
    ensures Subsequence(a, b + [e]) && Subsequence(a + [e], b + [e])
  {
    assert (b + [e])[..|b + [e]| - 1] == b && (a + [e])[..|a + [e]| - 1] == a;
  }

  ghost function Wanted(selector: (string, string) -> bool, name: SinkName, stream: seq<Event>): seq<Event> {
    if stream == [] then []
    else
      var e := stream[|stream| - 1];
      Wanted(selector, name, stream[..|stream| - 1]) + (if Eligible(selector, name, e.source, e.kind) then [e] else [])
  }

  /** Everything that reached a sink, in order. */
  function Reached(s: Sink): seq<Event> {
    s.taken + s.queue
  }

  ghost predicate SinkAccounts(wanted: seq<Event>, s: Sink) {
    Subsequence(Reached(s), wanted) && |s.queue| <= s.depth &&
    |wanted| == |Reached(s)| + s.fullDrops + s.closedDrops
  }

  ghost predicate Accounts(selector: (string, string) -> bool, s: State) {
    forall n :: n in s.sinks ==> SinkAccounts(Wanted(selector, n, s.stream), s.sinks[n])
  }

  lemma {:induction false} DeliveredAccounts(wanted: seq<Event>, s: Sink, s': Sink, e: Event)
    requires SinkAccounts(wanted, s) && Delivered(s, s', e)
    ensures SinkAccounts(wanted + [e], s')
  {
    SubsequenceGrows(Reached(s), wanted, e);
    assert s.taken + (s.queue + [e]) == Reached(s) + [e] && s.queue + [] == s.queue;
  }

  lemma {:induction false} OfferAccounts(selector: (string, string) -> bool, name: SinkName, stream: seq<Event>,
                                         s: Sink, s': Sink, e: Event)
    requires SinkAccounts(Wanted(selector, name, stream), s)
    requires if Eligible(selector, name, e.source, e.kind) then Delivered(s, s', e) else s' == s
    ensures SinkAccounts(Wanted(selector, name, stream + [e]), s')
  {
    assert (stream + [e])[..|stream + [e]| - 1] == stream;
    var wanted := Wanted(selector, name, stream);
    if Eligible(selector, name, e.source, e.kind) {
      DeliveredAccounts(wanted, s, s', e);
    } else {
      assert wanted + [] == wanted;
    }
  }

  /** One turn of the task: the stream gets the completed event, every sink its share. */
  lemma {:induction false} ReceiveDelivers(selector: (string, string) -> bool, s: State, e: IngestEvent,
                                           w: Surroundings)
    ensures var s' := Next(selector, s, Receive(e, w));
            s'.stream != [] && s'.stream[..|s'.stream| - 1] == s.stream &&
            Completes(s'.stream[|s.stream|], e, SeqOf(s.seqs, e.source) + 1, w) &&
            FannedOut(selector, s.sinks, s'.sinks, s'.stream[|s.stream|])
  {
    OfferFansOut(selector, s.sinks, Normalize(e, SeqOf(s.seqs, e.source) + 1, w));
  }

  lemma {:induction false} TakeAccounts(wanted: seq<Event>, s: Sink)
    requires SinkAccounts(wanted, s)
    ensures SinkAccounts(wanted, TakeOne(s)) && SinkAccounts(wanted, s.(closed := true))
  {
    assert Reached(TakeOne(s)) == Reached(s);
  }

  lemma {:induction false} StepAccounts(selector: (string, string) -> bool, s: State, step: Step)
    requires Accounts(selector, s)
    ensures Accounts(selector, Next(selector, s, step))
  {
    var s' := Next(selector, s, step);
    forall n | n in s'.sinks ensures SinkAccounts(Wanted(selector, n, s'.stream), s'.sinks[n]) {
      if step.Receive? {
        ReceiveDelivers(selector, s, step.e, step.w);
        OfferAccounts(selector, n, s.stream, s.sinks[n], s'.sinks[n], s'.stream[|s.stream|]);
      } else {
        TakeAccounts(Wanted(selector, n, s.stream), s.sinks[n]);
      }
    }
  }

  /** In every run each sink has received an in-order part of what it was eligible for; eligible
      = enqueued + dropped full + dropped closed; and no queue exceeds its depth. */
  lemma {:induction false} FanOutAccounts(selector: (string, string) -> bool, depths: map<SinkName, nat>,
                                          steps: seq<Step>)
    ensures Accounts(selector, Exec(selector, depths, steps))
  {
    if steps == [] {
    } else {
      FanOutAccounts(selector, depths, steps[..|steps| - 1]);
      StepAccounts(selector, Exec(selector, depths, steps[..|steps| - 1]), steps[|steps| - 1]);
    }
  }

  // ----- what the stream is made of -----

  /** The events the task has received, with what it read from its surroundings for each. */
  function Heard(steps: seq<Step>): seq<(IngestEvent, Surroundings)> {
    if steps == [] then []
    else
      var step := steps[|steps| - 1];
      Heard(steps[..|steps| - 1]) + (if step.Receive? then [(step.e, step.w)] else [])
  }

  function CountFrom(heard: seq<(IngestEvent, Surroundings)>, source: string): nat {
    if heard == [] then 0
    else CountFrom(heard[..|heard| - 1], source) + (if heard[|heard| - 1].0.source == source then 1 else 0)
  }

  /** The i-th event of the stream is the i-th received one, numbered within its source. */
  ghost predicate CompletedAt(heard: seq<(IngestEvent, Surroundings)>, stream: seq<Event>, i: nat)
    requires i < |heard| == |stream|
  {
    Completes(stream[i], heard[i].0, CountFrom(heard[..i], heard[i].0.source) + 1, heard[i].1)
  }

  ghost predicate StreamOf(heard: seq<(IngestEvent, Surroundings)>, s: State) {
    |s.stream| == |heard| && (forall i :: 0 <= i < |heard| ==> CompletedAt(heard, s.stream, i)) &&
    forall source :: SeqOf(s.seqs, source) == CountFrom(heard, source)
  }

  lemma {:induction false} ReceiveExtendsStream(selector: (string, string) -> bool, s: State, e: IngestEvent,
                                                w: Surroundings, heard: seq<(IngestEvent, Surroundings)>)
    requires StreamOf(heard, s)
    ensures StreamOf(heard + [(e, w)], Next(selector, s, Receive(e, w)))
  {
    ReceiveDelivers(selector, s, e, w);
    var s', heard' := Next(selector, s, Receive(e, w)), heard + [(e, w)];
    assert heard'[..|heard'| - 1] == heard;
    forall i | 0 <= i < |heard'| ensures CompletedAt(heard', s'.stream, i) {
      assert i < |heard| ==> CompletedAt(heard, s.stream, i);
      assert heard'[..i] == heard[..i];
    }
  }

  /** In every run the stream is, event by event and in order, what was received, completed; each
      event carries how many of its source were received up to it. */
  lemma {:induction false} StreamIsReceived(selector: (string, string) -> bool, depths: map<SinkName, nat>,
                                            steps: seq<Step>)
    ensures StreamOf(Heard(steps), Exec(selector, depths, steps))
  {
    if steps == [] {
    } else {
      var init, step := steps[..|steps| - 1], steps[|steps| - 1];
      StreamIsReceived(selector, depths, init);
      if step.Receive? {
        ReceiveExtendsStream(selector, Exec(selector, depths, init), step.e, step.w, Heard(init));
      } else {
        assert Heard(init) + [] == Heard(init);
      }
    }
  }

  // ----- when nothing is lost -----

  /** The k-th step of the run does not find the sink closed or full with an event for it. */
  ghost predicate RoomAt(selector: (string, string) -> bool, depths: map<SinkName, nat>, steps: seq<Step>,
                         name: SinkName, k: nat)
    requires k < |steps| && name in depths
  {
    var sinks := Exec(selector, depths, steps[..k]).sinks;
    steps[k].Receive? && Eligible(selector, name, steps[k].e.source, steps[k].e.kind) ==>
      Close(name) !in steps[..k] && name in sinks && |sinks[name].queue| < depths[name]
  }

  lemma {:induction false} LossesSoFar(selector: (string, string) -> bool, depths: map<SinkName, nat>,
                                       steps: seq<Step>, name: SinkName)
    requires name in depths
    ensures var sinks := Exec(selector, depths, steps).sinks;
            name in sinks && sinks[name].depth == depths[name] && (sinks[name].closed <==> Close(name) in steps) &&
            (Losses(sinks[name]) == 0 <==>
              forall k :: 0 <= k < |steps| ==> RoomAt(selector, depths, steps, name, k))
  {
    if steps == [] {
    } else {
      var init, last := steps[..|steps| - 1], |steps| - 1;
      LossesSoFar(selector, depths, init, name);
      forall k | 0 <= k < last
        ensures RoomAt(selector, depths, steps, name, k) <==> RoomAt(selector, depths, init, name, k)
      {
        assert steps[..k] == init[..k];
      }
      assert steps == init + [steps[last]];
      LossOfStep(selector, Exec(selector, depths, init), steps[last], name);
      assert RoomAt(selector, depths, steps, name, last) <==>
        Losses(Exec(selector, depths, steps).sinks[name]) == Losses(Exec(selector, depths, init).sinks[name]);
    }
  }

  function Losses(s: Sink): nat {
    s.fullDrops + s.closedDrops
  }

  lemma {:induction false} LossOfStep(selector: (string, string) -> bool, s: State, step: Step, name: SinkName)
    requires name in s.sinks
    ensures var s' := Next(selector, s, step);
            name in s'.sinks && s'.sinks[name].depth == s.sinks[name].depth &&
            (s'.sinks[name].closed <==> s.sinks[name].closed || step == Close(name)) &&
            Losses(s.sinks[name]) <= Losses(s'.sinks[name]) &&
            (Losses(s'.sinks[name]) == Losses(s.sinks[name]) <==>
              (step.Receive? && Eligible(selector, name, step.e.source, step.e.kind) ==>
                !s.sinks[name].closed && |s.sinks[name].queue| < s.sinks[name].depth))
  {
    if step.Receive? {
      ReceiveDelivers(selector, s, step.e, step.w);
    }
  }

  lemma {:induction false} SubsequenceLength(a: seq<Event>, b: seq<Event>)
    requires Subsequence(a, b)
    ensures |a| <= |b| && (|a| == |b| ==> a == b)
    decreases |b|
  {
    if a == [] {
    } else {
      var a0, b0 := a[..|a| - 1], b[..|b| - 1];
      if a[|a| - 1] == b[|b| - 1] && Subsequence(a0, b0) {
        SubsequenceLength(a0, b0);
        assert a == a0 + [a[|a| - 1]] && b == b0 + [b[|b| - 1]];
      } else {
        SubsequenceLength(a, b0);
      }
    }
  }

  /** A sink has got every event meant for it if and only if no such event ever met it closed, or with
      as many events waiting as it was configured to hold. */
  lemma {:induction false} AllDeliveredExactlyWhen(selector: (string, string) -> bool, depths: map<SinkName, nat>,
                                                   steps: seq<Step>, name: SinkName)
    requires name in depths
    ensures var s := Exec(selector, depths, steps);
            name in s.sinks &&
            (Reached(s.sinks[name]) == Wanted(selector, name, s.stream) <==>
              forall k :: 0 <= k < |steps| ==> RoomAt(selector, depths, steps, name, k))
  {
    var s := Exec(selector, depths, steps);
    LossesSoFar(selector, depths, steps, name);
    FanOutAccounts(selector, depths, steps);
    assert SinkAccounts(Wanted(selector, name, s.stream), s.sinks[name]);
    SubsequenceLength(Reached(s.sinks[name]), Wanted(selector, name, s.stream));
  }

  // ----- per-source order survives the losses -----

  ghost predicate Rising(s: seq<Event>) {
    forall i, j :: 0 <= i < j < |s| && s[i].source == s[j].source ==>
      s[i].seqNo.Some? && s[j].seqNo.Some? && s[i].seqNo.value < s[j].seqNo.value
  }

  lemma {:induction false} SubsequenceMember(a: seq<Event>, b: seq<Event>, x: Event)
    requires Subsequence(a, b) && x in a
    ensures x in b
    decreases |b|
  {
    if a[|a| - 1] == b[|b| - 1] && Subsequence(a[..|a| - 1], b[..|b| - 1]) {
      if x != a[|a| - 1] {
        SubsequenceMember(a[..|a| - 1], b[..|b| - 1], x);
      }
    } else {
      SubsequenceMember(a, b[..|b| - 1], x);
    }
  }

  lemma {:induction false} SubsequenceRising(a: seq<Event>, b: seq<Event>)
    requires Subsequence(a, b) && Rising(b)
    ensures Rising(a)
    decreases |b|
  {
    if a == [] {
    } else {
      var a0, b0 := a[..|a| - 1], b[..|b| - 1];
      if a[|a| - 1] == b[|b| - 1] && Subsequence(a0, b0) {
        SubsequenceRising(a0, b0);
        forall i | 0 <= i < |a0| && a[i].source == a[|a| - 1].source
          ensures a[i].seqNo.Some? && a[|a| - 1].seqNo.Some? && a[i].seqNo.value < a[|a| - 1].seqNo.value
        {
          assert a0[i] in a0;
          SubsequenceMember(a0, b0, a[i]);
          var k :| 0 <= k < |b0| && b0[k] == a[i];
          assert b[k] == a[i];
        }
      } else {
        SubsequenceRising(a, b0);
      }
    }
  }

  lemma {:induction false} OfSourceMember(stream: seq<Event>, i: nat)
    requires i < |stream|
    ensures stream[i] in OfSource(stream, stream[i].source)
  {
    if i < |stream| - 1 {
      OfSourceMember(stream[..|stream| - 1], i);
    }
  }

  /** A numbered stream's own order: later events of a source carry greater numbers. */
  lemma {:induction false} StreamRising(s: State)
    requires Numbered(s)
    ensures Rising(s.stream)
    decreases |s.stream|
  {
    forall i, j | 0 <= i < j < |s.stream| && s.stream[i].source == s.stream[j].source
      ensures s.stream[i].seqNo.Some? && s.stream[j].seqNo.Some? && s.stream[i].seqNo.value < s.stream[j].seqNo.value
    {
      var src := s.stream[j].source;
      PrefixOfSource(s.stream, src, j);
      PrefixOfSource(s.stream, src, j + 1);
      var upTo := s.stream[..j];
      assert s.stream[..j + 1][..j] == upTo;
      OfSourceMember(upTo, i);
      var before, all := OfSource(upTo, src), OfSource(s.stream, src);
      var k :| 0 <= k < |before| && before[k] == s.stream[i];
      assert all[k] == before[k];
      assert OfSource(s.stream[..j + 1], src) == before + [s.stream[j]];
      assert all[|before|] == s.stream[j];
    }
  }

  lemma {:induction false} PrefixOfSource(stream: seq<Event>, source: string, n: nat)
    requires n <= |stream|
    ensures OfSource(stream[..n], source) <= OfSource(stream, source)
    decreases |stream| - n
  {
    if n < |stream| {
      PrefixOfSource(stream, source, n + 1);
      assert stream[..n + 1][..n] == stream[..n];
    } else {
      assert stream[..n] == stream;
    }
  }

  lemma {:induction false} SubsequenceStep(a: seq<Event>, b: seq<Event>, e: Event, a': seq<Event>, b': seq<Event>)
    requires Subsequence(a, b) && b' == b + [e] && (a' == a || a' == a + [e])
    ensures Subsequence(a', b')
  {
    SubsequenceGrows(a, b, e);
  }

  lemma {:induction false} WantedSubsequence(selector: (string, string) -> bool, name: SinkName, stream: seq<Event>)
    ensures Subsequence(Wanted(selector, name, stream), stream)
  {
    if stream == [] {
    } else {
      var init, e := stream[..|stream| - 1], stream[|stream| - 1];
      var wanted := Wanted(selector, name, init);
      WantedSubsequence(selector, name, init);
      assert wanted + [] == wanted;
      SubsequenceStep(wanted, init, e, Wanted(selector, name, stream), stream);
    }
  }

  /** Whatever was dropped, a sink sees each source's numbers strictly increasing. */
  lemma {:induction false} SinkOrder(selector: (string, string) -> bool, depths: map<SinkName, nat>,
                                     steps: seq<Step>, name: SinkName)
    requires name in Exec(selector, depths, steps).sinks
    ensures Rising(Reached(Exec(selector, depths, steps).sinks[name]))
  {
    var s := Exec(selector, depths, steps);
    SequenceHasNoGaps(selector, depths, steps);
    StreamRising(s);
    WantedSubsequence(selector, name, s.stream);
    SubsequenceRising(Wanted(selector, name, s.stream), s.stream);
    FanOutAccounts(selector, depths, steps);
    SubsequenceRising(Reached(s.sinks[name]), Wanted(selector, name, s.stream));
  }
}
