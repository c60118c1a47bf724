/** Edges forwarding to a hub: every run of sends, retries, partially accepted batches, lost
    replies, queue drops, failed commits and sweeps, and what the hub's store can then hold. */
module CrossNode {
  import opened Prelude
  import opened Events
  import opened ColdTable
  import opened ColdHistory
  import opened Normalizer
  import opened Forwarder
  import Client
  import Ingest

  /** An event as it exists on an edge. */
  datatype Origin = Origin(peer: string, event: Event)

  /** Distinct edge events have distinct ids: an id names at most one of them. */
  type Registry = map<EventId, Origin>

  /** A travelling item and the edge event it was made from, if any. The tag is bookkeeping for
      the statements below; no step looks at it. */
  datatype Tagged<T> = Tagged(item: T, from: Option<Origin>)

  type Wire = Tagged<IngestEvent>
  type HubEvent = Tagged<Event>

  /** A batch the forwarder has settled: what its client returned, and how many of its events, from
      the front, some attempt had put on the hub's bus. */
  datatype Shipment = Shipment(batch: seq<Wire>, outcome: Result<nat, Client.ClientError>, reached: nat)

  /** A request the hub is handling, and how many of its events it has enqueued. */
  datatype Request = Request(gate: Ingest.Gate, sent: nat)

  /** A forwarder: its buffer, the batch its client is busy sending, if any, and the past ones. */
  datatype Edge = Edge(
    buf: seq<Wire>, sending: seq<Wire>, attempt: nat, request: Option<Request>, reached: nat, log: seq<Shipment>)

  datatype Setup = Setup(client: Client.Config, busDepth: nat, coldDepth: nat)

  datatype World = World(
    edges: map<string, Edge>,
    bus: seq<Wire>,               // the hub's ingest queue
    arrivals: seq<Wire>,          // everything that was ever put on it
    seqs: map<string, nat>,
    coldQueue: seq<HubEvent>,
    coldClosed: bool,
    fullDrops: nat,
    closedDrops: nat,
    writerBuf: seq<HubEvent>,
    writerDrops: nat,
    ops: seq<Op>,                 // what the hub's store has executed
    trail: seq<HubEvent>)         // everything appended to it, in order

  /** A request is handled event by event; anything else may happen between two of its steps. */
  datatype Step =
    | Emit(peer: string, e: Event)                               // edge normalizer to forwarder
    | Flush(peer: string)                                        // forwarder starts sending
    | Begin(peer: string, gate: Ingest.Gate)                     // an attempt reaches the hub
    | Push(peer: string)                                         // the hub enqueues its next event
    | Answer(peer: string, last: Ingest.SendResult,
             own: Client.Reply, seen: Client.Reply)              // the hub answers; the client sees something
    | Lose(peer: string)                                         // the connection breaks
    | GiveUp(peer: string)                                       // a client without attempts
    | Local(x: IngestEvent)                                      // the hub's own producers
    | Normalized(s: Surroundings)                                // hub normalizer
    | Take                                                       // hub writer receives
    | Commit(ok: bool)                                           // hub writer flushes
    | CloseCold                                                  // hub writer goes away
    | Sweep(op: Op)

  function Items<T>(ts: seq<Tagged<T>>): (r: seq<T>)
    ensures |r| == |ts| && forall i :: 0 <= i < |ts| ==> r[i] == ts[i].item
  {
    if ts == [] then [] else [ts[0].item] + Items(ts[1..])
  }

  function EdgeOf(w: World, peer: string): Edge {
    if peer in w.edges then w.edges[peer] else Edge([], [], 0, None, 0, [])
  }

  /** The client sees the hub's own answer, or none, or that of something in between, which does
      not report success. */
  predicate Arrives(own: Client.Reply, seen: Client.Reply) {
    seen == own || seen.NoReply? || seen.status != 200
  }

  /** How the tries on the bus went: the first n were queued, the next was not. */
  function Tried(n: nat, last: Ingest.SendResult): nat -> Ingest.SendResult {
    (i: nat) => if i < n then Ingest.Queued else last
  }

  /** The hub finds the bus full only at its depth, and answers as its endpoint does. */
  ghost predicate Answerable(cfg: Setup, w: World, g: Edge, last: Ingest.SendResult, own: Client.Reply) {
    g.request.Some? && (last.Full? ==> |w.bus| >= cfg.busDepth) &&
    Ingest.Answers(g.request.value.gate, Ok(Items(g.sending)), Tried(g.request.value.sent, last),
                   own, g.request.value.sent)
  }

  ghost predicate Enabled(cfg: Setup, reg: Registry, w: World, step: Step) {
    match step
    case Emit(peer, e) => e.id in reg && reg[e.id] == Origin(peer, e)
    case Flush(peer) => EdgeOf(w, peer).sending == []
    case Begin(peer, _) =>
      var g := EdgeOf(w, peer);
      g.sending != [] && g.request.None? && g.attempt < cfg.client.maxAttempts
    case Push(peer) =>
      var g := EdgeOf(w, peer);
      g.request.Some? && g.request.value.sent < |g.sending| && |w.bus| < cfg.busDepth &&
      Ingest.Passes(g.request.value.gate, Items(g.sending))
    case Answer(peer, last, own, seen) => Answerable(cfg, w, EdgeOf(w, peer), last, own) && Arrives(own, seen)
    case Lose(peer) => EdgeOf(w, peer).request.Some?
    case GiveUp(peer) => EdgeOf(w, peer).sending != [] && cfg.client.maxAttempts == 0
    case Local(x) => |w.bus| < cfg.busDepth && (x.id.Some? ==> x.id.value !in reg)
    case Normalized(s) => w.bus != [] && (w.bus[0].item.id.None? ==> s.freshId !in reg)
    case Take => w.coldQueue != [] && !w.coldClosed
    case Commit(_) => true
    case CloseCold => true
    case Sweep(op) => !op.Append?
  }

  /** The batch being sent is done with. */
  function Settle(g: Edge, outcome: Result<nat, Client.ClientError>): Edge {
    g.(sending := [], attempt := 0, request := None, reached := 0,
       log := g.log + [Shipment(g.sending, outcome, g.reached)])
  }

  /** The client has seen a reply to its attempt. */
  function AfterReply(cfg: Setup, g: Edge, seen: Client.Reply): Edge {
    if Client.Retries(cfg.client, g.attempt, seen) then g.(attempt := g.attempt + 1, request := None)
    else Settle(g, Client.Verdict(cfg.client, g.attempt, seen))
  }

  function AfterPush(g: Edge): Edge
    requires g.request.Some?
  {
    var sent := g.request.value.sent + 1;
    g.(request := Some(Request(g.request.value.gate, sent)), reached := if sent > g.reached then sent else g.reached)
  }

  function SetEdge(w: World, peer: string, g: Edge): World {
    w.(edges := w.edges[peer := g])
  }

  function Enqueue(w: World, x: Wire): World {
    w.(bus := w.bus + [x], arrivals := w.arrivals + [x])
  }

  /** `try_send` to the cold writer's queue. */
  function Offered(cfg: Setup, w: World, x: HubEvent): World {
    if w.coldClosed then w.(closedDrops := w.closedDrops + 1)
    else if |w.coldQueue| < cfg.coldDepth then w.(coldQueue := w.coldQueue + [x])
    else w.(fullDrops := w.fullDrops + 1)
  }

  function Next(cfg: Setup, w: World, step: Step): World {
    match step
    case Emit(peer, e) =>
      var g := EdgeOf(w, peer);
      SetEdge(w, peer, g.(buf := g.buf + [Tagged(ToClientEvent(peer, e), Some(Origin(peer, e)))]))
    case Flush(peer) =>
      var g := EdgeOf(w, peer);
      SetEdge(w, peer, g.(buf := [], sending := g.buf, attempt := 0, request := None, reached := 0))
    case Begin(peer, gate) =>
      SetEdge(w, peer, EdgeOf(w, peer).(request := Some(Request(gate, 0))))
    case Push(peer) =>
      var g := EdgeOf(w, peer);
      if g.request.None? || g.request.value.sent >= |g.sending| then w
      else Enqueue(SetEdge(w, peer, AfterPush(g)), g.sending[g.request.value.sent])
    case Answer(peer, _, _, seen) => SetEdge(w, peer, AfterReply(cfg, EdgeOf(w, peer), seen))
    case Lose(peer) => SetEdge(w, peer, AfterReply(cfg, EdgeOf(w, peer), Client.NoReply))
    case GiveUp(peer) => SetEdge(w, peer, Settle(EdgeOf(w, peer), Err(Client.RetriesExhausted(0, 0, None))))
    case Local(x) => Enqueue(w, Tagged(x, None))
    case Normalized(s) =>
      if w.bus == [] then w
      else
        var x := w.bus[0];
        var n := SeqOf(w.seqs, x.item.source) + 1;
        Offered(cfg, w.(bus := w.bus[1..], seqs := w.seqs[x.item.source := n]),
                Tagged(Normalize(x.item, n, s), x.from))
    case Take =>
      if w.coldQueue == [] then w
      else w.(coldQueue := w.coldQueue[1..], writerBuf := w.writerBuf + [w.coldQueue[0]])
    case Commit(ok) =>
      if ok then w.(writerBuf := [], ops := w.ops + [Append(Items(w.writerBuf))], trail := w.trail + w.writerBuf)
      else w.(writerBuf := [], writerDrops := w.writerDrops + |w.writerBuf|)
    case CloseCold => w.(coldClosed := true)
    case Sweep(op) => w.(ops := w.ops + [op])
  }

  const QUIET: World := World(map[], [], [], map[], [], false, 0, 0, [], 0, [], [])

  function Exec(cfg: Setup, steps: seq<Step>): World {
    if |steps| == 0 then QUIET else Next(cfg, Exec(cfg, steps[..|steps| - 1]), steps[|steps| - 1])
  }

  ghost predicate Legal(cfg: Setup, reg: Registry, steps: seq<Step>) {
    |steps| == 0 ||
    (Legal(cfg, reg, steps[..|steps| - 1]) &&
     Enabled(cfg, reg, Exec(cfg, steps[..|steps| - 1]), steps[|steps| - 1]))
  }

  // ----- what travels stays what it was made from -----

  ghost predicate Registered(reg: Registry, o: Origin) {
    o.event.id in reg && reg[o.event.id] == o
  }

  ghost predicate WireOk(reg: Registry, x: Wire) {
    match x.from
    case Some(o) => Registered(reg, o) && OnTheWire(o.peer, o.event, x.item)
    case None => x.item.id.Some? ==> x.item.id.value !in reg
  }

  /** What a hub event keeps of its edge event: not the links, and the hub gives its own number and
      ingest time. */
  ghost predicate Image(o: Origin, ev: Event) {
    ev.id == o.event.id && ev.source == o.peer + "." + o.event.source && ev.kind == o.event.kind &&
    ev.ts == o.event.ts && ev.semantic == o.event.semantic && ev.producerId == o.event.producerId &&
    (if o.event.traceId.Some? then ev.traceId == o.event.traceId else ev.traceId.Some?) &&
    ev.links.None? && ev.seqNo.Some? && ev.ingestTs.Some?
  }

  ghost predicate EventOk(reg: Registry, x: HubEvent) {
    match x.from
    case Some(o) => Registered(reg, o) && Image(o, x.item)
    case None => x.item.id !in reg
  }

  ghost predicate WiresOk(reg: Registry, xs: seq<Wire>) {
    forall x :: x in xs ==> WireOk(reg, x)
  }

  ghost predicate EventsOk(reg: Registry, xs: seq<HubEvent>) {
    forall x :: x in xs ==> EventOk(reg, x)
  }

  ghost predicate EdgesOk(reg: Registry, w: World) {
    forall p :: p in w.edges ==> EdgeOk(reg, w.edges[p])
  }

  ghost predicate Inv(reg: Registry, w: World) {
    EdgesOk(reg, w) && WiresOk(reg, w.bus) && EventsOk(reg, w.coldQueue) &&
    EventsOk(reg, w.writerBuf) && EventsOk(reg, w.trail) && Items(w.trail) == History(w.ops)
  }

  ghost predicate EdgeOk(reg: Registry, g: Edge) {
    WiresOk(reg, g.buf) && WiresOk(reg, g.sending)
  }

  lemma {:induction false} SetEdgeKeeps(reg: Registry, w: World, peer: string, g: Edge)
    requires Inv(reg, w) && EdgeOk(reg, g)
    ensures Inv(reg, SetEdge(w, peer, g))
  {
  }

  lemma {:induction false} EnqueueKeeps(reg: Registry, w: World, x: Wire)
    requires Inv(reg, w) && WireOk(reg, x)
    ensures Inv(reg, Enqueue(w, x))
  {
  }

  lemma {:induction false} EdgeOfOk(reg: Registry, w: World, peer: string)
    requires Inv(reg, w)
    ensures EdgeOk(reg, EdgeOf(w, peer))
  {
  }

  lemma {:induction false} PushKeeps(cfg: Setup, reg: Registry, w: World, step: Step)
    requires Inv(reg, w) && Enabled(cfg, reg, w, step) && step.Push?
    ensures Inv(reg, Next(cfg, w, step))
  {
    var g := EdgeOf(w, step.peer);
    EdgeOfOk(reg, w, step.peer);
    SetEdgeKeeps(reg, w, step.peer, AfterPush(g));
    EnqueueKeeps(reg, SetEdge(w, step.peer, AfterPush(g)), g.sending[g.request.value.sent]);
  }

  predicate OnlyEdge(step: Step) {
    step.Emit? || step.Flush? || step.Begin? || step.Answer? || step.Lose? || step.GiveUp?
  }

  lemma {:induction false} SendKeeps(cfg: Setup, reg: Registry, w: World, step: Step)
    requires Inv(reg, w) && Enabled(cfg, reg, w, step) && OnlyEdge(step)
    ensures Inv(reg, Next(cfg, w, step))
  {
    EdgeOfOk(reg, w, step.peer);
    SetEdgeKeeps(reg, w, step.peer, Next(cfg, w, step).edges[step.peer]);
  }

  lemma {:induction false} LocalKeeps(cfg: Setup, reg: Registry, w: World, step: Step)
    requires Inv(reg, w) && Enabled(cfg, reg, w, step) && step.Local?
    ensures Inv(reg, Next(cfg, w, step))
  {
    EnqueueKeeps(reg, w, Tagged(step.x, None));
  }

  /** The event the hub made of x waits at the end of an open cold queue with room; a full one has
      counted it, and so has a closed one. Nothing else has changed. */
  ghost predicate ColdGot(cfg: Setup, w: World, w': World, x: HubEvent) {
    var room := |w.coldQueue| < cfg.coldDepth;
    w'.coldQueue == w.coldQueue + (if !w.coldClosed && room then [x] else []) &&
    w'.fullDrops - w.fullDrops == (if !w.coldClosed && !room then 1 else 0) &&
    w'.closedDrops - w.closedDrops == (if w.coldClosed then 1 else 0) &&
    w' == w.(coldQueue := w'.coldQueue, fullDrops := w'.fullDrops, closedDrops := w'.closedDrops,
             bus := w'.bus, seqs := w'.seqs)
  }

  /** One turn of the hub's normalizer. */
  lemma {:induction false} NormalizedDelivers(cfg: Setup, w: World, s: Surroundings) returns (x: HubEvent)
    requires w.bus != []
    ensures var w' := Next(cfg, w, Normalized(s));
            ColdGot(cfg, w, w', x) && w'.bus == w.bus[1..] && x.from == w.bus[0].from &&
            w'.seqs == w.seqs[w.bus[0].item.source := SeqOf(w.seqs, w.bus[0].item.source) + 1] &&
            Completes(x.item, w.bus[0].item, SeqOf(w.seqs, w.bus[0].item.source) + 1, s)
  {
    x := Tagged(Normalize(w.bus[0].item, SeqOf(w.seqs, w.bus[0].item.source) + 1, s), w.bus[0].from);
    assert w.coldQueue + [] == w.coldQueue;
  }

  lemma {:induction false} NormalizedKeeps(cfg: Setup, reg: Registry, w: World, step: Step)
    requires Inv(reg, w) && Enabled(cfg, reg, w, step) && step.Normalized?
    ensures Inv(reg, Next(cfg, w, step))
  {
    assert WireOk(reg, w.bus[0]);
    var x := NormalizedDelivers(cfg, w, step.s);
    assert EventOk(reg, x);
  }

  lemma {:induction false} ItemsConcat<T>(a: seq<Tagged<T>>, b: seq<Tagged<T>>)
    ensures Items(a + b) == Items(a) + Items(b)
  {
  }

  lemma {:induction false} HistorySnoc(ops: seq<Op>, op: Op)
    ensures History(ops + [op]) == History(ops) + Appended(op)
  {
    assert (ops + [op])[..|ops + [op]| - 1] == ops;
  }

  lemma {:induction false} CommitKeeps(cfg: Setup, reg: Registry, w: World, step: Step)
    requires Inv(reg, w) && step.Commit?
    ensures Inv(reg, Next(cfg, w, step))
  {
    HistorySnoc(w.ops, Append(Items(w.writerBuf)));
    ItemsConcat(w.trail, w.writerBuf);
  }

  /** A flush that goes through stores every buffered event, under the ids it had in the buffer, and
      leaves what was stored as it was. */
  lemma {:induction false} CommitStores(cfg: Setup, w: World)
    ensures var w', t := Next(cfg, w, Commit(true)), Run(w.ops).events;
            w'.writerBuf == [] && w'.writerDrops == w.writerDrops && w'.trail == w.trail + w.writerBuf &&
            (forall x :: x in w.writerBuf ==> x.item.id in Run(w'.ops).events) &&
            (forall id :: id in t ==> id in Run(w'.ops).events && Run(w'.ops).events[id] == t[id]) &&
            NewRowsReadBack(t, Items(w.writerBuf), Run(w'.ops).events)
  {
    var w', batch := Next(cfg, w, Commit(true)), Items(w.writerBuf);
    assert w'.ops[..|w'.ops| - 1] == w.ops;
    InsertAllKeeps(Run(w.ops).events, batch);
    FirstsStay(Run(w.ops).events, batch);
    forall x | x in w.writerBuf ensures x.item in batch {
      var k :| 0 <= k < |w.writerBuf| && w.writerBuf[k] == x;
      assert batch[k] == x.item;
    }
  }

  lemma {:induction false} StoreKeeps(cfg: Setup, reg: Registry, w: World, step: Step)
    requires Inv(reg, w) && Enabled(cfg, reg, w, step) && (step.Take? || step.CloseCold? || step.Sweep?)
    ensures Inv(reg, Next(cfg, w, step))
  {
    if step.Sweep? {
      HistorySnoc(w.ops, step.op);
      assert History(w.ops) + [] == History(w.ops);
    }
  }

  lemma {:induction false} RunsKeepInv(cfg: Setup, reg: Registry, steps: seq<Step>)
    requires Legal(cfg, reg, steps)
    ensures Inv(reg, Exec(cfg, steps))
  {
    if |steps| == 0 {
    } else {
      var init, step := steps[..|steps| - 1], steps[|steps| - 1];
      RunsKeepInv(cfg, reg, init);
      var w := Exec(cfg, init);
      if step.Normalized? {
        NormalizedKeeps(cfg, reg, w, step);
      } else if step.Commit? {
        CommitKeeps(cfg, reg, w, step);
      } else if step.Take? || step.CloseCold? || step.Sweep? {
        StoreKeeps(cfg, reg, w, step);
      } else if step.Push? {
        PushKeeps(cfg, reg, w, step);
      } else if step.Local? {
        LocalKeeps(cfg, reg, w, step);
      } else {
        SendKeeps(cfg, reg, w, step);
      }
    }
  }

  // ----- the theorems -----

  function Hub(cfg: Setup, steps: seq<Step>): Cold {
    Run(Exec(cfg, steps).ops)
  }

  /** The hub's row under this id was made from edge event o. */
  ghost predicate RowOf(cfg: Setup, steps: seq<Step>, id: EventId, o: Origin) {
    id in Hub(cfg, steps).events &&
    exists x :: x in Exec(cfg, steps).trail && x.from == Some(o) && ReadsBack(Hub(cfg, steps).events[id], x.item)
  }

  /** In every run a row made from an edge event is keyed by that event's id and carries its
      prefixed source, kind, time and payload. */
  lemma {:induction false} ForwardedRowIsImage(cfg: Setup, reg: Registry, steps: seq<Step>, id: EventId,
                                               o: Origin)
    requires Legal(cfg, reg, steps) && RowOf(cfg, steps, id, o)
    ensures id == o.event.id && Image(o, Hub(cfg, steps).events[id]) && Registered(reg, o)
  {
    RunsKeepInv(cfg, reg, steps);
    var x :| x in Exec(cfg, steps).trail && x.from == Some(o) && ReadsBack(Hub(cfg, steps).events[id], x.item);
    assert EventOk(reg, x);
  }

  /** In every run the hub holds at most one row per edge event, and a row stems from at most one. */
  lemma {:induction false} AtMostOneRowPerEdgeEvent(cfg: Setup, reg: Registry, steps: seq<Step>)
    requires Legal(cfg, reg, steps)
    ensures forall i, j, o :: RowOf(cfg, steps, i, o) && RowOf(cfg, steps, j, o) ==> i == j
    ensures forall i, o, o' :: RowOf(cfg, steps, i, o) && RowOf(cfg, steps, i, o') ==> o == o'
  {
    forall i, o | RowOf(cfg, steps, i, o) ensures i == o.event.id && Registered(reg, o) {
      ForwardedRowIsImage(cfg, reg, steps, i, o);
    }
  }

  /** Every row under a registered id was made from the edge event registered under it. */
  lemma {:induction false} RegisteredRowsAreForwarded(cfg: Setup, reg: Registry, steps: seq<Step>, id: EventId)
    requires Legal(cfg, reg, steps) && id in Hub(cfg, steps).events && id in reg
    ensures RowOf(cfg, steps, id, reg[id])
  {
    RunsKeepInv(cfg, reg, steps);
    var w := Exec(cfg, steps);
    StoredFromHistory(w.ops);
    var e :| e in History(w.ops) && e.id == id && ReadsBack(Run(w.ops).events[id], e);
    var k :| 0 <= k < |Items(w.trail)| && Items(w.trail)[k] == e;
    assert w.trail[k] in w.trail && EventOk(reg, w.trail[k]);
  }

  /** `latest` on the hub: a registered id there, too, shows its edge event's image. */
  lemma {:induction false} HubLatestIsImage(cfg: Setup, reg: Registry, steps: seq<Step>, p: Pair)
    requires Legal(cfg, reg, steps) && p in Hub(cfg, steps).latest
    ensures var row := Hub(cfg, steps).latest[p]; row.id in reg ==> Image(reg[row.id], row)
  {
    RunsKeepInv(cfg, reg, steps);
    var w := Exec(cfg, steps);
    LatestIsFirstNewest(w.ops, p);
    var i :| FirstNewest(History(w.ops), p, i) && ReadsBack(Run(w.ops).latest[p], History(w.ops)[i]);
    assert Items(w.trail)[i] == w.trail[i].item;
    assert w.trail[i] in w.trail && EventOk(reg, w.trail[i]);
  }

  lemma {:induction false} ItemsAround<T>(a: seq<Tagged<T>>, x: Tagged<T>, b: seq<Tagged<T>>)
    ensures Items(a + [x] + b) == Items(a) + [x.item] + Items(b) && Items(a + b) == Items(a) + Items(b)
  {
  }

  lemma {:induction false} SameRowAsStored(cfg: Setup, reg: Registry, steps: seq<Step>, x: HubEvent)
    requires Legal(cfg, reg, steps)
    requires x in Exec(cfg, steps).writerBuf && x.from.Some? && x.item.id in Hub(cfg, steps).events
    ensures var row := Hub(cfg, steps).events[x.item.id]; PairOf(row) == PairOf(x.item) && row.ts == x.item.ts
  {
    RunsKeepInv(cfg, reg, steps);
    assert EventOk(reg, x);
    RegisteredRowsAreForwarded(cfg, reg, steps, x.item.id);
    ForwardedRowIsImage(cfg, reg, steps, x.item.id, reg[x.item.id]);
  }

  /** A duplicate that a retry brought to the writer is harmless: if its event is still stored,
      committing the batch with or without it gives the same tables. */
  lemma {:induction false} RetriedDuplicateIsHarmless(cfg: Setup, reg: Registry, steps: seq<Step>,
                                                      a: seq<HubEvent>, x: HubEvent, b: seq<HubEvent>)
    requires Legal(cfg, reg, steps)
    requires Exec(cfg, steps).writerBuf == a + [x] + b && x.from.Some? && x.item.id in Hub(cfg, steps).events
    ensures Apply(Hub(cfg, steps), Append(Items(a + [x] + b))) == Apply(Hub(cfg, steps), Append(Items(a + b)))
  {
    assert x in a + [x] + b;
    SameRowAsStored(cfg, reg, steps, x);
    ItemsAround(a, x, b);
    ReappendChangesNothing(Exec(cfg, steps).ops, Items(a), x.item, Items(b));
  }

  /** A success the client reports is of the whole batch, and the hub has enqueued all of it in this
      very attempt. */
  lemma {:induction false} SuccessMeansEnqueued(cfg: Setup, reg: Registry, w: World, step: Step)
    requires step.Answer? && Enabled(cfg, reg, w, step)
    requires Client.Verdict(cfg.client, EdgeOf(w, step.peer).attempt, step.seen).Ok?
    ensures var g := EdgeOf(w, step.peer);
            Client.Verdict(cfg.client, g.attempt, step.seen) == Ok(|g.sending|) &&
            g.request.Some? && g.request.value.sent == |g.sending|
  {
    var g := EdgeOf(w, step.peer);
    Ingest.SuccessExactlyWhenEnqueued(g.request.value.gate, Items(g.sending), Tried(g.request.value.sent, step.last),
                                      step.own, g.request.value.sent);
  }

  /** Rows forwarded by different dot-free peers never share a source. */
  lemma {:induction false} PeersStayApart(cfg: Setup, reg: Registry, steps: seq<Step>,
                                          i: EventId, o: Origin, j: EventId, o': Origin)
    requires Legal(cfg, reg, steps) && RowOf(cfg, steps, i, o) && RowOf(cfg, steps, j, o')
    requires '.' !in o.peer && '.' !in o'.peer
    ensures Hub(cfg, steps).events[i].source == Hub(cfg, steps).events[j].source
            <==> o.peer == o'.peer && o.event.source == o'.event.source
  {
    ForwardedRowIsImage(cfg, reg, steps, i, o);
    ForwardedRowIsImage(cfg, reg, steps, j, o');
    if Hub(cfg, steps).events[i].source == Hub(cfg, steps).events[j].source {
      PrefixInjective(o.peer, o.event.source, o'.peer, o'.event.source);
    }
  }

  // ----- what the hub's store executes -----

  ghost function SweepsOf(ops: seq<Op>): seq<Op> {
    if |ops| == 0 then []
    else SweepsOf(ops[..|ops| - 1]) + (if ops[|ops| - 1].Append? then [] else [ops[|ops| - 1]])
  }

  ghost function SweepSteps(steps: seq<Step>): seq<Op> {
    if |steps| == 0 then []
    else SweepSteps(steps[..|steps| - 1]) + (if steps[|steps| - 1].Sweep? then [steps[|steps| - 1].op] else [])
  }

  lemma {:induction false} SweepsSnoc(ops: seq<Op>, op: Op)
    ensures SweepsOf(ops + [op]) == SweepsOf(ops) + if op.Append? then [] else [op]
  {
    assert (ops + [op])[..|ops|] == ops;
  }

  lemma {:induction false} StepSweeps(cfg: Setup, reg: Registry, w: World, step: Step)
    requires Enabled(cfg, reg, w, step)
    ensures SweepsOf(Next(cfg, w, step).ops) == SweepsOf(w.ops) + if step.Sweep? then [step.op] else []
    ensures Next(cfg, w, step).coldClosed <==> w.coldClosed || step.CloseCold?
  {
    assert SweepsOf(w.ops) + [] == SweepsOf(w.ops);
    match step
    case Commit(ok) => SweepsSnoc(w.ops, Append(Items(w.writerBuf)));
    case Sweep(op) => SweepsSnoc(w.ops, op);
    case _ =>
  }

  /** In every run the store has executed exactly the sweeps of the run, in order, among what the writer
      committed; and its queue is closed exactly if the writer went away. */
  lemma {:induction false} SweepsAreExecuted(cfg: Setup, reg: Registry, steps: seq<Step>)
    requires Legal(cfg, reg, steps)
    ensures SweepsOf(Exec(cfg, steps).ops) == SweepSteps(steps)
    ensures History(Exec(cfg, steps).ops) == Items(Exec(cfg, steps).trail)
    ensures Exec(cfg, steps).coldClosed <==> CloseCold in steps
  {
    RunsKeepInv(cfg, reg, steps);
    if |steps| == 0 {
    } else {
      var init := steps[..|steps| - 1];
      assert steps == init + [steps[|steps| - 1]];
      SweepsAreExecuted(cfg, reg, init);
      StepSweeps(cfg, reg, Exec(cfg, init), steps[|steps| - 1]);
    }
  }

  // ----- how often a batch is sent -----

  /** The requests that reached the hub for the batch an edge took up last. */
  ghost function Begun(steps: seq<Step>, peer: string): nat {
    if |steps| == 0 then 0
    else
      var step := steps[|steps| - 1];
      if step == Flush(peer) then 0
      else Begun(steps[..|steps| - 1], peer) + (if step.Begin? && step.peer == peer then 1 else 0)
  }

  /** While a batch is being sent its attempts are the requests begun for it. */
  ghost predicate CountsAttempts(cfg: Setup, g: Edge, begun: nat) {
    begun <= cfg.client.maxAttempts &&
    (g.sending != [] ==> begun == g.attempt + if g.request.Some? then 1 else 0)
  }

  lemma {:induction false} StepCountsAttempts(cfg: Setup, reg: Registry, w: World, step: Step, peer: string, begun: nat)
    requires Enabled(cfg, reg, w, step) && CountsAttempts(cfg, EdgeOf(w, peer), begun)
    ensures CountsAttempts(cfg, EdgeOf(Next(cfg, w, step), peer),
                           if step == Flush(peer) then 0
                           else if step.Begin? && step.peer == peer then begun + 1 else begun)
  {
  }

  /** In every run no batch is sent to the hub more often than configured, and the attempt a reply is
      judged by is the number of earlier requests for the same batch. */
  lemma {:induction false} NoMoreThanMaxAttempts(cfg: Setup, reg: Registry, steps: seq<Step>, peer: string)
    requires Legal(cfg, reg, steps)
    ensures CountsAttempts(cfg, EdgeOf(Exec(cfg, steps), peer), Begun(steps, peer))
  {
    if |steps| == 0 {
    } else {
      var init, step := steps[..|steps| - 1], steps[|steps| - 1];
      NoMoreThanMaxAttempts(cfg, reg, init, peer);
      StepCountsAttempts(cfg, reg, Exec(cfg, init), step, peer, Begun(init, peer));
    }
  }

  // ----- nothing is lost uncounted -----

  /** Events of the hub's own producers, and events its endpoint has enqueued. */
  ghost function Brought(steps: seq<Step>): nat {
    if |steps| == 0 then 0
    else
      var step := steps[|steps| - 1];
      Brought(steps[..|steps| - 1]) + (if step.Local? || step.Push? then 1 else 0)
  }

  /** One step adds at most one event to the arrivals: a local one, or one the endpoint enqueues. */
  lemma {:induction false} StepBrings(cfg: Setup, reg: Registry, w: World, step: Step)
    requires Enabled(cfg, reg, w, step)
    ensures w.arrivals <= Next(cfg, w, step).arrivals
    ensures |Next(cfg, w, step).arrivals| == |w.arrivals| + if step.Local? || step.Push? then 1 else 0
    ensures step.Local? ==> Next(cfg, w, step).arrivals == w.arrivals + [Tagged(step.x, None)]
  {
  }

  lemma {:induction false} BroughtSnoc(steps: seq<Step>, step: Step)
    ensures Brought(steps + [step]) == Brought(steps) + if step.Local? || step.Push? then 1 else 0
  {
    assert (steps + [step])[..|steps|] == steps;
  }

  ghost predicate LocalsIn(steps: seq<Step>, arrivals: seq<Wire>) {
    forall x :: Local(x) in steps ==> Tagged(x, None) in arrivals
  }

  lemma {:induction false} LocalsGrow(steps: seq<Step>, step: Step, arrivals: seq<Wire>, more: seq<Wire>)
    requires LocalsIn(steps, arrivals) && arrivals <= more
    requires step.Local? ==> more == arrivals + [Tagged(step.x, None)]
    ensures LocalsIn(steps + [step], more)
  {
    forall x | Local(x) in steps + [step] ensures Tagged(x, None) in more {
      assert more == arrivals + more[|arrivals|..];
      assert Local(x) in steps || Local(x) == step;
    }
  }

  /** In every run the bus has taken exactly what was brought to it, every local event included. */
  lemma {:induction false} BusTakesAllBrought(cfg: Setup, reg: Registry, steps: seq<Step>)
    requires Legal(cfg, reg, steps)
    ensures |Exec(cfg, steps).arrivals| == Brought(steps) && LocalsIn(steps, Exec(cfg, steps).arrivals)
  {
    if |steps| == 0 {
    } else {
      var init, step := steps[..|steps| - 1], steps[|steps| - 1];
      BusTakesAllBrought(cfg, reg, init);
      StepBrings(cfg, reg, Exec(cfg, init), step);
      BroughtSnoc(init, step);
      LocalsGrow(init, step, Exec(cfg, init).arrivals, Exec(cfg, steps).arrivals);
      assert steps == init + [step];
    }
  }

  /** Everything that was ever put on the bus is stored, counted as dropped somewhere, or still on its
      way; and no queue exceeds its depth. */
  ghost predicate Conserves(cfg: Setup, w: World) {
    |w.arrivals| == |w.trail| + w.writerDrops + |w.writerBuf| + |w.coldQueue| + w.fullDrops + w.closedDrops + |w.bus| &&
    |w.bus| <= cfg.busDepth && |w.coldQueue| <= cfg.coldDepth
  }

  lemma {:induction false} StepConserves(cfg: Setup, reg: Registry, w: World, step: Step)
    requires Enabled(cfg, reg, w, step) && Conserves(cfg, w)
    ensures Conserves(cfg, Next(cfg, w, step))
  {
  }

  /** In every run of edges, bus, normalizer, cold queue and writer: received = committed + dropped by
      the writer + buffered + queued + dropped at a full or closed queue + still on the bus. */
  lemma {:induction false} PipelineConserves(cfg: Setup, reg: Registry, steps: seq<Step>)
    requires Legal(cfg, reg, steps)
    ensures Conserves(cfg, Exec(cfg, steps))
  {
    if |steps| == 0 {
    } else {
      var init := steps[..|steps| - 1];
      PipelineConserves(cfg, reg, init);
      StepConserves(cfg, reg, Exec(cfg, init), steps[|steps| - 1]);
    }
  }
}
