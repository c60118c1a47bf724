/** From an edge's normalizer into the hub's tables: with an idle edge, a drained hub and room in its
    queues, one event passes every stage, whatever happened before. */
module Arrival {
  import opened Prelude
  import opened Events
  import opened ColdHistory
  import opened CrossNode
  import Normalizer
  import Delivery
  import Client
  import Ingest

  /** Nothing of the edge's is under way, nothing waits at the hub, and its writer is there. */
  ghost predicate Drained(w: World, peer: string) {
    EdgeOf(w, peer).buf == [] && EdgeOf(w, peer).sending == [] &&
    w.bus == [] && w.coldQueue == [] && !w.coldClosed
  }

  ghost predicate Roomy(cfg: Setup) {
    cfg.client.maxAttempts > 0 && cfg.busDepth > 0 && cfg.coldDepth > 0
  }

  const ACCEPTED: Client.Reply := Ingest.Success(1)

  /** One event's way through the stages. */
  function Way(peer: string, e: Event, s: Normalizer.Surroundings): seq<CrossNode.Step> {
    [Emit(peer, e), Flush(peer), Begin(peer, Delivery.OPEN_GATE), Push(peer),
     Answer(peer, Ingest.Queued, ACCEPTED, ACCEPTED), Normalized(s), CrossNode.Take, Commit(true)]
  }

  /** The edge after n steps of it, with g to begin with. */
  function EdgeAt(g: Edge, x: Wire, n: nat): Edge {
    if n == 0 then g
    else if n == 1 then g.(buf := [x])
    else if n == 2 then Edge([], [x], 0, None, 0, g.log)
    else if n == 3 then Edge([], [x], 0, Some(Request(Delivery.OPEN_GATE, 0)), 0, g.log)
    else if n == 4 then Edge([], [x], 0, Some(Request(Delivery.OPEN_GATE, 1)), 1, g.log)
    else Edge([], [], 0, None, 0, g.log + [Shipment([x], Ok(1), 1)])
  }

  /** The hub's queues after n steps of it; y is what its normalizer makes of the event. */
  ghost predicate HubAt(w: World, x: Wire, id: EventId, n: nat) {
    !w.coldClosed && w.bus == (if 4 <= n < 6 then [x] else []) && |w.coldQueue| == (if n == 6 then 1 else 0) &&
    (n == 6 ==> w.coldQueue[0].item.id == id) &&
    (n == 7 ==> w.writerBuf != [] && w.writerBuf[|w.writerBuf| - 1].item.id == id) &&
    (n == 8 ==> id in Run(w.ops).events)
  }

  ghost predicate OnItsWay(g: Edge, peer: string, e: Event, w: World, n: nat) {
    EdgeOf(w, peer) == EdgeAt(g, Delivery.WireOf(peer, e), n) && HubAt(w, Delivery.WireOf(peer, e), e.id, n)
  }

  lemma {:induction false} EdgeStep(cfg: Setup, reg: Registry, g: Edge, peer: string, e: Event,
                                    s: Normalizer.Surroundings, w: World, n: nat)
    requires Roomy(cfg) && e.id in reg && reg[e.id] == Origin(peer, e) && g.buf == [] && g.sending == []
    requires n < 4 && OnItsWay(g, peer, e, w, n)
    ensures Enabled(cfg, reg, w, Way(peer, e, s)[n])
    ensures OnItsWay(g, peer, e, Next(cfg, w, Way(peer, e, s)[n]), n + 1)
  {
  }

  lemma {:induction false} AnswerStep(cfg: Setup, reg: Registry, g: Edge, peer: string, e: Event,
                                      s: Normalizer.Surroundings, w: World)
    requires Roomy(cfg) && OnItsWay(g, peer, e, w, 4)
    ensures Enabled(cfg, reg, w, Way(peer, e, s)[4])
    ensures OnItsWay(g, peer, e, Next(cfg, w, Way(peer, e, s)[4]), 5)
  {
    assert Ingest.PrefixSent(Tried(1, Ingest.Queued), 1, 1);
  }

  lemma {:induction false} HubStep(cfg: Setup, reg: Registry, g: Edge, peer: string, e: Event,
                                   s: Normalizer.Surroundings, w: World, n: nat)
    requires Roomy(cfg) && 5 <= n < 8 && OnItsWay(g, peer, e, w, n)
    ensures Enabled(cfg, reg, w, Way(peer, e, s)[n])
    ensures OnItsWay(g, peer, e, Next(cfg, w, Way(peer, e, s)[n]), n + 1)
  {
    if n == 5 {
      var _ := NormalizedDelivers(cfg, w, s);
    } else if n == 7 {
      CommitStores(cfg, w);
    }
  }

  lemma {:induction false} WayStep(cfg: Setup, reg: Registry, g: Edge, peer: string, e: Event,
                                   s: Normalizer.Surroundings, w: World, n: nat)
    requires Roomy(cfg) && e.id in reg && reg[e.id] == Origin(peer, e) && g.buf == [] && g.sending == []
    requires n < 8 && OnItsWay(g, peer, e, w, n)
    ensures Enabled(cfg, reg, w, Way(peer, e, s)[n])
    ensures OnItsWay(g, peer, e, Next(cfg, w, Way(peer, e, s)[n]), n + 1)
  {
    if n < 4 {
      EdgeStep(cfg, reg, g, peer, e, s, w, n);
    } else if n == 4 {
      AnswerStep(cfg, reg, g, peer, e, s, w);
    } else {
      HubStep(cfg, reg, g, peer, e, s, w, n);
    }
  }

  lemma {:induction false} OneStepOn(cfg: Setup, reg: Registry, run: seq<CrossNode.Step>, step: CrossNode.Step)
    requires Legal(cfg, reg, run) && Enabled(cfg, reg, Exec(cfg, run), step)
    ensures Legal(cfg, reg, run + [step]) && Exec(cfg, run + [step]) == Next(cfg, Exec(cfg, run), step)
  {
    assert (run + [step])[..|run + [step]| - 1] == run;
  }

  lemma {:induction false} WayOneOn(cfg: Setup, reg: Registry, run: seq<CrossNode.Step>, g: Edge, peer: string,
                                    e: Event, s: Normalizer.Surroundings, n: nat)
    requires Roomy(cfg) && e.id in reg && reg[e.id] == Origin(peer, e) && g.buf == [] && g.sending == []
    requires n < 8 && Legal(cfg, reg, run) && OnItsWay(g, peer, e, Exec(cfg, run), n)
    ensures Legal(cfg, reg, run + [Way(peer, e, s)[n]])
    ensures OnItsWay(g, peer, e, Exec(cfg, run + [Way(peer, e, s)[n]]), n + 1)
  {
    WayStep(cfg, reg, g, peer, e, s, Exec(cfg, run), n);
    OneStepOn(cfg, reg, run, Way(peer, e, s)[n]);
  }

  lemma {:induction false} OneMore<T>(a: seq<T>, b: seq<T>, n: nat)
    requires 0 < n <= |b|
    ensures a + b[..n - 1] + [b[n - 1]] == a + b[..n]
  {
  }

  lemma {:induction false} WayRuns(cfg: Setup, reg: Registry, before: seq<CrossNode.Step>, g: Edge, peer: string,
                                   e: Event, s: Normalizer.Surroundings, n: nat) returns (run: seq<CrossNode.Step>)
    requires Roomy(cfg) && e.id in reg && reg[e.id] == Origin(peer, e) && g.buf == [] && g.sending == []
    requires Legal(cfg, reg, before) && OnItsWay(g, peer, e, Exec(cfg, before), 0) && n <= 8
    ensures run == before + Way(peer, e, s)[..n] && Legal(cfg, reg, run) && OnItsWay(g, peer, e, Exec(cfg, run), n)
  {
    if n == 0 {
      run := before;
    } else {
      var init := WayRuns(cfg, reg, before, g, peer, e, s, n - 1);
      WayOneOn(cfg, reg, init, g, peer, e, s, n - 1);
      OneMore(before, Way(peer, e, s), n);
      run := init + [Way(peer, e, s)[n - 1]];
    }
  }

  /** After any legal run that leaves the edge idle and the hub's queues empty, an event the edge emits
      can travel on: the run extended by its way is legal, the edge's client reports one event
      accepted, and the hub holds a row made from it. */
  lemma {:induction false} EventArrives(cfg: Setup, reg: Registry, before: seq<CrossNode.Step>, peer: string,
                                        e: Event, s: Normalizer.Surroundings)
    requires Legal(cfg, reg, before) && Drained(Exec(cfg, before), peer) && Roomy(cfg)
    requires e.id in reg && reg[e.id] == Origin(peer, e)
    ensures var run := before + Way(peer, e, s);
            Legal(cfg, reg, run) && RowOf(cfg, run, e.id, Origin(peer, e)) &&
            Image(Origin(peer, e), Hub(cfg, run).events[e.id])
    ensures var log := EdgeOf(Exec(cfg, before + Way(peer, e, s)), peer).log;
            |log| > 0 && log[..|log| - 1] == EdgeOf(Exec(cfg, before), peer).log &&
            log[|log| - 1].outcome == Ok(1) && log[|log| - 1].reached == 1
  {
    var run := WayRuns(cfg, reg, before, EdgeOf(Exec(cfg, before), peer), peer, e, s, 8);
    assert run == before + Way(peer, e, s);
    RegisteredRowsAreForwarded(cfg, reg, run, e.id);
    ForwardedRowIsImage(cfg, reg, run, e.id, Origin(peer, e));
  }
}
