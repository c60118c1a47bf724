/** What a forwarder's counters say against what the hub really got. */
module Delivery {
  import opened Prelude
  import opened Events
  import opened Forwarder
  import opened CrossNode
  import BatchFlush
  import Client
  import Ingest

  /** The settled batches as the forwarder's own counters see them. */
  function Entries(log: seq<Shipment>): seq<Entry> {
    if log == [] then []
    else
      var last := log[|log| - 1];
      Entries(log[..|log| - 1]) + [BatchFlush.Flush(Items(last.batch), last.outcome)]
  }

  /** Events of failed batches that never reached the hub. */
  function Missing(log: seq<Shipment>): int {
    if log == [] then 0
    else
      var last := log[|log| - 1];
      Missing(log[..|log| - 1]) + (if last.outcome.Ok? then 0 else |last.batch| - last.reached)
  }

  /** Events of failed batches that did. */
  function Overcounted(log: seq<Shipment>): nat {
    if log == [] then 0
    else
      var last := log[|log| - 1];
      Overcounted(log[..|log| - 1]) + (if last.outcome.Ok? then 0 else last.reached)
  }

  function ReachedIn(log: seq<Shipment>): nat {
    if log == [] then 0 else ReachedIn(log[..|log| - 1]) + log[|log| - 1].reached
  }

  /** A success is reported with the batch's size, and only when all of it reached the hub. */
  ghost predicate Tidy(s: Shipment) {
    s.reached <= |s.batch| && (s.outcome.Ok? ==> s.outcome.value == |s.batch| == s.reached)
  }

  ghost predicate TidyEdge(g: Edge) {
    g.reached <= |g.sending| && (forall s :: s in g.log ==> Tidy(s)) &&
    (g.request.Some? ==> g.request.value.sent <= g.reached)
  }

  // ----- the counters -----

  lemma {:induction false} EntriesSnoc(log: seq<Shipment>)
    requires log != []
    ensures var init, last, es := log[..|log| - 1], log[|log| - 1], Entries(log);
            es != [] && es[..|es| - 1] == Entries(init) &&
            es[|es| - 1] == BatchFlush.Flush(Items(last.batch), last.outcome)
  {
  }

  lemma {:induction false} CountersAccount(log: seq<Shipment>)
    requires forall s :: s in log ==> Tidy(s)
    ensures Dropped(Entries(log)) == Missing(log) + Overcounted(log) && Missing(log) >= 0
    ensures ReachedIn(log) == Forwarded(Entries(log)) + Overcounted(log)
    ensures Dropped(Entries(log)) == Missing(log) <==>
              forall s :: s in log ==> s.outcome.Ok? || s.reached == 0
  {
    if log == [] {
    } else {
      var init, last := log[..|log| - 1], log[|log| - 1];
      assert log == init + [last];
      CountersAccount(init);
      EntriesSnoc(log);
      assert Tidy(last);
      assert forall s :: s in log <==> s in init || s == last;
    }
  }

  // ----- every run keeps the books tidy -----

  ghost predicate TidyWorld(w: World) {
    forall p :: p in w.edges ==> TidyEdge(w.edges[p])
  }

  lemma {:induction false} SettleTidy(g: Edge, outcome: Result<nat, Client.ClientError>)
    requires TidyEdge(g) && Tidy(Shipment(g.sending, outcome, g.reached))
    ensures TidyEdge(Settle(g, outcome))
  {
  }

  lemma {:induction false} AnswerTidy(cfg: Setup, reg: Registry, w: World, step: Step)
    requires step.Answer? && Enabled(cfg, reg, w, step) && TidyEdge(EdgeOf(w, step.peer))
    ensures TidyEdge(AfterReply(cfg, EdgeOf(w, step.peer), step.seen))
  {
    var g := EdgeOf(w, step.peer);
    if !Client.Retries(cfg.client, g.attempt, step.seen) {
      var outcome := Client.Verdict(cfg.client, g.attempt, step.seen);
      if outcome.Ok? {
        SuccessMeansEnqueued(cfg, reg, w, step);
      }
      SettleTidy(g, outcome);
    }
  }

  lemma {:induction false} PushTidy(g: Edge)
    requires TidyEdge(g) && g.request.Some? && g.request.value.sent < |g.sending|
    ensures TidyEdge(AfterPush(g))
  {
  }

  lemma {:induction false} StepTidy(cfg: Setup, reg: Registry, w: World, step: Step)
    requires Enabled(cfg, reg, w, step) && TidyWorld(w)
    ensures TidyWorld(Next(cfg, w, step))
  {
    match step
    case Answer(_, _, _, _) => AnswerTidy(cfg, reg, w, step);
    case Lose(peer) => SettleTidy(EdgeOf(w, peer), Client.Verdict(cfg.client, EdgeOf(w, peer).attempt, Client.NoReply));
    case GiveUp(peer) => SettleTidy(EdgeOf(w, peer), Err(Client.RetriesExhausted(0, 0, None)));
    case Push(peer) => PushTidy(EdgeOf(w, peer));
    case _ =>
  }

  lemma {:induction false} RunsTidy(cfg: Setup, reg: Registry, steps: seq<Step>)
    requires Legal(cfg, reg, steps)
    ensures TidyWorld(Exec(cfg, steps))
  {
    if |steps| == 0 {
    } else {
      var init := steps[..|steps| - 1];
      RunsTidy(cfg, reg, init);
      StepTidy(cfg, reg, Exec(cfg, init), steps[|steps| - 1]);
    }
  }

  // ----- which attempts reach the hub -----

  /** The hub is about to enqueue the first event of an attempt: its checks let the batch through, and
      the bus has room. */
  ghost predicate Admitted(cfg: Setup, w: World, peer: string) {
    var g := EdgeOf(w, peer);
    g.request.Some? && g.request.value.sent == 0 && g.sending != [] && |w.bus| < cfg.busDepth &&
    Ingest.Passes(g.request.value.gate, Items(g.sending))
  }

  /** Some attempt at the edge's b-th batch was admitted. */
  ghost predicate AdmittedIn(cfg: Setup, steps: seq<Step>, peer: string, b: nat) {
    |steps| > 0 &&
    var init, step := steps[..|steps| - 1], steps[|steps| - 1];
    AdmittedIn(cfg, init, peer, b) ||
    (step.Push? && step.peer == peer && Admitted(cfg, Exec(cfg, init), peer) &&
     |EdgeOf(Exec(cfg, init), peer).log| == b)
  }

  /** Batches reached the hub in part or whole exactly if an attempt at them was admitted. */
  ghost predicate ReachedIfAdmitted(cfg: Setup, steps: seq<Step>, peer: string, g: Edge) {
    (forall b: nat :: b < |g.log| ==> (g.log[b].reached > 0 <==> AdmittedIn(cfg, steps, peer, b))) &&
    (g.reached > 0 <==> AdmittedIn(cfg, steps, peer, |g.log|)) &&
    (forall b: nat :: b > |g.log| ==> !AdmittedIn(cfg, steps, peer, b))
  }

  lemma {:induction false} AdmittedSnoc(cfg: Setup, init: seq<Step>, step: Step, peer: string, b: nat)
    ensures AdmittedIn(cfg, init + [step], peer, b) <==>
              AdmittedIn(cfg, init, peer, b) ||
              (step.Push? && step.peer == peer && Admitted(cfg, Exec(cfg, init), peer) &&
               |EdgeOf(Exec(cfg, init), peer).log| == b)
  {
    assert (init + [step])[..|init|] == init;
  }

  /** A step that is no push of this edge leaves the admissions alone. */
  lemma {:induction false} OtherStepsAdmitNone(cfg: Setup, init: seq<Step>, step: Step, peer: string, g: Edge)
    requires ReachedIfAdmitted(cfg, init, peer, g) && !(step.Push? && step.peer == peer)
    ensures ReachedIfAdmitted(cfg, init + [step], peer, g)
  {
    forall b: nat ensures AdmittedIn(cfg, init + [step], peer, b) <==> AdmittedIn(cfg, init, peer, b) {
      AdmittedSnoc(cfg, init, step, peer, b);
    }
  }

  lemma {:induction false} SettleKeepsAdmissions(cfg: Setup, steps: seq<Step>, peer: string, g: Edge,
                                                 outcome: Result<nat, Client.ClientError>)
    requires ReachedIfAdmitted(cfg, steps, peer, g)
    ensures ReachedIfAdmitted(cfg, steps, peer, Settle(g, outcome))
  {
  }

  lemma {:induction false} PushAdmits(cfg: Setup, reg: Registry, init: seq<Step>, step: Step)
    requires step.Push? && Enabled(cfg, reg, Exec(cfg, init), step) && TidyWorld(Exec(cfg, init))
    requires ReachedIfAdmitted(cfg, init, step.peer, EdgeOf(Exec(cfg, init), step.peer))
    ensures ReachedIfAdmitted(cfg, init + [step], step.peer, AfterPush(EdgeOf(Exec(cfg, init), step.peer)))
  {
    var w, peer := Exec(cfg, init), step.peer;
    var g := EdgeOf(w, peer);
    assert TidyEdge(g);
    forall b: nat
      ensures AdmittedIn(cfg, init + [step], peer, b) <==>
                AdmittedIn(cfg, init, peer, b) || (Admitted(cfg, w, peer) && |g.log| == b)
    {
      AdmittedSnoc(cfg, init, step, peer, b);
    }
    assert g.request.value.sent == 0 ==> Admitted(cfg, w, peer);
  }

  /** A push or the end of an attempt of this edge. */
  predicate Moves(step: Step, peer: string) {
    (step.Push? || step.Answer? || step.Lose? || step.GiveUp?) && step.peer == peer
  }

  /** All other steps leave alone what has reached the hub. */
  lemma {:induction false} QuietEdge(cfg: Setup, reg: Registry, w: World, step: Step, peer: string)
    requires Enabled(cfg, reg, w, step) && TidyEdge(EdgeOf(w, peer)) && !Moves(step, peer)
    ensures var g, g' := EdgeOf(w, peer), EdgeOf(Next(cfg, w, step), peer);
            g'.log == g.log && g'.reached == g.reached <= |g'.sending| &&
            g'.sending[..g.reached] == g.sending[..g.reached]
  {
  }

  lemma {:induction false} RepliesKeepAdmissions(cfg: Setup, steps: seq<Step>, peer: string, g: Edge,
                                                 seen: Client.Reply)
    requires ReachedIfAdmitted(cfg, steps, peer, g)
    ensures ReachedIfAdmitted(cfg, steps, peer, AfterReply(cfg, g, seen))
  {
    if !Client.Retries(cfg.client, g.attempt, seen) {
      SettleKeepsAdmissions(cfg, steps, peer, g, Client.Verdict(cfg.client, g.attempt, seen));
    }
  }

  lemma {:induction false} SameReach(cfg: Setup, steps: seq<Step>, peer: string, g: Edge, g': Edge)
    requires ReachedIfAdmitted(cfg, steps, peer, g) && g'.log == g.log && g'.reached == g.reached
    ensures ReachedIfAdmitted(cfg, steps, peer, g')
  {
  }

  lemma {:induction false} StepAdmissions(cfg: Setup, reg: Registry, init: seq<Step>, step: Step, peer: string)
    requires Enabled(cfg, reg, Exec(cfg, init), step) && TidyWorld(Exec(cfg, init))
    requires ReachedIfAdmitted(cfg, init, peer, EdgeOf(Exec(cfg, init), peer))
    ensures ReachedIfAdmitted(cfg, init + [step], peer, EdgeOf(Next(cfg, Exec(cfg, init), step), peer))
  {
    var w := Exec(cfg, init);
    var g := EdgeOf(w, peer);
    assert TidyEdge(g);
    if step.Push? && step.peer == peer {
      PushAdmits(cfg, reg, init, step);
    } else {
      OtherStepsAdmitNone(cfg, init, step, peer, g);
      if Moves(step, peer) {
        EndsKeepAdmissions(cfg, w, init + [step], step);
      } else {
        QuietEdge(cfg, reg, w, step, peer);
        SameReach(cfg, init + [step], peer, g, EdgeOf(Next(cfg, w, step), peer));
      }
    }
  }

  lemma {:induction false} EndsKeepAdmissions(cfg: Setup, w: World, steps: seq<Step>, step: Step)
    requires step.Answer? || step.Lose? || step.GiveUp?
    requires ReachedIfAdmitted(cfg, steps, step.peer, EdgeOf(w, step.peer))
    ensures ReachedIfAdmitted(cfg, steps, step.peer, EdgeOf(Next(cfg, w, step), step.peer))
  {
    var g := EdgeOf(w, step.peer);
    if step.Answer? {
      RepliesKeepAdmissions(cfg, steps, step.peer, g, step.seen);
    } else if step.Lose? {
      RepliesKeepAdmissions(cfg, steps, step.peer, g, Client.NoReply);
    } else {
      SettleKeepsAdmissions(cfg, steps, step.peer, g, Err(Client.RetriesExhausted(0, 0, None)));
    }
  }

  lemma {:induction false} RunsAdmit(cfg: Setup, reg: Registry, steps: seq<Step>, peer: string)
    requires Legal(cfg, reg, steps)
    ensures ReachedIfAdmitted(cfg, steps, peer, EdgeOf(Exec(cfg, steps), peer))
  {
    if |steps| == 0 {
    } else {
      var init, step := steps[..|steps| - 1], steps[|steps| - 1];
      assert steps == init + [step];
      RunsAdmit(cfg, reg, init, peer);
      RunsTidy(cfg, reg, init);
      StepAdmissions(cfg, reg, init, step, peer);
    }
  }

  /** In every run, for every edge: what its forwarder has counted as dropped are the events of
      failed batches that never reached the hub plus those that did; forwarded plus the latter is
      what reached it; and the drop count is exact if and only if no batch failed after an attempt at
      it was admitted. */
  lemma {:induction false} DroppedAgainstReached(cfg: Setup, reg: Registry, steps: seq<Step>, peer: string)
    requires Legal(cfg, reg, steps)
    ensures var log := EdgeOf(Exec(cfg, steps), peer).log;
            Dropped(Entries(log)) == Missing(log) + Overcounted(log) && Missing(log) >= 0 &&
            ReachedIn(log) == Forwarded(Entries(log)) + Overcounted(log)
    ensures var log := EdgeOf(Exec(cfg, steps), peer).log;
            Dropped(Entries(log)) == Missing(log) <==>
              forall b: nat :: b < |log| && AdmittedIn(cfg, steps, peer, b) ==> log[b].outcome.Ok?
  {
    RunsTidy(cfg, reg, steps);
    RunsAdmit(cfg, reg, steps, peer);
    CountersAccount(EdgeOf(Exec(cfg, steps), peer).log);
    FailedAfterAdmission(cfg, steps, peer, EdgeOf(Exec(cfg, steps), peer));
  }

  lemma {:induction false} FailedAfterAdmission(cfg: Setup, steps: seq<Step>, peer: string, g: Edge)
    requires ReachedIfAdmitted(cfg, steps, peer, g)
    ensures (forall s :: s in g.log ==> s.outcome.Ok? || s.reached == 0) <==>
              forall b: nat :: b < |g.log| && AdmittedIn(cfg, steps, peer, b) ==> g.log[b].outcome.Ok?
  {
    forall b: nat | b < |g.log|
      ensures g.log[b] in g.log && (g.log[b].reached > 0 <==> AdmittedIn(cfg, steps, peer, b))
    {
    }
  }

  // ----- `reached` is what really went on the bus -----

  /** The wire lies in the part of some batch of this edge that is said to have reached the hub. */
  ghost predicate SaidToReach(g: Edge, x: Wire) {
    (g.reached <= |g.sending| && x in g.sending[..g.reached]) ||
    exists s :: s in g.log && s.reached <= |s.batch| && x in s.batch[..s.reached]
  }

  ghost predicate Of(peer: string, x: Wire) {
    x.from.Some? && x.from.value.peer == peer
  }

  ghost predicate OwnWires(peer: string, g: Edge) {
    (forall x :: x in g.buf ==> Of(peer, x)) && (forall x :: x in g.sending ==> Of(peer, x))
  }

  /** An edge's wires arrived exactly as far as it says. */
  ghost predicate TrueToBus(w: World, peer: string) {
    OwnWires(peer, EdgeOf(w, peer)) &&
    forall x :: Of(peer, x) ==> (x in w.arrivals <==> SaidToReach(EdgeOf(w, peer), x))
  }

  lemma {:induction false} SettleKeepsReach(g: Edge, outcome: Result<nat, Client.ClientError>, x: Wire)
    requires g.reached <= |g.sending|
    ensures SaidToReach(Settle(g, outcome), x) <==> SaidToReach(g, x)
  {
    var g' := Settle(g, outcome);
    var last := Shipment(g.sending, outcome, g.reached);
    assert last in g'.log;
    assert forall s :: s in g'.log <==> s in g.log || s == last;
  }

  lemma {:induction false} PushReach(g: Edge, x: Wire)
    requires TidyEdge(g) && g.request.Some? && g.request.value.sent < |g.sending|
    ensures SaidToReach(AfterPush(g), x) <==> SaidToReach(g, x) || x == g.sending[g.request.value.sent]
  {
    var n := g.request.value.sent;
    if n < g.reached {
      assert g.sending[..g.reached][n] == g.sending[n];
    } else {
      assert g.sending[..n + 1] == g.sending[..n] + [g.sending[n]];
    }
  }

  lemma {:induction false} PushTrue(cfg: Setup, reg: Registry, w: World, step: Step, peer: string)
    requires step.Push? && Enabled(cfg, reg, w, step) && TidyWorld(w)
    requires TrueToBus(w, peer) && TrueToBus(w, step.peer)
    ensures TrueToBus(Next(cfg, w, step), peer)
  {
    var g := EdgeOf(w, step.peer);
    assert TidyEdge(g) && Of(step.peer, g.sending[g.request.value.sent]);
    forall x | Of(peer, x)
      ensures x in Next(cfg, w, step).arrivals <==> SaidToReach(EdgeOf(Next(cfg, w, step), peer), x)
    {
      if peer == step.peer {
        PushReach(g, x);
      }
    }
  }

  lemma {:induction false} SettledTrue(w: World, w': World, peer: string, outcome: Result<nat, Client.ClientError>)
    requires TrueToBus(w, peer) && TidyEdge(EdgeOf(w, peer)) && w'.arrivals == w.arrivals
    requires EdgeOf(w', peer) == Settle(EdgeOf(w, peer), outcome)
    ensures TrueToBus(w', peer)
  {
    forall x | Of(peer, x) ensures x in w'.arrivals <==> SaidToReach(EdgeOf(w', peer), x) {
      SettleKeepsReach(EdgeOf(w, peer), outcome, x);
    }
  }

  /** Nothing that matters to the claim has changed. */
  lemma {:induction false} UntouchedTrue(w: World, w': World, peer: string)
    requires TrueToBus(w, peer) && OwnWires(peer, EdgeOf(w', peer))
    requires EdgeOf(w', peer).log == EdgeOf(w, peer).log
    requires EdgeOf(w', peer).reached <= |EdgeOf(w', peer).sending|
    requires EdgeOf(w, peer).reached <= |EdgeOf(w, peer).sending|
    requires EdgeOf(w', peer).sending[..EdgeOf(w', peer).reached] == EdgeOf(w, peer).sending[..EdgeOf(w, peer).reached]
    requires forall x :: Of(peer, x) ==> (x in w'.arrivals <==> x in w.arrivals)
    ensures TrueToBus(w', peer)
  {
  }

  /** The client has seen the end of its attempt. */
  lemma {:induction false} RepliedTrue(cfg: Setup, w: World, w': World, peer: string, seen: Client.Reply)
    requires TrueToBus(w, peer) && TidyEdge(EdgeOf(w, peer)) && w'.arrivals == w.arrivals
    requires EdgeOf(w', peer) == AfterReply(cfg, EdgeOf(w, peer), seen)
    ensures TrueToBus(w', peer)
  {
    var g := EdgeOf(w, peer);
    if Client.Retries(cfg.client, g.attempt, seen) {
      UntouchedTrue(w, w', peer);
    } else {
      SettledTrue(w, w', peer, Client.Verdict(cfg.client, g.attempt, seen));
    }
  }

  /** Only pushes of an edge bring its wires to the bus, and its buffers hold its own. */
  lemma {:induction false} QuietArrivals(cfg: Setup, reg: Registry, w: World, step: Step, peer: string)
    requires Enabled(cfg, reg, w, step) && OwnWires(peer, EdgeOf(w, peer)) && !Moves(step, peer)
    requires step.Push? ==> OwnWires(step.peer, EdgeOf(w, step.peer))
    ensures OwnWires(peer, EdgeOf(Next(cfg, w, step), peer))
    ensures forall x :: Of(peer, x) ==> (x in Next(cfg, w, step).arrivals <==> x in w.arrivals)
  {
    if step.Push? {
      var g := EdgeOf(w, step.peer);
      assert g.sending[g.request.value.sent] in g.sending;
    }
  }

  lemma {:induction false} EndsTrue(cfg: Setup, w: World, step: Step)
    requires step.Answer? || step.Lose? || step.GiveUp?
    requires TrueToBus(w, step.peer) && TidyEdge(EdgeOf(w, step.peer))
    ensures TrueToBus(Next(cfg, w, step), step.peer)
  {
    if step.Answer? {
      RepliedTrue(cfg, w, Next(cfg, w, step), step.peer, step.seen);
    } else if step.Lose? {
      RepliedTrue(cfg, w, Next(cfg, w, step), step.peer, Client.NoReply);
    } else {
      SettledTrue(w, Next(cfg, w, step), step.peer, Err(Client.RetriesExhausted(0, 0, None)));
    }
  }

  lemma {:induction false} StepTrue(cfg: Setup, reg: Registry, w: World, step: Step, peer: string)
    requires Enabled(cfg, reg, w, step) && TidyWorld(w) && forall p :: TrueToBus(w, p)
    ensures TrueToBus(Next(cfg, w, step), peer)
  {
    assert TrueToBus(w, peer) && TidyEdge(EdgeOf(w, peer));
    if !Moves(step, peer) {
      assert step.Push? ==> TrueToBus(w, step.peer);
      QuietEdge(cfg, reg, w, step, peer);
      QuietArrivals(cfg, reg, w, step, peer);
      UntouchedTrue(w, Next(cfg, w, step), peer);
    } else if step.Push? {
      PushTrue(cfg, reg, w, step, peer);
    } else {
      EndsTrue(cfg, w, step);
    }
  }

  /** In every run, an edge's event was put on the hub's bus if and only if it lies in the reached
      part of a batch: the totals above count real arrivals. */
  lemma {:induction false} ReachedMeansArrived(cfg: Setup, reg: Registry, steps: seq<Step>, peer: string)
    requires Legal(cfg, reg, steps)
    ensures TrueToBus(Exec(cfg, steps), peer)
  {
    if |steps| == 0 {
    } else {
      var init := steps[..|steps| - 1];
      forall p ensures TrueToBus(Exec(cfg, init), p) {
        ReachedMeansArrived(cfg, reg, init, p);
      }
      RunsTidy(cfg, reg, init);
      StepTrue(cfg, reg, Exec(cfg, init), steps[|steps| - 1], peer);
    }
  }

  /** So when a client is told that its batch was accepted, every event of it is on the hub's bus or has
      been. */
  lemma {:induction false} AcceptedMeansArrived(cfg: Setup, reg: Registry, steps: seq<Step>, step: Step)
    requires Legal(cfg, reg, steps) && step.Answer? && Enabled(cfg, reg, Exec(cfg, steps), step)
    requires Client.Verdict(cfg.client, EdgeOf(Exec(cfg, steps), step.peer).attempt, step.seen).Ok?
    ensures forall x :: x in EdgeOf(Exec(cfg, steps), step.peer).sending ==> x in Exec(cfg, steps).arrivals
  {
    var w := Exec(cfg, steps);
    var g := EdgeOf(w, step.peer);
    SuccessMeansEnqueued(cfg, reg, w, step);
    RunsTidy(cfg, reg, steps);
    ReachedMeansArrived(cfg, reg, steps, step.peer);
    assert TidyEdge(g) && g.sending[..g.reached] == g.sending;
  }

  // ----- the over-count is real -----

  const OPEN_GATE: Ingest.Gate := Ingest.Gate(None, (s, k) => true, j => 0, 0, None)

  const BUS_FULL: Client.Reply := Ingest.Shed(Client.ShedBusFull, Some(100))

  /** Whenever a last attempt stands at a full bus, the hub may answer so: the batch then counts as
      dropped, with all that was enqueued of it on the bus. */
  lemma {:induction false} LastAttemptCanSplit(cfg: Setup, reg: Registry, w: World, peer: string)
    requires var g := EdgeOf(w, peer);
             g.request.Some? && g.request.value.sent < |g.sending| && g.attempt + 1 == cfg.client.maxAttempts &&
             Ingest.Passes(g.request.value.gate, Items(g.sending)) && |w.bus| >= cfg.busDepth
    ensures var g, step := EdgeOf(w, peer), Answer(peer, Ingest.Full, BUS_FULL, BUS_FULL);
            Enabled(cfg, reg, w, step) &&
            EdgeOf(Next(cfg, w, step), peer) == Settle(g, Client.Verdict(cfg.client, g.attempt, BUS_FULL)) &&
            Client.Verdict(cfg.client, g.attempt, BUS_FULL).Err?
  {
    var g := EdgeOf(w, peer);
    assert Ingest.PrefixSent(Tried(g.request.value.sent, Ingest.Full), |g.sending|, g.request.value.sent);
  }

  /** Two events, one attempt, room for one. */
  function SplitRun(peer: string, a: Event, b: Event): seq<Step> {
    [Emit(peer, a), Emit(peer, b), Flush(peer), Begin(peer, OPEN_GATE), Push(peer),
     Answer(peer, Ingest.Full, BUS_FULL, BUS_FULL)]
  }

  function WireOf(peer: string, e: Event): Wire {
    Tagged(ToClientEvent(peer, e), Some(Origin(peer, e)))
  }

  /** The edge after n steps of it. */
  function SplitEdge(peer: string, a: Event, b: Event, n: nat): Edge {
    var x, y := WireOf(peer, a), WireOf(peer, b);
    if n == 0 then Edge([], [], 0, None, 0, [])
    else if n == 1 then Edge([x], [], 0, None, 0, [])
    else if n == 2 then Edge([x, y], [], 0, None, 0, [])
    else if n == 3 then Edge([], [x, y], 0, None, 0, [])
    else if n == 4 then Edge([], [x, y], 0, Some(Request(OPEN_GATE, 0)), 0, [])
    else if n == 5 then Edge([], [x, y], 0, Some(Request(OPEN_GATE, 1)), 1, [])
    else Edge([], [], 0, None, 0, [Shipment([x, y], Err(Client.BadRequest(429, "bus_full")), 1)])
  }

  const TIGHT: Setup := Setup(Client.Config(1, 1000, 1000), 1, 1)

  ghost predicate SplitReg(reg: Registry, peer: string, a: Event, b: Event) {
    a.id in reg && reg[a.id] == Origin(peer, a) && b.id in reg && reg[b.id] == Origin(peer, b)
  }

  ghost predicate SplitAt(peer: string, a: Event, b: Event, w: World, n: nat) {
    EdgeOf(w, peer) == SplitEdge(peer, a, b, n) && w.bus == if n <= 4 then [] else [WireOf(peer, a)]
  }

  lemma {:induction false} SplitStep(reg: Registry, peer: string, a: Event, b: Event, w: World, n: nat)
    requires SplitReg(reg, peer, a, b) && n < 5 && SplitAt(peer, a, b, w, n)
    ensures Enabled(TIGHT, reg, w, SplitRun(peer, a, b)[n])
    ensures SplitAt(peer, a, b, Next(TIGHT, w, SplitRun(peer, a, b)[n]), n + 1)
  {
  }

  lemma {:induction false} SplitEnds(reg: Registry, peer: string, a: Event, b: Event, w: World)
    requires SplitAt(peer, a, b, w, 5)
    ensures Enabled(TIGHT, reg, w, SplitRun(peer, a, b)[5])
    ensures SplitAt(peer, a, b, Next(TIGHT, w, SplitRun(peer, a, b)[5]), 6)
  {
    LastAttemptCanSplit(TIGHT, reg, w, peer);
  }

  lemma {:induction false} SplitOneOn(reg: Registry, peer: string, a: Event, b: Event, n: nat)
    requires SplitReg(reg, peer, a, b) && n < 6
    requires Legal(TIGHT, reg, SplitRun(peer, a, b)[..n])
    requires SplitAt(peer, a, b, Exec(TIGHT, SplitRun(peer, a, b)[..n]), n)
    ensures Legal(TIGHT, reg, SplitRun(peer, a, b)[..n + 1])
    ensures SplitAt(peer, a, b, Exec(TIGHT, SplitRun(peer, a, b)[..n + 1]), n + 1)
  {
    var run := SplitRun(peer, a, b);
    var w := Exec(TIGHT, run[..n]);
    if n == 5 {
      SplitEnds(reg, peer, a, b, w);
    } else {
      SplitStep(reg, peer, a, b, w, n);
    }
    OneStepOn(TIGHT, reg, run, n);
  }

  lemma {:induction false} OneStepOn(cfg: Setup, reg: Registry, run: seq<Step>, n: nat)
    requires n < |run| && Legal(cfg, reg, run[..n]) && Enabled(cfg, reg, Exec(cfg, run[..n]), run[n])
    ensures Legal(cfg, reg, run[..n + 1]) && Exec(cfg, run[..n + 1]) == Next(cfg, Exec(cfg, run[..n]), run[n])
  {
    assert run[..n + 1][..n] == run[..n];
  }

  lemma {:induction false} SplitRuns(reg: Registry, peer: string, a: Event, b: Event, n: nat)
    requires SplitReg(reg, peer, a, b) && n <= 6
    ensures Legal(TIGHT, reg, SplitRun(peer, a, b)[..n])
    ensures SplitAt(peer, a, b, Exec(TIGHT, SplitRun(peer, a, b)[..n]), n)
  {
    if n == 0 {
    } else {
      SplitRuns(reg, peer, a, b, n - 1);
      SplitOneOn(reg, peer, a, b, n - 1);
    }
  }

  lemma {:induction false} SplitRunEnds(reg: Registry, peer: string, a: Event, b: Event)
    requires SplitReg(reg, peer, a, b)
    ensures Legal(TIGHT, reg, SplitRun(peer, a, b)) && SplitAt(peer, a, b, Exec(TIGHT, SplitRun(peer, a, b)), 6)
  {
    SplitRuns(reg, peer, a, b, 6);
    assert SplitRun(peer, a, b)[..6] == SplitRun(peer, a, b);
  }

  /** Such a run exists from the very start: two events are counted as dropped, one of them is on the
      hub's bus. */
  lemma {:induction false} OvercountHappens(reg: Registry, peer: string, a: Event, b: Event)
    requires SplitReg(reg, peer, a, b)
    ensures Legal(TIGHT, reg, SplitRun(peer, a, b))
    ensures Exec(TIGHT, SplitRun(peer, a, b)).bus == [WireOf(peer, a)]
    ensures var log := EdgeOf(Exec(TIGHT, SplitRun(peer, a, b)), peer).log;
            Dropped(Entries(log)) == 2 && Missing(log) == 1
  {
    SplitRunEnds(reg, peer, a, b);
    SplitCounts(peer, a, b, Exec(TIGHT, SplitRun(peer, a, b)));
  }

  lemma {:induction false} SplitCounts(peer: string, a: Event, b: Event, w: World)
    requires SplitAt(peer, a, b, w, 6)
    ensures Dropped(Entries(EdgeOf(w, peer).log)) == 2 && Missing(EdgeOf(w, peer).log) == 1
    ensures w.bus == [WireOf(peer, a)]
  {
    OneFailure(Shipment([WireOf(peer, a), WireOf(peer, b)], Err(Client.BadRequest(429, "bus_full")), 1));
  }

  lemma {:induction false} OneFailure(s: Shipment)
    requires s.outcome.Err?
    ensures Dropped(Entries([s])) == |s.batch| && Missing([s]) == |s.batch| - s.reached
  {
    assert [s][..0] == [] && Entries([]) == [];
    EntriesSnoc([s]);
  }
}
