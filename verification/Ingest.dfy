/** The ingest endpoint: whole-batch checks first, then events onto the bus one by one. */
module Ingest {
  import opened Prelude
  import opened Events
  import opened Client
  import opened Normalizer
  import Text

  /** One try_send; other tasks may drain or close the bus between two of them. */
  datatype SendResult = Queued | Full | Closed

  /** What the handler knows about the caller: the text that refuses its token, if it does, token scope,
      size estimate and caps, rate limit. */
  datatype Gate = Gate(
    refusal: Option<string>, allows: (string, string) -> bool, size: Json -> nat, hardCap: nat, rateWaitMs: Option<nat>)

  function ReasonText(reason: ShedReason): string {
    match reason
    case ShedUnauthorized => "unauthorized"
    case ShedPayloadTooLarge => "payload_too_large"
    case ShedRateLimit => "rate_limit"
    case ShedBusFull => "bus_full"
    case ShedOther(text) => text
  }

  function Shed(reason: ShedReason, retryMs: Option<nat>): Reply {
    Reply(429, Some(reason),
          if retryMs.Some? then Some(Text.Decimal(Max(1, retryMs.value / 1000))) else None, None, ReasonText(reason))
  }

  function Plain(status: nat, body: string): Reply {
    Reply(status, None, None, None, body)
  }

  function Success(accepted: nat): Reply {
    Reply(200, None, None, Some(accepted), "")
  }

  predicate Welcome(g: Gate, e: IngestEvent) {
    g.allows(e.source, e.kind) && g.size(e.semantic) <= g.hardCap
  }

  function Objection(g: Gate, e: IngestEvent): Reply {
    if !g.allows(e.source, e.kind) then Shed(ShedUnauthorized, None) else Shed(ShedPayloadTooLarge, None)
  }

  /** Event i is the first of the batch that is not welcome. */
  ghost predicate FirstUnwelcome(g: Gate, events: seq<IngestEvent>, i: nat) {
    i < |events| && !Welcome(g, events[i]) && forall j :: 0 <= j < i ==> Welcome(g, events[j])
  }

  ghost predicate AllWelcome(g: Gate, events: seq<IngestEvent>) {
    forall j :: 0 <= j < |events| ==> Welcome(g, events[j])
  }

  /** Length of the run of successful sends. */
  ghost predicate PrefixSent(send: nat -> SendResult, n: nat, k: nat) {
    k <= n && (forall i: nat :: i < k ==> send(i) == Queued) && (k < n ==> send(k) != Queued)
  }

  /** The reply to a batch that passed every check and of which the first k events were enqueued. */
  function AfterSending(send: nat -> SendResult, n: nat, k: nat): Reply {
    if k == n then Success(n) else if send(k) == Full then Shed(ShedBusFull, Some(100)) else Plain(503, "shutting down")
  }

  /** How the endpoint answers a request, and how many events, counted from the front, are on the
      bus afterwards. `payload` is the parsed body or what the parser says is wrong with it; any
      objection is to the whole batch, and then nothing is enqueued. */
  ghost predicate Answers(g: Gate, payload: Result<seq<IngestEvent>, string>, send: nat -> SendResult,
                          reply: Reply, enqueued: nat)
  {
    if g.refusal.Some? then reply == Plain(401, g.refusal.value) && enqueued == 0
    else if payload.Err? then reply == Plain(400, "invalid JSON: " + payload.error) && enqueued == 0
    else if payload.value == [] then reply == Plain(400, "no events in payload") && enqueued == 0
    else if !AllWelcome(g, payload.value) then
      enqueued == 0 && exists i: nat :: FirstUnwelcome(g, payload.value, i) && reply == Objection(g, payload.value[i])
    else if g.rateWaitMs.Some? then reply == Shed(ShedRateLimit, g.rateWaitMs) && enqueued == 0
    else PrefixSent(send, |payload.value|, enqueued) && reply == AfterSending(send, |payload.value|, enqueued)
  }

  method IngestBatch(g: Gate, payload: Result<seq<IngestEvent>, string>, send: nat -> SendResult)
    returns (reply: Reply, enqueued: nat)
    ensures Answers(g, payload, send, reply, enqueued)
  {
    enqueued := 0;
    if g.refusal.Some? {
      return Plain(401, g.refusal.value), 0;
    }
    if payload.Err? {
      return Plain(400, "invalid JSON: " + payload.error), 0;
    }
    var events := payload.value;
    if events == [] {
      return Plain(400, "no events in payload"), 0;
    }
    for i := 0 to |events|
      invariant forall j :: 0 <= j < i ==> Welcome(g, events[j])
    {
      if !Welcome(g, events[i]) {
        assert FirstUnwelcome(g, events, i);
        return Objection(g, events[i]), 0;
      }
    }
    if g.rateWaitMs.Some? {
      return Shed(ShedRateLimit, g.rateWaitMs), 0;
    }
    for i := 0 to |events|
      invariant enqueued == i && forall j: nat :: j < i ==> send(j) == Queued
    {
      match send(i)
      case Queued => enqueued := enqueued + 1;
      case Full => return Shed(ShedBusFull, Some(100)), enqueued;
      case Closed => return Plain(503, "shutting down"), enqueued;
    }
    reply := Success(enqueued);
  }

  // ----- what the client makes of it -----

  /** Another attempt follows after this wait. */
  ghost predicate Again(cfg: Config, attempt: nat, reply: Reply, wait: nat) {
    TriesAgain(cfg, attempt, reply) && WaitsFor(cfg, reply, wait)
  }

  ghost predicate Ends(cfg: Config, attempt: nat, reply: Reply, result: Result<nat, ClientError>) {
    !TriesAgain(cfg, attempt, reply) && LeadsTo(cfg, attempt, reply, result)
  }

  function Capped(cfg: Config, ms: nat): nat {
    if ms <= cfg.maxRetryAfterMs then ms else cfg.maxRetryAfterMs
  }

  ghost predicate OutOfScope(g: Gate, e: IngestEvent) {
    !g.allows(e.source, e.kind)
  }

  /** Event i is the first one the token does not cover or that is too large. */
  ghost predicate Objectionable(g: Gate, events: seq<IngestEvent>, i: nat) {
    i < |events| && (OutOfScope(g, events[i]) || g.size(events[i].semantic) > g.hardCap) &&
    forall j :: 0 <= j < i ==> !OutOfScope(g, events[j]) && g.size(events[j].semantic) <= g.hardCap
  }

  lemma {:induction false} ShedHeader(reason: ShedReason, ms: nat)
    requires Max(1, ms / 1000) <= Text.U64_MAX
    ensures AsksFor(Shed(reason, Some(ms)), Max(1, ms / 1000))
    ensures forall s: nat :: AsksFor(Shed(reason, Some(ms)), s) ==> s == Max(1, ms / 1000)
  {
    var r, n := Shed(reason, Some(ms)), Max(1, ms / 1000);
    Text.ParsePrinted(n);
    forall s: nat ensures AsksFor(r, s) <==> s == n {
      HeaderRead(r, s);
    }
  }

  /** The first objection decides, before the rate limit and the bus are asked: a scope or a size
      objection ends the exchange at once, except that on the last attempt it is told as a bad request. */
  lemma {:induction false} ObjectionAtClient(cfg: Config, attempt: nat, g: Gate, events: seq<IngestEvent>, i: nat,
                                             send: nat -> SendResult, reply: Reply, enqueued: nat)
    requires Answers(g, Ok(events), send, reply, enqueued) && g.refusal.None? && Objectionable(g, events, i)
    ensures enqueued == 0
    ensures if attempt + 1 < cfg.maxAttempts
            then Ends(cfg, attempt, reply, Err(if OutOfScope(g, events[i]) then ScopeDeny else PayloadTooLarge))
            else Ends(cfg, attempt, reply,
                      Err(BadRequest(429, if OutOfScope(g, events[i]) then "unauthorized" else "payload_too_large")))
  {
    assert !Welcome(g, events[i]) && forall j :: 0 <= j < i ==> Welcome(g, events[j]);
    var k: nat :| FirstUnwelcome(g, events, k) && reply == Objection(g, events[k]);
    assert !(k < i) && !(i < k);
  }

  /** A bad token, an unreadable or an empty batch ends the exchange; a rate limit or a full bus makes the
      client wait the seconds named and try again, a closed bus the default time, except on the last
      attempt; and the size of the batch is reported exactly if every send succeeded. */
  lemma {:induction false} AnswerAtClient(cfg: Config, attempt: nat, g: Gate,
                                          payload: Result<seq<IngestEvent>, string>, send: nat -> SendResult,
                                          reply: Reply, enqueued: nat)
    requires Answers(g, payload, send, reply, enqueued)
    requires g.rateWaitMs.Some? ==> g.rateWaitMs.value / 1000 <= Text.U64_MAX
    ensures g.refusal.Some? ==> enqueued == 0 && Ends(cfg, attempt, reply, Err(Unauthorized))
    ensures g.refusal.None? && payload.Err? ==>
              enqueued == 0 && Ends(cfg, attempt, reply, Err(BadRequest(400, "invalid JSON: " + payload.error)))
    ensures g.refusal.None? && payload == Ok([]) ==>
              enqueued == 0 && Ends(cfg, attempt, reply, Err(BadRequest(400, "no events in payload")))
    ensures g.refusal.None? && payload.Ok? && payload.value != [] && NothingObjectionable(g, payload.value) ==>
              if g.rateWaitMs.Some? then enqueued == 0 && TooFast(cfg, attempt, g.rateWaitMs.value, reply)
              else AfterTheBus(cfg, attempt, payload.value, send, reply, enqueued)
  {
    if g.refusal.None? && payload.Ok? && payload.value != [] && NothingObjectionable(g, payload.value) {
      NobodyUnwelcome(g, payload.value, |payload.value|);
      if g.rateWaitMs.Some? {
        ShedHeader(ShedRateLimit, g.rateWaitMs.value);
      } else {
        SendsAtClient(cfg, attempt, payload.value, send, enqueued);
      }
    }
  }

  ghost predicate NothingObjectionable(g: Gate, events: seq<IngestEvent>) {
    forall i: nat :: !Objectionable(g, events, i)
  }

  /** The caller is told to come back in so many milliseconds, in whole seconds and at least one. */
  ghost predicate TooFast(cfg: Config, attempt: nat, ms: nat, reply: Reply) {
    if attempt + 1 < cfg.maxAttempts then Again(cfg, attempt, reply, Capped(cfg, 1000 * Max(1, ms / 1000)))
    else Ends(cfg, attempt, reply, Err(BadRequest(429, "rate_limit")))
  }

  lemma {:induction false} SendsAtClient(cfg: Config, attempt: nat, events: seq<IngestEvent>, send: nat -> SendResult,
                                         k: nat)
    requires PrefixSent(send, |events|, k)
    ensures AfterTheBus(cfg, attempt, events, send, AfterSending(send, |events|, k), k)
  {
    ShedHeader(ShedBusFull, 100);
  }

  /** A batch no event of which is objected to: as far as the sends went, and why not further. */
  ghost predicate AfterTheBus(cfg: Config, attempt: nat, events: seq<IngestEvent>, send: nat -> SendResult,
                              reply: Reply, enqueued: nat)
  {
    enqueued <= |events| && (forall i: nat :: i < enqueued ==> send(i) == Queued) &&
    if enqueued == |events| then Ends(cfg, attempt, reply, Ok(|events|))
    else match send(enqueued)
      case Queued => false
      case Full =>
        if attempt + 1 < cfg.maxAttempts then Again(cfg, attempt, reply, Capped(cfg, 1000))
        else Ends(cfg, attempt, reply, Err(BadRequest(429, "bus_full")))
      case Closed =>
        if attempt + 1 < cfg.maxAttempts then Again(cfg, attempt, reply, Capped(cfg, cfg.defaultRetryAfterMs))
        else Ends(cfg, attempt, reply, Err(ServerError(503, "shutting down")))
  }

  lemma {:induction false} NobodyUnwelcome(g: Gate, events: seq<IngestEvent>, n: nat)
    requires n <= |events| && NothingObjectionable(g, events)
    ensures forall j :: 0 <= j < n ==> Welcome(g, events[j])
  {
    if n > 0 {
      NobodyUnwelcome(g, events, n - 1);
      assert forall j :: 0 <= j < n - 1 ==> Welcome(g, events[j]);
      assert !Objectionable(g, events, n - 1);
    }
  }

  /** The client understands the server's back-off: it waits what was asked for, up to its cap. */
  lemma {:induction false} BackoffUnderstood(cfg: Config, reason: ShedReason, retryMs: nat)
    requires Max(1, retryMs / 1000) <= Text.U64_MAX
    ensures WaitMs(cfg, Shed(reason, Some(retryMs))) == Min(1000 * Max(1, retryMs / 1000), cfg.maxRetryAfterMs)
  {
    Text.ParsePrinted(Max(1, retryMs / 1000));
  }

  /** Every check lets the batch through. */
  ghost predicate Passes(g: Gate, events: seq<IngestEvent>) {
    g.refusal.None? && events != [] && AllWelcome(g, events) && g.rateWaitMs.None?
  }

  /** Something of a batch is enqueued if and only if the checks let it through and the bus takes its
      first event. */
  lemma {:induction false} EnqueuesExactlyWhen(g: Gate, events: seq<IngestEvent>, send: nat -> SendResult,
                                               reply: Reply, enqueued: nat)
    requires Answers(g, Ok(events), send, reply, enqueued)
    ensures enqueued > 0 <==> Passes(g, events) && send(0) == Queued
  {
  }

  /** The endpoint answers 200 exactly when it has just enqueued the whole of a non-empty batch, and
      then reports its size; so what a producer is told was accepted is on the bus. */
  lemma {:induction false} SuccessExactlyWhenEnqueued(g: Gate, events: seq<IngestEvent>, send: nat -> SendResult,
                                                      reply: Reply, enqueued: nat)
    requires Answers(g, Ok(events), send, reply, enqueued)
    ensures reply.Reply? && enqueued <= |events|
    ensures reply.status == 200 <==> events != [] && enqueued == |events|
    ensures reply.status == 200 ==> reply.accepted == Some(|events|)
  {
  }
}
