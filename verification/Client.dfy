/** The producer client's retry loop, in its two implementations. */
module Client {
  import opened Prelude
  import opened Text

  datatype Config = Config(maxAttempts: nat, maxRetryAfterMs: nat, defaultRetryAfterMs: nat)

  /** The shed-reason header, by the value it names. */
  datatype ShedReason = ShedUnauthorized | ShedPayloadTooLarge | ShedRateLimit | ShedBusFull | ShedOther(text: string)

  /** What comes back from one attempt. `accepted` is the parsed success body. */
  datatype Reply =
    | NoReply
    | Reply(status: nat, shed: Option<ShedReason>, retryAfter: Option<string>, accepted: Option<nat>, body: string)

  datatype ClientError =
    | Network
    | Unauthorized
    | BadRequest(status: nat, body: string)
    | PayloadTooLarge
    | ScopeDeny
    | ServerError(status: nat, body: string)
    | RetriesExhausted(attempts: nat, lastStatus: nat, lastRetryAfterMs: Option<nat>)

  /** Result, the waits between attempts, and how many requests went out. */
  datatype Outcome = Outcome(result: Result<nat, ClientError>, waits: seq<nat>, requests: nat)

  /** Delta-seconds only. */
  function RetryAfterMs(header: Option<string>): Option<nat> {
    if header.None? then None
    else
      var n := ParseU64(Trim(header.value));
      if n.None? then None else Some(1000 * n.value)
  }

  predicate Overloaded(status: nat) {
    status == 429 || status == 503
  }

  predicate Hopeless(shed: Option<ShedReason>) {
    shed == Some(ShedUnauthorized) || shed == Some(ShedPayloadTooLarge)
  }

  /** Another attempt will be made after this reply. */
  predicate Retries(cfg: Config, attempt: nat, r: Reply) {
    r.Reply? && Overloaded(r.status) && attempt + 1 < cfg.maxAttempts && !Hopeless(r.shed)
  }

  function WaitMs(cfg: Config, r: Reply): nat
    requires r.Reply?
  {
    Min(UnwrapOr(RetryAfterMs(r.retryAfter), cfg.defaultRetryAfterMs), cfg.maxRetryAfterMs)
  }

  // In terms of status, shed reason and header.

  ghost predicate Sheds(r: Reply) {
    r.Reply? && (r.status == 429 || r.status == 503)
  }

  /** Another attempt is left, the server was busy, and not for a reason that will stay. */
  ghost predicate TriesAgain(cfg: Config, attempt: nat, r: Reply) {
    attempt + 1 < cfg.maxAttempts && Sheds(r) &&
    r.shed != Some(ShedUnauthorized) && r.shed != Some(ShedPayloadTooLarge)
  }

  /** The header names this many seconds; blanks around the number do not matter. */
  ghost predicate AsksFor(r: Reply, seconds: nat) {
    r.Reply? && r.retryAfter.Some? && seconds <= U64_MAX &&
    exists core :: Trimmed(r.retryAfter.value, core) && Denotes(core, seconds)
  }

  ghost predicate NamesNoTime(r: Reply) {
    forall seconds: nat :: !AsksFor(r, seconds)
  }

  /** The wait is what the header asks for, or else the default, but never beyond the cap. */
  ghost predicate WaitsFor(cfg: Config, r: Reply, wait: nat) {
    wait <= cfg.maxRetryAfterMs &&
    (forall s: nat :: AsksFor(r, s) ==> wait == 1000 * s || (wait == cfg.maxRetryAfterMs && 1000 * s > wait)) &&
    (NamesNoTime(r) ==>
      wait == cfg.defaultRetryAfterMs || (wait == cfg.maxRetryAfterMs && cfg.defaultRetryAfterMs > wait))
  }

  /** The one reply that leads to this result, when no further attempt follows. */
  ghost predicate LeadsTo(cfg: Config, attempt: nat, r: Reply, result: Result<nat, ClientError>) {
    match result
    case Ok(n) => r.Reply? && r.status == 200 && r.accepted == Some(n)
    case Err(Network) => r.NoReply? || (r.status == 200 && r.accepted.None?)
    case Err(Unauthorized) => r.Reply? && r.status == 401
    case Err(ScopeDeny) => Sheds(r) && r.shed == Some(ShedUnauthorized) && attempt + 1 < cfg.maxAttempts
    case Err(PayloadTooLarge) =>
      r.Reply? &&
      (r.status == 413 || (Sheds(r) && r.shed == Some(ShedPayloadTooLarge) && attempt + 1 < cfg.maxAttempts))
    case Err(BadRequest(status, body)) =>
      r.Reply? && r.status == status && r.body == body && 400 <= status <= 499 && status != 401 && status != 413 &&
      (status == 429 ==> attempt + 1 >= cfg.maxAttempts)
    case Err(ServerError(status, body)) =>
      r.Reply? && r.status == status && r.body == body && status != 200 && (status < 400 || status > 499) &&
      (status == 503 ==> attempt + 1 >= cfg.maxAttempts)
    case Err(RetriesExhausted(_, _, _)) => false
  }

  /** The reply to this attempt called for a retry, after this wait. */
  ghost predicate BacksOff(cfg: Config, attempt: nat, r: Reply, wait: nat) {
    TriesAgain(cfg, attempt, r) && WaitsFor(cfg, r, wait)
  }

  lemma {:induction false} HeaderRead(r: Reply, seconds: nat)
    requires r.Reply?
    ensures RetryAfterMs(r.retryAfter) == Some(1000 * seconds) <==> AsksFor(r, seconds)
  {
    if r.retryAfter.Some? {
      var core := Trim(r.retryAfter.value);
      TrimTrims(r.retryAfter.value);
      ParsesExactlyWhen(core, seconds);
      forall other | Trimmed(r.retryAfter.value, other) ensures other == core {
        TrimmedIsTrim(r.retryAfter.value, other);
      }
    }
  }

  /** A retry follows a reply, after this wait, exactly if the reply calls for it and the header, the
      default and the cap make it so. */
  lemma {:induction false} BacksOffExactlyWhen(cfg: Config, attempt: nat, r: Reply, wait: nat)
    ensures Retries(cfg, attempt, r) <==> TriesAgain(cfg, attempt, r)
    ensures r.Reply? ==> (WaitMs(cfg, r) == wait <==> WaitsFor(cfg, r, wait))
  {
    if r.Reply? {
      forall s: nat ensures RetryAfterMs(r.retryAfter) == Some(1000 * s) <==> AsksFor(r, s) {
        HeaderRead(r, s);
      }
      var ms := RetryAfterMs(r.retryAfter);
      if ms.Some? {
        var s := ParseU64(Trim(r.retryAfter.value)).value;
        assert ms == Some(1000 * s) && AsksFor(r, s);
      } else {
        assert NamesNoTime(r);
      }
    }
  }

  /** What the caller gets when this reply ends the exchange. */
  function Verdict(cfg: Config, attempt: nat, r: Reply): Result<nat, ClientError> {
    if r.NoReply? then Err(Network)
    else if r.status == 200 then (if r.accepted.Some? then Ok(r.accepted.value) else Err(Network))
    else if r.status == 401 then Err(Unauthorized)
    else if r.status == 413 then Err(PayloadTooLarge)
    else if Overloaded(r.status) && attempt + 1 < cfg.maxAttempts then
      Err(if r.shed == Some(ShedUnauthorized) then ScopeDeny else PayloadTooLarge)
    else if 400 <= r.status <= 499 then Err(BadRequest(r.status, r.body))
    else Err(ServerError(r.status, r.body))
  }

  /** Every result but exhaustion is read off the final reply: this one exactly for these replies. */
  lemma {:induction false} VerdictExactlyWhen(cfg: Config, attempt: nat, r: Reply, result: Result<nat, ClientError>)
    requires !TriesAgain(cfg, attempt, r)
    ensures Verdict(cfg, attempt, r) == result <==> LeadsTo(cfg, attempt, r, result)
  {
  }

  /** The exchange from a given attempt on; reply(i) answers attempt i. */
  function Exchange(cfg: Config, reply: nat -> Reply, attempt: nat): Outcome
    decreases cfg.maxAttempts - attempt
  {
    if attempt >= cfg.maxAttempts then Outcome(Err(RetriesExhausted(cfg.maxAttempts, 0, None)), [], 0)
    else
      var r := reply(attempt);
      if Retries(cfg, attempt, r) then
        var rest := Exchange(cfg, reply, attempt + 1);
        Outcome(rest.result, [WaitMs(cfg, r)] + rest.waits, rest.requests + 1)
      else Outcome(Verdict(cfg, attempt, r), [], 1)
  }

  /** Shape of a whole exchange seen so far. */
  ghost predicate SoFar(cfg: Config, reply: nat -> Reply, attempt: nat, waits: seq<nat>) {
    attempt <= cfg.maxAttempts &&
    var all, rest := Exchange(cfg, reply, 0), Exchange(cfg, reply, attempt);
    all.result == rest.result && all.waits == waits + rest.waits && all.requests == attempt + rest.requests
  }

  lemma {:induction false} OneMore(cfg: Config, reply: nat -> Reply, attempt: nat, waits: seq<nat>)
    requires SoFar(cfg, reply, attempt, waits) && attempt < cfg.maxAttempts && Retries(cfg, attempt, reply(attempt))
    ensures SoFar(cfg, reply, attempt + 1, waits + [WaitMs(cfg, reply(attempt))])
  {
    var rest := Exchange(cfg, reply, attempt + 1);
    assert waits + ([WaitMs(cfg, reply(attempt))] + rest.waits) == waits + [WaitMs(cfg, reply(attempt))] + rest.waits;
  }

  lemma {:induction false} LastOne(cfg: Config, reply: nat -> Reply, attempt: nat, waits: seq<nat>)
    requires SoFar(cfg, reply, attempt, waits) && attempt < cfg.maxAttempts && !Retries(cfg, attempt, reply(attempt))
    ensures Exchange(cfg, reply, 0) == Outcome(Verdict(cfg, attempt, reply(attempt)), waits, attempt + 1)
  {
    assert waits + [] == waits;
  }

  /** The async client's loop; its match tries 429/503 before 413. */
  method SendBatch<E>(cfg: Config, events: seq<E>, reply: nat -> Reply)
    returns (result: Result<nat, ClientError>, waits: seq<nat>, requests: nat)
    ensures events == [] ==> result == Ok(0) && waits == [] && requests == 0
    ensures events != [] ==> Outcome(result, waits, requests) == Exchange(cfg, reply, 0)
  {
    waits, requests := [], 0;
    if events == [] {
      return Ok(0), waits, requests;
    }
    var lastStatus := 0;
    var lastRetryAfter: Option<nat> := None;
    for attempt := 0 to cfg.maxAttempts
      invariant SoFar(cfg, reply, attempt, waits) && requests == attempt
      invariant cfg.maxAttempts == 0 ==> lastStatus == 0 && lastRetryAfter == None
      invariant attempt > 0 ==> attempt < cfg.maxAttempts
    {
      requests := requests + 1;
      var r := reply(attempt);
      if !Retries(cfg, attempt, r) {
        LastOne(cfg, reply, attempt, waits);
      }
      if r.NoReply? {
        return Err(Network), waits, requests;
      }
      lastStatus, lastRetryAfter := r.status, RetryAfterMs(r.retryAfter);
      if r.status == 200 {
        return if r.accepted.Some? then Ok(r.accepted.value) else Err(Network), waits, requests;
      } else if r.status == 401 {
        return Err(Unauthorized), waits, requests;
      } else if (r.status == 429 || r.status == 503) && attempt + 1 < cfg.maxAttempts {
        if r.shed == Some(ShedUnauthorized) {
          return Err(ScopeDeny), waits, requests;
        }
        if r.shed == Some(ShedPayloadTooLarge) {
          return Err(PayloadTooLarge), waits, requests;
        }
        var wait := Min(UnwrapOr(lastRetryAfter, cfg.defaultRetryAfterMs), cfg.maxRetryAfterMs);
        OneMore(cfg, reply, attempt, waits);
        waits := waits + [wait];
      } else if r.status == 413 {
        return Err(PayloadTooLarge), waits, requests;
      } else if 400 <= r.status <= 499 {
        return Err(BadRequest(r.status, r.body)), waits, requests;
      } else {
        return Err(ServerError(r.status, r.body)), waits, requests;
      }
    }
    return Err(RetriesExhausted(cfg.maxAttempts, lastStatus, lastRetryAfter)), waits, requests;
  }

  /** The blocking client's loop; its match tries 413 first. */
  method SendBatchBlocking<E>(cfg: Config, events: seq<E>, reply: nat -> Reply)
    returns (result: Result<nat, ClientError>, waits: seq<nat>, requests: nat)
    ensures events == [] ==> result == Ok(0) && waits == [] && requests == 0
    ensures events != [] ==> Outcome(result, waits, requests) == Exchange(cfg, reply, 0)
  {
    waits, requests := [], 0;
    if events == [] {
      return Ok(0), waits, requests;
    }
    var lastStatus := 0;
    var lastRetryAfter: Option<nat> := None;
    for attempt := 0 to cfg.maxAttempts
      invariant SoFar(cfg, reply, attempt, waits) && requests == attempt
      invariant cfg.maxAttempts == 0 ==> lastStatus == 0 && lastRetryAfter == None
      invariant attempt > 0 ==> attempt < cfg.maxAttempts
    {
      requests := requests + 1;
      var r := reply(attempt);
      if !Retries(cfg, attempt, r) {
        LastOne(cfg, reply, attempt, waits);
      }
      if r.NoReply? {
        return Err(Network), waits, requests;
      }
      lastStatus, lastRetryAfter := r.status, RetryAfterMs(r.retryAfter);
      if r.status == 200 {
        return if r.accepted.Some? then Ok(r.accepted.value) else Err(Network), waits, requests;
      } else if r.status == 401 {
        return Err(Unauthorized), waits, requests;
      } else if r.status == 413 {
        return Err(PayloadTooLarge), waits, requests;
      } else if (r.status == 429 || r.status == 503) && attempt + 1 < cfg.maxAttempts {
        if r.shed == Some(ShedUnauthorized) {
          return Err(ScopeDeny), waits, requests;
        }
        if r.shed == Some(ShedPayloadTooLarge) {
          return Err(PayloadTooLarge), waits, requests;
        }
        var wait := Min(UnwrapOr(lastRetryAfter, cfg.defaultRetryAfterMs), cfg.maxRetryAfterMs);
        OneMore(cfg, reply, attempt, waits);
        waits := waits + [wait];
      } else if 400 <= r.status <= 499 {
        return Err(BadRequest(r.status, r.body)), waits, requests;
      } else {
        return Err(ServerError(r.status, r.body)), waits, requests;
      }
    }
    return Err(RetriesExhausted(cfg.maxAttempts, lastStatus, lastRetryAfter)), waits, requests;
  }

  /** Each wait answers a reply that called for a retry. */
  ghost predicate AllBackOff(cfg: Config, reply: nat -> Reply, attempt: nat, waits: seq<nat>) {
    forall i :: 0 <= i < |waits| ==> BacksOff(cfg, attempt + i, reply(attempt + i), waits[i])
  }

  lemma {:induction false} BackOffFirst(cfg: Config, reply: nat -> Reply, attempt: nat, waits: seq<nat>)
    requires Retries(cfg, attempt, reply(attempt)) && AllBackOff(cfg, reply, attempt + 1, waits)
    ensures AllBackOff(cfg, reply, attempt, [WaitMs(cfg, reply(attempt))] + waits)
  {
    BacksOffExactlyWhen(cfg, attempt, reply(attempt), WaitMs(cfg, reply(attempt)));
    var all := [WaitMs(cfg, reply(attempt))] + waits;
    forall i | 0 <= i < |all| ensures BacksOff(cfg, attempt + i, reply(attempt + i), all[i]) {
      if i > 0 {
        assert BacksOff(cfg, attempt + 1 + (i - 1), reply(attempt + 1 + (i - 1)), waits[i - 1]);
      }
    }
  }

  /** The exchange ends at the first reply that does not call for a retry: one wait, capped,
      before each further request, never more requests than attempts, and a result read off the
      last reply. */
  lemma {:induction false} ExchangeStopsAtFirstVerdict(cfg: Config, reply: nat -> Reply, attempt: nat)
    requires attempt < cfg.maxAttempts
    ensures var o := Exchange(cfg, reply, attempt);
            1 <= o.requests <= cfg.maxAttempts - attempt && |o.waits| == o.requests - 1 &&
            AllBackOff(cfg, reply, attempt, o.waits) &&
            var last := attempt + o.requests - 1;
            !TriesAgain(cfg, last, reply(last)) && LeadsTo(cfg, last, reply(last), o.result)
    decreases cfg.maxAttempts - attempt
  {
    BacksOffExactlyWhen(cfg, attempt, reply(attempt), 0);
    if Retries(cfg, attempt, reply(attempt)) {
      ExchangeStopsAtFirstVerdict(cfg, reply, attempt + 1);
      BackOffFirst(cfg, reply, attempt, Exchange(cfg, reply, attempt + 1).waits);
    } else {
      VerdictExactlyWhen(cfg, attempt, reply(attempt), Verdict(cfg, attempt, reply(attempt)));
    }
  }

  /** A reply that reports success, with a count. */
  ghost predicate Succeeds(r: Reply, n: nat) {
    r.Reply? && r.status == 200 && r.accepted == Some(n)
  }

  /** Attempt i is answered with success, every earlier one with a call to retry. */
  ghost predicate SucceedsAt(cfg: Config, reply: nat -> Reply, attempt: nat, i: nat, n: nat) {
    attempt <= i < cfg.maxAttempts && Succeeds(reply(i), n) &&
    forall j: nat :: attempt <= j < i ==> TriesAgain(cfg, j, reply(j))
  }

  ghost predicate EverSucceeds(cfg: Config, reply: nat -> Reply, attempt: nat, n: nat) {
    exists i: nat :: SucceedsAt(cfg, reply, attempt, i, n)
  }

  lemma {:induction false} SucceedsLater(cfg: Config, reply: nat -> Reply, attempt: nat, n: nat)
    requires TriesAgain(cfg, attempt, reply(attempt))
    ensures EverSucceeds(cfg, reply, attempt, n) <==> EverSucceeds(cfg, reply, attempt + 1, n)
  {
    if EverSucceeds(cfg, reply, attempt + 1, n) {
      var i: nat :| SucceedsAt(cfg, reply, attempt + 1, i, n);
      assert SucceedsAt(cfg, reply, attempt, i, n);
    }
    if EverSucceeds(cfg, reply, attempt, n) {
      var i: nat :| SucceedsAt(cfg, reply, attempt, i, n);
      assert SucceedsAt(cfg, reply, attempt + 1, i, n);
    }
  }

  /** An exchange returns n if and only if some attempt is answered with success and count n, and
      every attempt before it was answered with a call to retry. */
  lemma {:induction false} OkExactlyWhen(cfg: Config, reply: nat -> Reply, attempt: nat, n: nat)
    ensures Exchange(cfg, reply, attempt).result == Ok(n) <==> EverSucceeds(cfg, reply, attempt, n)
    decreases cfg.maxAttempts - attempt
  {
    if attempt < cfg.maxAttempts {
      BacksOffExactlyWhen(cfg, attempt, reply(attempt), 0);
      if Retries(cfg, attempt, reply(attempt)) {
        OkExactlyWhen(cfg, reply, attempt + 1, n);
        SucceedsLater(cfg, reply, attempt, n);
      } else if Succeeds(reply(attempt), n) {
        assert SucceedsAt(cfg, reply, attempt, attempt, n);
      }
    }
  }

  /** `RetriesExhausted` is reached only when no attempt is configured: a last 429 or 503 leaves
      as a bad request or a server error, whatever the error's description says. */
  lemma {:induction false} ExhaustedOnlyWithoutAttempts(cfg: Config, reply: nat -> Reply)
    ensures var r := Exchange(cfg, reply, 0).result;
            r.Err? && r.error.RetriesExhausted? <==> cfg.maxAttempts == 0
  {
    if cfg.maxAttempts > 0 {
      ExchangeStopsAtFirstVerdict(cfg, reply, 0);
    }
  }
}
