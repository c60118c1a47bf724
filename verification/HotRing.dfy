/** The in-memory hot rings: eviction on push, against a window over everything ever pushed. */
module HotRing {
  import opened Prelude
  import opened Events

  /** Ages in milliseconds. */
  datatype Config = Config(maxEvents: nat, maxAgeMs: nat)

  /** Age is measured from ingest time, or event time if there is none. */
  function AgeRef(e: Event): int {
    UnwrapOr(e.ingestTs, e.ts)
  }

  function Cutoff(cfg: Config, now: int): int {
    ClampI64(now - Min(cfg.maxAgeMs, I64_MAX))
  }

  /** Pop from the front until the length fits. */
  function Trim(q: seq<Event>, maxEvents: nat): seq<Event> {
    if |q| <= maxEvents then q else q[|q| - maxEvents..]
  }

  /** Then pop from the front while the front is too old. */
  function Expire(q: seq<Event>, cutoff: int): seq<Event> {
    if q == [] || AgeRef(q[0]) >= cutoff then q else Expire(q[1..], cutoff)
  }

  function Pushed(cfg: Config, ring: seq<Event>, e: Event, now: int): seq<Event> {
    Expire(Trim(ring + [e], cfg.maxEvents), Cutoff(cfg, now))
  }

  class HotRings {
    const cfg: Config
    var rings: map<Pair, seq<Event>>

    constructor (cfg: Config)
      ensures this.cfg == cfg && rings == map[]
    {
      this.cfg := cfg;
      rings := map[];
    }

    function Ring(p: Pair): seq<Event>
      reads this
    {
      if p in rings then rings[p] else []
    }

    /** `now` is the clock reading. */
    method Push(e: Event, now: int) returns (evicted: nat)
      modifies this
      ensures rings == old(rings)[PairOf(e) := Pushed(cfg, old(Ring(PairOf(e))), e, now)]
      ensures |Ring(PairOf(e))| + evicted == |old(Ring(PairOf(e)))| + 1
    {
      var p := PairOf(e);
      if p !in rings {
        rings := rings[p := []];
      }
      var q := rings[p] + [e];
      evicted := 0;
      ghost var full := q;
      while |q| > cfg.maxEvents
        invariant Trim(q, cfg.maxEvents) == Trim(full, cfg.maxEvents)
        invariant |q| + evicted == |full|
        decreases |q|
      {
        assert q[1..][|q| - 1 - cfg.maxEvents..] == q[|q| - cfg.maxEvents..];
        assert |q| - 1 == cfg.maxEvents ==> q[1..] == q[|q| - cfg.maxEvents..];
        q := q[1..];
        evicted := evicted + 1;
      }
      var cutoff := Cutoff(cfg, now);
      while q != [] && AgeRef(q[0]) < cutoff
        invariant Expire(q, cutoff) == Expire(Trim(full, cfg.maxEvents), cutoff)
        invariant |q| + evicted == |full|
        decreases |q|
      {
        q := q[1..];
        evicted := evicted + 1;
      }
      rings := rings[p := q];
    }

    method Latest(source: string, kind: string) returns (e: Option<Event>)
      ensures var q := Ring(Pair(source, kind)); e == if q == [] then None else Some(q[|q| - 1])
    {
      if Pair(source, kind) in rings && rings[Pair(source, kind)] != [] {
        var q := rings[Pair(source, kind)];
        e := Some(q[|q| - 1]);
      } else {
        e := None;
      }
    }

    method Snapshot(source: string, kind: string) returns (events: seq<Event>)
      ensures events == Ring(Pair(source, kind))
    {
      events := if Pair(source, kind) in rings then rings[Pair(source, kind)] else [];
    }
  }

  // ----- what it means to be fresh -----

  /** When the entry came in, or happened if that is not known. */
  ghost function Born(e: Event): int {
    match e.ingestTs
    case Some(t) => t
    case None => e.ts
  }

  /** No older than the configured age, which counts for at most the top of the 64-bit scale. */
  ghost predicate FreshAt(cfg: Config, e: Event, now: int) {
    now - Born(e) <= cfg.maxAgeMs && now - Born(e) <= I64_MAX
  }

  /** Times are 64-bit numbers. */
  ghost predicate Timed(e: Event) {
    IsI64(Born(e))
  }

  ghost predicate AllTimed(q: seq<Event>) {
    forall i :: 0 <= i < |q| ==> Timed(q[i])
  }

  /** Comparing with the saturated cutoff decides exactly that. */
  lemma {:induction false} CutoffIsAge(cfg: Config, e: Event, now: int)
    requires IsI64(now) && Timed(e)
    ensures AgeRef(e) >= Cutoff(cfg, now) <==> FreshAt(cfg, e, now)
  {
  }

  // ----- one pair's whole push history -----

  datatype Push = Push(event: Event, now: int)

  function Replay(cfg: Config, h: seq<Push>): seq<Event> {
    if h == [] then []
    else Pushed(cfg, Replay(cfg, h[..|h| - 1]), h[|h| - 1].event, h[|h| - 1].now)
  }

  function EventsOf(h: seq<Push>): (r: seq<Event>)
    ensures |r| == |h| && forall i :: 0 <= i < |h| ==> r[i] == h[i].event
  {
    if h == [] then [] else EventsOf(h[..|h| - 1]) + [h[|h| - 1].event]
  }

  ghost predicate Clocked(h: seq<Push>) {
    forall i :: 0 <= i < |h| ==> IsI64(h[i].now) && Timed(h[i].event)
  }

  /** From position i on, the history fits the ring: few enough, and none too old. */
  ghost predicate Fits(cfg: Config, h: seq<Push>, i: nat)
    requires h != [] && i <= |h|
  {
    |h| - i <= cfg.maxEvents &&
    forall j :: i <= j < |h| ==> FreshAt(cfg, h[j].event, h[|h| - 1].now)
  }

  /** i starts the longest suffix that fits. */
  ghost predicate LongestFit(cfg: Config, h: seq<Push>, i: nat)
    requires h != []
  {
    i <= |h| && Fits(cfg, h, i) && forall k: nat :: k < i ==> !Fits(cfg, h, k)
  }

  ghost predicate Monotone(h: seq<Push>) {
    forall i, j :: 0 <= i < j < |h| ==> h[i].now <= h[j].now && Born(h[i].event) <= Born(h[j].event)
  }

  lemma {:induction false} ExpireSuffix(q: seq<Event>, cutoff: int)
    ensures |Expire(q, cutoff)| <= |q| && Expire(q, cutoff) == q[|q| - |Expire(q, cutoff)|..]
    ensures Expire(q, cutoff) != [] ==> AgeRef(Expire(q, cutoff)[0]) >= cutoff
    ensures forall i :: 0 <= i < |q| - |Expire(q, cutoff)| ==> AgeRef(q[i]) < cutoff
  {
    if q != [] && AgeRef(q[0]) < cutoff {
      ExpireSuffix(q[1..], cutoff);
      forall i | 0 <= i < |q| - |Expire(q, cutoff)| ensures AgeRef(q[i]) < cutoff {
        assert 0 < i ==> q[i] == q[1..][i - 1];
      }
    }
  }

  /** One push leaves a suffix, short enough, with a fresh front ... */
  lemma {:induction false} PushedShape(cfg: Config, ring: seq<Event>, e: Event, now: int)
    ensures var q, r := ring + [e], Pushed(cfg, ring, e, now);
            Newest(q, r) && |r| <= cfg.maxEvents && (r != [] && IsI64(now) && Timed(r[0]) ==> FreshAt(cfg, r[0], now))
  {
    var q := ring + [e];
    var t := Trim(q, cfg.maxEvents);
    var r := Expire(t, Cutoff(cfg, now));
    ExpireSuffix(t, Cutoff(cfg, now));
    SuffixOfSuffix(q, t, r);
    if r != [] && IsI64(now) && Timed(r[0]) {
      CutoffIsAge(cfg, r[0], now);
    }
  }

  /** ... and what it dropped was surplus or too old. */
  lemma {:induction false} PushedDropped(cfg: Config, ring: seq<Event>, e: Event, now: int, i: nat)
    requires i < |ring + [e]| - |Pushed(cfg, ring, e, now)| && IsI64(now) && Timed((ring + [e])[i])
    ensures |ring + [e]| - i > cfg.maxEvents || !FreshAt(cfg, (ring + [e])[i], now)
  {
    var q := ring + [e];
    var t := Trim(q, cfg.maxEvents);
    ExpireSuffix(t, Cutoff(cfg, now));
    if i >= |q| - |t| {
      assert q[i] == t[i - (|q| - |t|)];
      CutoffIsAge(cfg, q[i], now);
    }
  }

  /** The ring holds the newest of everything pushed. */
  ghost predicate Newest(all: seq<Event>, ring: seq<Event>) {
    |ring| <= |all| && ring == all[|all| - |ring|..]
  }

  lemma {:induction false} SuffixOfSuffix(all: seq<Event>, q: seq<Event>, r: seq<Event>)
    requires Newest(all, q) && Newest(q, r)
    ensures Newest(all, r)
  {
  }

  lemma {:induction false} SuffixSnoc(all: seq<Event>, q: seq<Event>, e: Event)
    requires Newest(all, q)
    ensures Newest(all + [e], q + [e])
  {
  }

  lemma {:induction false} PushedStaysSuffix(cfg: Config, all: seq<Event>, ring: seq<Event>, e: Event, now: int)
    requires Newest(all, ring)
    ensures Newest(all + [e], Pushed(cfg, ring, e, now))
  {
    PushedShape(cfg, ring, e, now);
    SuffixSnoc(all, ring, e);
    SuffixOfSuffix(all + [e], ring + [e], Pushed(cfg, ring, e, now));
  }

  lemma {:induction false} ReplayIsSuffix(cfg: Config, h: seq<Push>)
    ensures Newest(EventsOf(h), Replay(cfg, h))
  {
    if h == [] {
    } else {
      ReplayIsSuffix(cfg, h[..|h| - 1]);
      PushedStaysSuffix(cfg, EventsOf(h[..|h| - 1]), Replay(cfg, h[..|h| - 1]), h[|h| - 1].event, h[|h| - 1].now);
    }
  }

  /** Whatever the clocks do: the ring is a suffix of its history, short enough, with a fresh front. */
  lemma {:induction false} RingIsSuffix(cfg: Config, h: seq<Push>)
    ensures |Replay(cfg, h)| <= |h| && Replay(cfg, h) == EventsOf(h)[|h| - |Replay(cfg, h)|..]
    ensures h != [] ==> |Replay(cfg, h)| <= cfg.maxEvents
    ensures Clocked(h) && Replay(cfg, h) != [] ==> FreshAt(cfg, Replay(cfg, h)[0], h[|h| - 1].now)
  {
    ReplayIsSuffix(cfg, h);
    if h != [] {
      assert Replay(cfg, h) != [] ==> Replay(cfg, h)[0] == h[|h| - |Replay(cfg, h)|].event;
      PushedShape(cfg, Replay(cfg, h[..|h| - 1]), h[|h| - 1].event, h[|h| - 1].now);
    }
  }

  /** Entries already dropped stay unfit as clocks advance. */
  lemma {:induction false} DroppedStaysUnfit(cfg: Config, h: seq<Push>, k: nat)
    requires Monotone(h) && |h| >= 2 && k < |h| - 1
    requires |h| - 1 - k > cfg.maxEvents || !FreshAt(cfg, h[k].event, h[|h| - 2].now)
    ensures |h| - k > cfg.maxEvents || !FreshAt(cfg, h[k].event, h[|h| - 1].now)
  {
    assert h[|h| - 2].now <= h[|h| - 1].now;
  }

  /** An entry a push has just dropped, by its place in the history. */
  lemma {:induction false} JustDropped(cfg: Config, all: seq<Event>, ring: seq<Event>, e: Event, now: int, k: nat)
    requires Newest(all, ring) && IsI64(now) && k <= |all| && Timed((all + [e])[k])
    requires |all| - |ring| <= k < |all + [e]| - |Pushed(cfg, ring, e, now)|
    ensures |all + [e]| - k > cfg.maxEvents || !FreshAt(cfg, (all + [e])[k], now)
  {
    var i := k - (|all| - |ring|);
    SuffixSnoc(all, ring, e);
    assert (ring + [e])[i] == (all + [e])[k];
    PushedDropped(cfg, ring, e, now, i);
  }

  lemma {:induction false} MonotonePrefix(h: seq<Push>)
    requires Monotone(h) && h != []
    ensures Monotone(h[..|h| - 1])
  {
  }

  /** Everything before the ring's start is surplus or too old, at the latest clock reading. */
  lemma {:induction false} DroppedIsUnfit(cfg: Config, h: seq<Push>, k: nat)
    requires Monotone(h) && Clocked(h) && h != [] && k < |h| - |Replay(cfg, h)|
    ensures |h| - k > cfg.maxEvents || !FreshAt(cfg, h[k].event, h[|h| - 1].now)
  {
    var init, last := h[..|h| - 1], h[|h| - 1];
    RingIsSuffix(cfg, init);
    var ring := Replay(cfg, init);
    if k < |init| - |ring| {
      MonotonePrefix(h);
      DroppedIsUnfit(cfg, init, k);
      DroppedStaysUnfit(cfg, h, k);
    } else {
      assert (EventsOf(init) + [last.event])[k] == EventsOf(h)[k] == h[k].event;
      JustDropped(cfg, EventsOf(init), ring, last.event, last.now, k);
    }
  }

  /** With clock and ingest times that never run backwards, the ring is exactly the longest
      suffix of its whole history that is short enough and fresh enough. */
  lemma {:induction false} RingIsLongestFit(cfg: Config, h: seq<Push>)
    requires Monotone(h) && Clocked(h) && h != []
    ensures |Replay(cfg, h)| <= |h|
    ensures LongestFit(cfg, h, |h| - |Replay(cfg, h)|)
    ensures Replay(cfg, h) == EventsOf(h)[|h| - |Replay(cfg, h)|..]
  {
    RingIsSuffix(cfg, h);
    var ring := Replay(cfg, h);
    var i := |h| - |ring|;
    forall j | i <= j < |h| ensures FreshAt(cfg, h[j].event, h[|h| - 1].now) {
      assert ring[0] == h[i].event;
    }
    forall k: nat | k < i ensures !Fits(cfg, h, k) {
      DroppedIsUnfit(cfg, h, k);
    }
  }

  // ----- all pairs at once -----

  /** The rings after a run of pushes to any pairs, as `HotRings.Push` updates them. */
  function ReplayAll(cfg: Config, h: seq<Push>): map<Pair, seq<Event>> {
    if h == [] then map[]
    else
      var rings := ReplayAll(cfg, h[..|h| - 1]);
      var p := PairOf(h[|h| - 1].event);
      rings[p := Pushed(cfg, if p in rings then rings[p] else [], h[|h| - 1].event, h[|h| - 1].now)]
  }

  function Only(h: seq<Push>, p: Pair): seq<Push> {
    if h == [] then []
    else if PairOf(h[|h| - 1].event) == p then Only(h[..|h| - 1], p) + [h[|h| - 1]]
    else Only(h[..|h| - 1], p)
  }

  /** A pair's ring depends on its own pushes alone. */
  lemma {:induction false} RingsAreIndependent(cfg: Config, h: seq<Push>, p: Pair)
    ensures (if p in ReplayAll(cfg, h) then ReplayAll(cfg, h)[p] else []) == Replay(cfg, Only(h, p))
  {
    if h == [] {
    } else {
      var init, last := h[..|h| - 1], h[|h| - 1];
      RingsAreIndependent(cfg, init, p);
      if PairOf(last.event) == p {
        var mine := Only(init, p) + [last];
        assert mine[..|mine| - 1] == Only(init, p);
      }
    }
  }

  /** The object itself, driven through a run of pushes. */
  method ReplayRings(cfg: Config, h: seq<Push>) returns (rings: HotRings)
    ensures fresh(rings) && rings.cfg == cfg && rings.rings == ReplayAll(cfg, h)
  {
    rings := new HotRings(cfg);
    for i := 0 to |h|
      invariant rings.cfg == cfg && rings.rings == ReplayAll(cfg, h[..i])
    {
      assert h[..i + 1][..i] == h[..i];
      var _ := rings.Push(h[i].event, h[i].now);
    }
    assert h[..|h|] == h;
  }

  method RingAfter(cfg: Config, h: seq<Push>, source: string, kind: string) returns (ring: seq<Event>)
    ensures ring == Replay(cfg, Only(h, Pair(source, kind)))
  {
    var rings := ReplayRings(cfg, h);
    RingsAreIndependent(cfg, h, Pair(source, kind));
    ring := rings.Snapshot(source, kind);
  }

  /** What a reader sees after a run: the newest of the pair's own pushes, at most `maxEvents` of
      them, and with monotone clocks all of those that fit. */
  method SnapshotAfter(cfg: Config, h: seq<Push>, source: string, kind: string) returns (events: seq<Event>)
    ensures var mine := Only(h, Pair(source, kind));
            |events| <= |mine| && |events| <= cfg.maxEvents && events == EventsOf(mine)[|mine| - |events|..]
    ensures var mine := Only(h, Pair(source, kind));
            mine != [] && Monotone(mine) && Clocked(mine) ==> LongestFit(cfg, mine, |mine| - |events|)
  {
    events := RingAfter(cfg, h, source, kind);
    RingWindow(cfg, Only(h, Pair(source, kind)), events);
  }

  lemma {:induction false} RingWindow(cfg: Config, h: seq<Push>, ring: seq<Event>)
    requires ring == Replay(cfg, h)
    ensures |ring| <= |h| && |ring| <= cfg.maxEvents && ring == EventsOf(h)[|h| - |ring|..]
    ensures h != [] && Monotone(h) && Clocked(h) ==> LongestFit(cfg, h, |h| - |ring|)
  {
    RingIsSuffix(cfg, h);
    if h != [] && Monotone(h) && Clocked(h) {
      RingIsLongestFit(cfg, h);
    }
  }

  /** The latest event is the pair's last push, if there is any; and a last push that is itself
      fresh is never missed. */
  method LatestAfter(cfg: Config, h: seq<Push>, source: string, kind: string) returns (e: Option<Event>)
    ensures var mine := Only(h, Pair(source, kind));
            e.Some? ==> mine != [] && e.value == mine[|mine| - 1].event
    ensures var mine := Only(h, Pair(source, kind));
            (mine != [] && cfg.maxEvents > 0 && Clocked(mine) &&
             FreshAt(cfg, mine[|mine| - 1].event, mine[|mine| - 1].now)) ==> e.Some?
  {
    var rings := ReplayRings(cfg, h);
    e := rings.Latest(source, kind);
    ghost var mine := Only(h, Pair(source, kind));
    RingsAreIndependent(cfg, h, Pair(source, kind));
    RingIsSuffix(cfg, mine);
    if mine != [] && cfg.maxEvents > 0 && Clocked(mine) && FreshAt(cfg, mine[|mine| - 1].event, mine[|mine| - 1].now) {
      FreshPushStays(cfg, Replay(cfg, mine[..|mine| - 1]), mine[|mine| - 1].event, mine[|mine| - 1].now);
    }
  }

  lemma {:induction false} FreshPushStays(cfg: Config, ring: seq<Event>, e: Event, now: int)
    requires cfg.maxEvents > 0 && IsI64(now) && Timed(e) && FreshAt(cfg, e, now)
    ensures Pushed(cfg, ring, e, now) != []
  {
    CutoffIsAge(cfg, e, now);
    LastIsKept(ring, e, cfg.maxEvents);
    LastStays(Trim(ring + [e], cfg.maxEvents), Cutoff(cfg, now));
  }

  lemma {:induction false} LastIsKept(ring: seq<Event>, e: Event, maxEvents: nat)
    requires maxEvents > 0
    ensures var t := Trim(ring + [e], maxEvents); t != [] && t[|t| - 1] == e
  {
    assert (ring + [e])[|ring|] == e;
  }

  lemma {:induction false} LastStays(q: seq<Event>, cutoff: int)
    requires q != [] && AgeRef(q[|q| - 1]) >= cutoff
    ensures Expire(q, cutoff) != []
  {
    if AgeRef(q[0]) < cutoff {
      LastStays(q[1..], cutoff);
    }
  }

  // ----- clocks that run backwards -----

  ghost predicate AllFresh(cfg: Config, q: seq<Event>, now: int) {
    forall i :: 0 <= i < |q| ==> FreshAt(cfg, q[i], now)
  }

  ghost predicate StaleBehindFresh(cfg: Config, q: seq<Event>, now: int) {
    exists i, j :: 0 <= i < j < |q| && FreshAt(cfg, q[i], now) && !FreshAt(cfg, q[j], now)
  }

  lemma {:induction false} ExpireByAge(cfg: Config, q: seq<Event>, now: int)
    requires IsI64(now) && AllTimed(q)
    ensures var r := Expire(q, Cutoff(cfg, now));
            |r| <= |q| && r == q[|q| - |r|..] && (r != [] ==> FreshAt(cfg, r[0], now)) &&
            forall i :: 0 <= i < |q| - |r| ==> !FreshAt(cfg, q[i], now)
  {
    ExpireSuffix(q, Cutoff(cfg, now));
    forall i | 0 <= i < |q| ensures AgeRef(q[i]) >= Cutoff(cfg, now) <==> FreshAt(cfg, q[i], now) {
      CutoffIsAge(cfg, q[i], now);
    }
  }

  lemma {:induction false} ExpireCleansExactlyWhen(cfg: Config, q: seq<Event>, now: int)
    requires IsI64(now) && AllTimed(q)
    ensures AllFresh(cfg, Expire(q, Cutoff(cfg, now)), now) <==> !StaleBehindFresh(cfg, q, now)
  {
    var r := Expire(q, Cutoff(cfg, now));
    var n := |q| - |r|;
    ExpireByAge(cfg, q, now);
    if !StaleBehindFresh(cfg, q, now) {
      forall i | 0 <= i < |r| ensures FreshAt(cfg, r[i], now) {
        assert r[0] == q[n] && r[i] == q[n + i];
      }
    }
    if AllFresh(cfg, r, now) {
      forall i, j | 0 <= i < j < |q| && FreshAt(cfg, q[i], now) ensures FreshAt(cfg, q[j], now) {
        assert n <= i && q[j] == r[j - n];
      }
    }
  }

  /** After a push every entry of the ring is fresh if and only if, among those that fit by number,
      no stale entry stands behind a fresh one. */
  lemma {:induction false} PushCleansExactlyWhen(cfg: Config, ring: seq<Event>, e: Event, now: int)
    requires IsI64(now) && AllTimed(ring + [e])
    ensures AllFresh(cfg, Pushed(cfg, ring, e, now), now)
            <==> !StaleBehindFresh(cfg, Trim(ring + [e], cfg.maxEvents), now)
  {
    ExpireCleansExactlyWhen(cfg, Trim(ring + [e], cfg.maxEvents), now);
  }

  /** While the clock stands within the configured age of the bottom of the scale, where the cutoff
      saturates, a push drops nothing but what is one too many. */
  lemma {:induction false} NothingExpiresAtTheBottom(cfg: Config, ring: seq<Event>, e: Event, now: int)
    requires IsI64(now) && AllTimed(ring + [e]) && now - cfg.maxAgeMs <= I64_MIN && now < 0
    ensures Pushed(cfg, ring, e, now) == Trim(ring + [e], cfg.maxEvents)
  {
    var q := Trim(ring + [e], cfg.maxEvents);
    ExpireByAge(cfg, q, now);
    assert q != [] ==> FreshAt(cfg, q[0], now);
  }

  lemma {:induction false} LongestByNeighbour(cfg: Config, h: seq<Push>, i: nat)
    requires h != [] && i <= |h|
    ensures LongestFit(cfg, h, i) <==> Fits(cfg, h, i) && (i == 0 || !Fits(cfg, h, i - 1))
  {
    if i > 0 && !Fits(cfg, h, i - 1) {
      forall k: nat | k < i ensures !Fits(cfg, h, k) {
        UnfitEarlier(cfg, h, k, i - 1);
      }
    }
  }

  lemma {:induction false} UnfitEarlier(cfg: Config, h: seq<Push>, k: nat, i: nat)
    requires h != [] && k <= i <= |h| && !Fits(cfg, h, i)
    ensures !Fits(cfg, h, k)
  {
  }

  lemma {:induction false} NeighbourFits(cfg: Config, h: seq<Push>, i: nat)
    requires h != [] && 0 < i <= |h| && Fits(cfg, h, i)
    ensures Fits(cfg, h, i - 1) <==>
              |h| - i < cfg.maxEvents && FreshAt(cfg, h[i - 1].event, h[|h| - 1].now)
  {
  }

  lemma {:induction false} SuffixFits(cfg: Config, h: seq<Push>, ring: seq<Event>)
    requires h != [] && |ring| <= |h| && |ring| <= cfg.maxEvents && ring == EventsOf(h)[|h| - |ring|..]
    ensures Fits(cfg, h, |h| - |ring|) <==> AllFresh(cfg, ring, h[|h| - 1].now)
  {
    var i := |h| - |ring|;
    assert forall j :: 0 <= j < |ring| ==> ring[j] == h[i + j].event;
    assert forall j :: i <= j < |h| ==> h[j].event == ring[j - i];
  }

  /** Whatever the clocks did, the ring is the longest fitting suffix of its history if and only if
      all its entries are fresh and the entry just before them, if any, is one too many or stale. */
  lemma {:induction false} LongestFitExactlyWhen(cfg: Config, h: seq<Push>)
    requires h != []
    ensures |Replay(cfg, h)| <= |h|
    ensures var i, now := |h| - |Replay(cfg, h)|, h[|h| - 1].now;
            LongestFit(cfg, h, i) <==>
              AllFresh(cfg, Replay(cfg, h), now) &&
              (i == 0 || |h| - i >= cfg.maxEvents || !FreshAt(cfg, h[i - 1].event, now))
  {
    RingIsSuffix(cfg, h);
    var i := |h| - |Replay(cfg, h)|;
    SuffixFits(cfg, h, Replay(cfg, h));
    LongestByNeighbour(cfg, h, i);
    if i > 0 && Fits(cfg, h, i) {
      NeighbourFits(cfg, h, i);
    }
  }

  function Sample(ingest: int): Event {
    Event(0, "s", "k", 0, "{}", None, None, Some(ingest), None, None, None)
  }

  /** Such a ring is reached: a stale entry pushed behind a fresh one survives. */
  lemma {:induction false} StaleEntryCanHide()
    ensures var cfg := Config(10, 5);
            var h := [Push(Sample(100), 100), Push(Sample(0), 100)];
            Replay(cfg, h) == [Sample(100), Sample(0)] && !FreshAt(cfg, Sample(0), 100)
  {
    var cfg := Config(10, 5);
    var a, b := Push(Sample(100), 100), Push(Sample(0), 100);
    var h := [a, b];
    assert h[..1] == [a] && [a][..0] == [];
    assert Replay(cfg, []) == [];
    assert [] + [Sample(100)] == [Sample(100)];
    assert Replay(cfg, [a]) == [Sample(100)];
  }
}
