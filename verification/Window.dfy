/** Time-window scans: one page of `get_window`, and whole scans that follow its cursors while
    the store changes underneath. */
module Window {
  import opened Prelude
  import opened Events
  import opened ColdTable
  import opened ColdHistory
  import opened Cursor

  const MAX_WINDOW_LIMIT: nat := 10_000

  /** What the code calls but does not define: whether a glob selects a text (LIKE is
      SQLite's), and the digest of a request's canonical byte string. */
  datatype Env = Env(like: (Bytes, string) -> bool, tag: Request -> Bytes)

  /** Among these requests, all of machine size, the digest tells canonical strings apart. */
  ghost predicate CollisionFree(env: Env, reqs: set<Request>) {
    forall a, b :: a in reqs && b in reqs ==>
      Machine(a) && Machine(b) && Short(a) && Short(b) && (env.tag(a) == env.tag(b) <==> Canonical(a) == Canonical(b))
  }

  /** No glob means no condition; several are alternatives. */
  predicate Selects(env: Env, globs: seq<Bytes>, text: string) {
    globs == [] || exists g :: g in globs && env.like(g, text)
  }

  predicate Matches(env: Env, r: Request, e: Event) {
    r.start <= e.ts < r.end &&
    Selects(env, Globs(r.sources), e.source) && Selects(env, Globs(r.kinds), e.kind)
  }

  predicate Beyond(anchor: Option<Key>, k: Key) {
    anchor.Some? ==> Before(anchor.value, k)
  }

  function MatchKeys(env: Env, t: Table, r: Request, anchor: Option<Key>): set<Key> {
    set id | id in t && Matches(env, r, t[id]) && Beyond(anchor, KeyOf(t[id])) :: KeyOf(t[id])
  }

  /** All matching keys beyond the anchor, in scan order. */
  function Ahead(env: Env, t: Table, r: Request, anchor: Option<Key>): seq<Key> {
    Sorted(MatchKeys(env, t, r, anchor))
  }

  function Take<T>(s: seq<T>, n: nat): seq<T> {
    if n <= |s| then s[..n] else s
  }

  // ----- what a request asks for, spelled out -----

  /** An absent or empty list leaves the name free; otherwise some glob in it must be like the name. */
  ghost predicate Chosen(env: Env, globs: Option<seq<Bytes>>, text: string) {
    globs.Some? && globs.value != [] ==> exists g :: g in globs.value && env.like(g, text)
  }

  ghost predicate Asked(env: Env, r: Request, e: Event) {
    r.start <= e.ts < r.end && Chosen(env, r.sources, e.source) && Chosen(env, r.kinds, e.kind)
  }

  ghost predicate Past(anchor: Option<Key>, k: Key) {
    anchor.Some? ==> anchor.value.ts < k.ts || (anchor.value.ts == k.ts && anchor.value.id < k.id)
  }

  lemma {:induction false} MatchesWhatIsAsked(env: Env, r: Request, e: Event)
    ensures Matches(env, r, e) <==> Asked(env, r, e)
  {
    assert Selects(env, Globs(r.sources), e.source) <==> Chosen(env, r.sources, e.source);
    assert Selects(env, Globs(r.kinds), e.kind) <==> Chosen(env, r.kinds, e.kind);
  }

  lemma {:induction false} AheadMember(env: Env, t: Table, r: Request, anchor: Option<Key>, k: Key)
    requires WellKeyed(t)
    ensures k in Ahead(env, t, r, anchor) <==>
              k.id in t && KeyOf(t[k.id]) == k && Asked(env, r, t[k.id]) && Past(anchor, k)
  {
    if k.id in t {
      MatchesWhatIsAsked(env, r, t[k.id]);
    }
  }

  function Fetch(t: Table, keys: seq<Key>): (rows: seq<Event>)
    requires forall k :: k in keys ==> k.id in t
    ensures |rows| == |keys| && forall i :: 0 <= i < |keys| ==> rows[i] == t[keys[i].id]
  {
    if keys == [] then []
    else
      assert keys[0] in keys;
      [t[keys[0].id]] + Fetch(t, keys[1..])
  }

  /** SELECT ... ORDER BY ts_ms_utc, event_id LIMIT ?. */
  function QueryWindow(env: Env, t: Table, r: Request, anchor: Option<Key>): seq<Event>
    requires WellKeyed(t)
  {
    var keys := Take(Ahead(env, t, r, anchor), Min(r.limit, MAX_WINDOW_LIMIT));
    assert forall k :: k in keys ==> k in Ahead(env, t, r, anchor);
    Fetch(t, keys)
  }

  datatype Args = Args(
    start: int, end: int, sources: Option<seq<Bytes>>, kinds: Option<seq<Bytes>>,
    limit: Option<nat>, cursor: Option<Wire>)

  datatype ToolError = NoColdStore | InvalidRange | CursorFilterMismatch | CursorMalformed

  datatype Page = Page(events: seq<Event>, cursor: Option<Wire>)

  function AsRequest(a: Args): Request {
    Request(a.start, a.end, a.sources, a.kinds, Min(UnwrapOr(a.limit, MAX_WINDOW_LIMIT), MAX_WINDOW_LIMIT))
  }

  predicate MachineArgs(a: Args) {
    IsI64(a.start) && IsI64(a.end)
  }

  function AnchorOf(cursor: Option<Wire>, hash: Bytes): Result<Option<Key>, CursorError> {
    if cursor.None? then Ok(None)
    else
      var d := Decode(cursor.value, hash);
      if d.Ok? then Ok(Some(d.value)) else Err(d.error)
  }

  /** A full page is followed by a cursor at its last row; a short one ends the scan. */
  function NextCursor(events: seq<Event>, limit: nat, hash: Bytes): Option<Wire> {
    if |events| >= limit && events != [] then Some(Encode(KeyOf(events[|events| - 1]), hash)) else None
  }

  function GetWindow(env: Env, store: Option<Table>, a: Args): Result<Page, ToolError>
    requires MachineArgs(a) && (store.Some? ==> WellKeyed(store.value))
  {
    if store.None? then Err(NoColdStore)
    else if a.end <= a.start then Err(InvalidRange)
    else
      var r := AsRequest(a);
      var hash := env.tag(r);
      var anchor := AnchorOf(a.cursor, hash);
      if anchor.Err? then
        Err(if anchor.error == FilterMismatch then CursorFilterMismatch else CursorMalformed)
      else
        var events := QueryWindow(env, store.value, r, anchor.value);
        Ok(Page(events, NextCursor(events, r.limit, hash)))
  }

  // ----- equivalent requests select the same rows -----

  lemma {:induction false} SameGlobs(env: Env, a: seq<Bytes>, b: seq<Bytes>, text: string)
    requires multiset(a) == multiset(b)
    ensures Selects(env, a, text) <==> Selects(env, b, text)
  {
    assert |a| == |multiset(a)| == |multiset(b)| == |b|;
    forall g | g in a ensures g in b { assert g in multiset(a); }
    forall g | g in b ensures g in a { assert g in multiset(b); }
  }

  lemma {:induction false} EquivalentSelectsSame(env: Env, a: Request, b: Request, e: Event)
    requires Equivalent(a, b)
    ensures Matches(env, a, e) <==> Matches(env, b, e)
  {
    SameGlobs(env, Globs(a.sources), Globs(b.sources), e.source);
    SameGlobs(env, Globs(a.kinds), Globs(b.kinds), e.kind);
  }

  lemma {:induction false} EquivalentScansSame(env: Env, t: Table, a: Request, b: Request, anchor: Option<Key>)
    requires WellKeyed(t) && Equivalent(a, b)
    ensures QueryWindow(env, t, a, anchor) == QueryWindow(env, t, b, anchor)
  {
    forall e ensures Matches(env, a, e) <==> Matches(env, b, e) {
      EquivalentSelectsSame(env, a, b, e);
    }
    assert MatchKeys(env, t, a, anchor) == MatchKeys(env, t, b, anchor);
  }

  // ----- one page -----

  /** Earlier in time, or as early with the smaller id. */
  ghost predicate Precedes(a: Event, b: Event) {
    a.ts < b.ts || (a.ts == b.ts && a.id < b.id)
  }

  ghost predicate InOrder(rows: seq<Event>) {
    forall i, j :: 0 <= i < j < |rows| ==> Precedes(rows[i], rows[j])
  }

  lemma {:induction false} AscendingInOrder(rows: seq<Event>)
    ensures Ascending(KeysOf(rows)) <==> InOrder(rows)
  {
    if Ascending(KeysOf(rows)) {
      forall i, j | 0 <= i < j < |rows| ensures Precedes(rows[i], rows[j]) {
        assert Before(KeysOf(rows)[i], KeysOf(rows)[j]);
      }
    }
  }

  function KeysOf(rows: seq<Event>): (q: seq<Key>)
    ensures |q| == |rows| && forall i :: 0 <= i < |rows| ==> q[i] == KeyOf(rows[i])
  {
    if rows == [] then [] else [KeyOf(rows[0])] + KeysOf(rows[1..])
  }

  /** A page holds the next rows in order: nothing at or before the anchor, nothing skipped. */
  ghost predicate GoodPage(env: Env, t: Table, r: Request, anchor: Option<Key>, page: seq<Event>) {
    InOrder(page) && |page| <= r.limit &&
    (forall e :: e in page ==> e.id in t && t[e.id] == e && Asked(env, r, e) && Past(anchor, KeyOf(e))) &&
    (forall id :: id in t && Asked(env, r, t[id]) && Past(anchor, KeyOf(t[id])) ==>
      t[id] in page || (|page| == r.limit && forall e :: e in page ==> Precedes(e, t[id])))
  }

  lemma {:induction false} TakePage(env: Env, t: Table, r: Request, anchor: Option<Key>, page: seq<Event>)
    requires WellKeyed(t) && r.limit <= MAX_WINDOW_LIMIT && page == QueryWindow(env, t, r, anchor)
    ensures KeysOf(page) == Take(Ahead(env, t, r, anchor), r.limit)
    ensures |page| == Min(r.limit, |Ahead(env, t, r, anchor)|)
    ensures forall i :: 0 <= i < |page| ==> page[i].id in t && page[i] == t[page[i].id]
  {
    var all := Ahead(env, t, r, anchor);
    forall i | 0 <= i < |page| ensures KeyOf(page[i]) == all[i] && page[i].id in t && page[i] == t[page[i].id] {
      assert all[i] in all;
      AheadMember(env, t, r, anchor, all[i]);
    }
  }

  /** Row i of the page is the i-th key ahead. */
  lemma {:induction false} PageRow(env: Env, t: Table, r: Request, anchor: Option<Key>, page: seq<Event>, i: nat)
    requires WellKeyed(t) && r.limit <= MAX_WINDOW_LIMIT && page == QueryWindow(env, t, r, anchor) && i < |page|
    ensures |page| <= |Ahead(env, t, r, anchor)| && KeyOf(page[i]) == Ahead(env, t, r, anchor)[i]
    ensures page[i].id in t && t[page[i].id] == page[i]
    ensures Asked(env, r, page[i]) && Past(anchor, KeyOf(page[i]))
  {
    var all := Ahead(env, t, r, anchor);
    TakePage(env, t, r, anchor, page);
    assert KeysOf(page)[i] == all[i] && all[i] in all;
    AheadMember(env, t, r, anchor, all[i]);
  }

  lemma {:induction false} PageAscends(env: Env, t: Table, r: Request, anchor: Option<Key>, page: seq<Event>)
    requires WellKeyed(t) && r.limit <= MAX_WINDOW_LIMIT && page == QueryWindow(env, t, r, anchor)
    ensures Ascending(KeysOf(page)) && |page| <= r.limit
  {
    TakePage(env, t, r, anchor, page);
  }

  /** The request with the store's own hard limit applied. */
  ghost function Limited(r: Request): Request {
    r.(limit := if r.limit <= 10_000 then r.limit else 10_000)
  }

  lemma {:induction false} LimitedAhead(env: Env, t: Table, r: Request, anchor: Option<Key>)
    requires WellKeyed(t)
    ensures QueryWindow(env, t, Limited(r), anchor) == QueryWindow(env, t, r, anchor)
  {
    forall e ensures Matches(env, Limited(r), e) <==> Matches(env, r, e) {}
    assert MatchKeys(env, t, Limited(r), anchor) == MatchKeys(env, t, r, anchor);
  }

  /** What a query returns, for any limit asked of it. */
  lemma {:induction false} QueryGivesGoodPage(env: Env, t: Table, r: Request, anchor: Option<Key>)
    requires WellKeyed(t)
    ensures GoodPage(env, t, Limited(r), anchor, QueryWindow(env, t, r, anchor))
  {
    LimitedAhead(env, t, r, anchor);
    GoodWithinLimit(env, t, Limited(r), anchor);
  }

  lemma {:induction false} GoodWithinLimit(env: Env, t: Table, r: Request, anchor: Option<Key>)
    requires WellKeyed(t) && r.limit <= MAX_WINDOW_LIMIT
    ensures GoodPage(env, t, r, anchor, QueryWindow(env, t, r, anchor))
  {
    var page := QueryWindow(env, t, r, anchor);
    PageAscends(env, t, r, anchor, page);
    AscendingInOrder(page);
    forall e | e in page ensures e.id in t && t[e.id] == e && Asked(env, r, e) && Past(anchor, KeyOf(e)) {
      var i :| 0 <= i < |page| && page[i] == e;
      PageRow(env, t, r, anchor, page, i);
    }
    forall id | id in t && Asked(env, r, t[id]) && Past(anchor, KeyOf(t[id]))
      ensures t[id] in page || (|page| == r.limit && forall e :: e in page ==> Precedes(e, t[id]))
    {
      NothingSkipped(env, t, r, anchor, page, id);
    }
  }

  lemma {:induction false} PageBefore(env: Env, t: Table, r: Request, anchor: Option<Key>, page: seq<Event>, j: nat)
    requires WellKeyed(t) && r.limit <= MAX_WINDOW_LIMIT && page == QueryWindow(env, t, r, anchor)
    requires |page| <= j < |Ahead(env, t, r, anchor)|
    ensures forall e :: e in page ==> Before(KeyOf(e), Ahead(env, t, r, anchor)[j])
  {
    forall e | e in page ensures Before(KeyOf(e), Ahead(env, t, r, anchor)[j]) {
      var i :| 0 <= i < |page| && page[i] == e;
      PageRow(env, t, r, anchor, page, i);
    }
  }

  lemma {:induction false} NothingSkipped(env: Env, t: Table, r: Request, anchor: Option<Key>, page: seq<Event>,
                                          id: EventId)
    requires WellKeyed(t) && r.limit <= MAX_WINDOW_LIMIT && page == QueryWindow(env, t, r, anchor)
    requires id in t && Asked(env, r, t[id]) && Past(anchor, KeyOf(t[id]))
    ensures t[id] in page || (|page| == r.limit && forall e :: e in page ==> Before(KeyOf(e), KeyOf(t[id])))
  {
    var all := Ahead(env, t, r, anchor);
    AheadMember(env, t, r, anchor, KeyOf(t[id]));
    var j :| 0 <= j < |all| && all[j] == KeyOf(t[id]);
    if j < |page| {
      PageRow(env, t, r, anchor, page, j);
      assert page[j] == t[id];
    } else {
      PageBefore(env, t, r, anchor, page, j);
      TakePage(env, t, r, anchor, page);
    }
  }

  // ----- one call -----

  /** The answer is the next page, and it carries a cursor, at its last row, exactly if it is full. */
  ghost predicate Answers(env: Env, t: Table, r: Request, anchor: Option<Key>, page: Page) {
    GoodPage(env, t, r, anchor, page.events) &&
    (page.cursor.Some? <==> page.events != [] && |page.events| == r.limit) &&
    (page.cursor.Some? ==>
      var last := page.events[|page.events| - 1];
      page.cursor.value == Sealed(Key(last.ts, last.id), env.tag(r)))
  }

  /** Each way a call can end, and when. The limit defaults to the cap and is clamped to it. */
  lemma {:induction false} CallEndsExactlyWhen(env: Env, store: Option<Table>, a: Args)
    requires MachineArgs(a) && (store.Some? ==> WellKeyed(store.value))
    ensures var got := GetWindow(env, store, a);
            var limit := if a.limit.Some? && a.limit.value < 10_000 then a.limit.value else 10_000;
            var r := Request(a.start, a.end, a.sources, a.kinds, limit);
            (got == Err(NoColdStore) <==> store.None?) &&
            (got == Err(InvalidRange) <==> store.Some? && a.start >= a.end) &&
            (got == Err(CursorMalformed) <==> store.Some? && a.start < a.end && a.cursor == Some(Garbled)) &&
            (got == Err(CursorFilterMismatch) <==>
              store.Some? && a.start < a.end && a.cursor.Some? && a.cursor.value.Sealed? &&
              a.cursor.value.hash != env.tag(r)) &&
            (got.Ok? ==>
              Answers(env, store.value, r, if a.cursor.None? then None else Some(a.cursor.value.anchor), got.value))
  {
    if store.Some? && a.start < a.end {
      var r := AsRequest(a);
      var anchor := AnchorOf(a.cursor, env.tag(r));
      if anchor.Ok? {
        QueryGivesGoodPage(env, store.value, r, anchor.value);
      }
    }
  }

  // ----- a scan: a client following cursors, while others append and sweep -----

  datatype Scan = Scan(first: Option<Request>, cursor: Option<Wire>, got: seq<Event>, done: bool)

  /** Between reads the store may do anything; each read may carry its own arguments. */
  datatype Act = Mutate(op: Op) | Read(args: Args)

  datatype System = System(cold: Cold, scan: Scan)

  const FRESH: Scan := Scan(None, None, [], false)

  /** The client presents the cursor it holds; an error leaves it where it was. */
  function ReadPage(env: Env, t: Table, s: Scan, args: Args): Scan
    requires WellKeyed(t) && MachineArgs(args)
  {
    if s.done then s
    else
      var a := args.(cursor := s.cursor);
      var r := GetWindow(env, Some(t), a);
      if r.Err? then s
      else Scan(if s.first.None? then Some(AsRequest(a)) else s.first,
                r.value.cursor, s.got + r.value.events, r.value.cursor.None?)
  }

  predicate Sensible(act: Act) {
    act.Read? ==> MachineArgs(act.args)
  }

  function Do(env: Env, sys: System, act: Act): (r: System)
    requires WellKeyed(sys.cold.events) && Sensible(act)
    ensures WellKeyed(r.cold.events)
  {
    match act
    case Mutate(op) => sys.(cold := Apply(sys.cold, op))
    case Read(args) => sys.(scan := ReadPage(env, sys.cold.events, sys.scan, args))
  }

  function DoAll(env: Env, sys: System, acts: seq<Act>): (r: System)
    requires WellKeyed(sys.cold.events) && forall act :: act in acts ==> Sensible(act)
    ensures WellKeyed(r.cold.events)
    decreases |acts|
  {
    if acts == [] then sys
    else
      assert acts[0] in acts;
      DoAll(env, Do(env, sys, acts[0]), acts[1..])
  }

  /** The row is stored, unchanged, whenever a page is read. */
  ghost predicate Throughout(env: Env, sys: System, acts: seq<Act>, row: Event)
    requires WellKeyed(sys.cold.events) && forall act :: act in acts ==> Sensible(act)
    decreases |acts|
  {
    acts == [] ||
    (assert acts[0] in acts;
     (acts[0].Read? ==> row.id in sys.cold.events && sys.cold.events[row.id] == row) &&
     Throughout(env, Do(env, sys, acts[0]), acts[1..], row))
  }

  function LastKey(rows: seq<Event>): Key
    requires rows != []
  {
    KeyOf(rows[|rows| - 1])
  }

  /** What holds of a scan between any two actions. */
  ghost predicate ScanInv(env: Env, reqs: set<Request>, s: Scan) {
    if s.first.None? then s == FRESH
    else
      var r := s.first.value;
      r in reqs && r.limit <= MAX_WINDOW_LIMIT && Ascending(KeysOf(s.got)) &&
      (forall e :: e in s.got ==> Asked(env, r, e)) &&
      (!s.done ==> s.got != [] && s.cursor == Some(Sealed(LastKey(s.got), env.tag(r))))
  }

  /** A row seen by every read so far was returned, or still lies ahead. */
  ghost predicate Covered(env: Env, s: Scan, row: Event) {
    s.first.Some? && s.first.value.limit >= 1 && Asked(env, s.first.value, row) ==>
      row in s.got || (!s.done && s.got != [] && Before(LastKey(s.got), KeyOf(row)))
  }

  function ScanAnchor(s: Scan): Option<Key> {
    if s.got == [] then None else Some(LastKey(s.got))
  }

  /** A cursor handed out for one request is honoured by another exactly when they are equivalent. */
  lemma {:induction false} TagResumes(env: Env, a: Request, b: Request, anchor: Key)
    requires CollisionFree(env, {a, b})
    ensures Decode(Encode(anchor, env.tag(a)), env.tag(b))
            == if Equivalent(a, b) then Ok(anchor) else Err(FilterMismatch)
  {
    CanonicalExactlyEquivalent(a, b);
  }

  /** What a read that changes anything does, before relating it to the scan. */
  lemma {:induction false} ReadShape(env: Env, t: Table, s: Scan, args: Args)
    requires WellKeyed(t) && MachineArgs(args) && ReadPage(env, t, s, args) != s
    ensures !s.done && AnchorOf(s.cursor, env.tag(AsRequest(args))).Ok?
    ensures var r := AsRequest(args);
            var page := QueryWindow(env, t, r, AnchorOf(s.cursor, env.tag(r)).value);
            var next := NextCursor(page, r.limit, env.tag(r));
            ReadPage(env, t, s, args)
            == Scan(if s.first.None? then Some(r) else s.first, next, s.got + page, next.None?)
  {
    assert AsRequest(args.(cursor := s.cursor)) == AsRequest(args);
  }

  /** A cursor the scan holds is honoured only for an equivalent request, and stands at its last row. */
  lemma {:induction false} HeldCursor(env: Env, reqs: set<Request>, s: Scan, r: Request)
    requires CollisionFree(env, reqs) && r in reqs && ScanInv(env, reqs, s) && !s.done && s.first.Some?
    requires AnchorOf(s.cursor, env.tag(r)).Ok?
    ensures Equivalent(s.first.value, r) && env.tag(s.first.value) == env.tag(r)
    ensures AnchorOf(s.cursor, env.tag(r)).value == ScanAnchor(s)
  {
    TagResumes(env, s.first.value, r, LastKey(s.got));
  }

  /** A successful read continues exactly where the scan stood, for the scan's first request,
      whatever equivalent form of it the caller used. */
  lemma {:induction false} ReadContinues(env: Env, reqs: set<Request>, t: Table, s: Scan, args: Args)
    requires CollisionFree(env, reqs)
    requires WellKeyed(t) && MachineArgs(args) && AsRequest(args) in reqs && ScanInv(env, reqs, s) && !s.done
    requires ReadPage(env, t, s, args) != s
    ensures var s' := ReadPage(env, t, s, args);
            s'.first.Some? && s'.first.value in reqs &&
            s'.first.value.limit <= MAX_WINDOW_LIMIT && (s.first.Some? ==> s'.first == s.first) &&
            var r := s'.first.value;
            var page := QueryWindow(env, t, r, ScanAnchor(s));
            s'.got == s.got + page && s'.cursor == NextCursor(page, r.limit, env.tag(r)) &&
            (s'.done <==> s'.cursor.None?)
  {
    ReadShape(env, t, s, args);
    if s.first.Some? {
      HeldCursor(env, reqs, s, AsRequest(args));
      EquivalentScansSame(env, t, s.first.value, AsRequest(args), ScanAnchor(s));
    }
  }

  lemma {:induction false} AscendingJoin(a: seq<Event>, b: seq<Event>)
    requires Ascending(KeysOf(a)) && Ascending(KeysOf(b))
    requires a != [] ==> forall e :: e in b ==> Before(LastKey(a), KeyOf(e))
    ensures Ascending(KeysOf(a + b))
  {
    forall i, j | 0 <= i < j < |a + b| ensures Before(KeysOf(a + b)[i], KeysOf(a + b)[j]) {
      AscendingAcross(a, b, i, j);
    }
  }

  lemma {:induction false} AscendingAcross(a: seq<Event>, b: seq<Event>, i: nat, j: nat)
    requires Ascending(KeysOf(a)) && Ascending(KeysOf(b)) && i < j < |a + b|
    requires a != [] ==> forall e :: e in b ==> Before(LastKey(a), KeyOf(e))
    ensures Before(KeyOf((a + b)[i]), KeyOf((a + b)[j]))
  {
    if j < |a| {
      assert Before(KeysOf(a)[i], KeysOf(a)[j]);
    } else if i >= |a| {
      assert Before(KeysOf(b)[i - |a|], KeysOf(b)[j - |a|]);
    } else {
      assert b[j - |a|] in b;
      assert i == |a| - 1 || Before(KeysOf(a)[i], KeysOf(a)[|a| - 1]);
    }
  }

  /** Adding a good page keeps the collected rows ascending and matching. */
  lemma {:induction false} PageExtends(env: Env, t: Table, r: Request, got: seq<Event>, page: seq<Event>)
    requires GoodPage(env, t, r, if got == [] then None else Some(LastKey(got)), page)
    requires Ascending(KeysOf(got)) && forall e :: e in got ==> Asked(env, r, e)
    ensures Ascending(KeysOf(got + page)) && forall e :: e in got + page ==> Asked(env, r, e)
  {
    AscendingInOrder(page);
    AscendingJoin(got, page);
  }

  lemma {:induction false} ReadKeepsInv(env: Env, reqs: set<Request>, t: Table, s: Scan, args: Args)
    requires CollisionFree(env, reqs)
    requires WellKeyed(t) && MachineArgs(args) && AsRequest(args) in reqs && ScanInv(env, reqs, s)
    ensures ScanInv(env, reqs, ReadPage(env, t, s, args))
  {
    var s' := ReadPage(env, t, s, args);
    if !s.done && s' != s {
      ReadContinues(env, reqs, t, s, args);
      var r := s'.first.value;
      var page := QueryWindow(env, t, r, ScanAnchor(s));
      assert GoodPage(env, t, r, ScanAnchor(s), page) by { QueryGivesGoodPage(env, t, r, ScanAnchor(s)); }
      PageExtends(env, t, r, s.got, page);
      assert page != [] ==> LastKey(s'.got) == LastKey(page);
    }
  }

  /** A row that lies ahead is on the next page, or the page is full and the row still lies ahead. */
  lemma {:induction false} PageCovers(env: Env, t: Table, r: Request, anchor: Option<Key>, page: seq<Event>, row: Event)
    requires GoodPage(env, t, r, anchor, page) && r.limit >= 1
    requires row.id in t && t[row.id] == row && Asked(env, r, row) && Past(anchor, KeyOf(row))
    ensures row in page || (|page| == r.limit && page != [] && Before(LastKey(page), KeyOf(row)))
  {
    if row !in page {
      assert page[|page| - 1] in page;
    }
  }

  /** The step from one scan state to the next, as far as coverage goes. */
  lemma {:induction false} CoverageStep(env: Env, s: Scan, s': Scan, r: Request, page: seq<Event>, row: Event)
    requires s'.first == Some(r) && s'.got == s.got + page && (s'.done <==> NextCursor(page, r.limit, env.tag(r)).None?)
    requires row in s.got || row in page ||
             (|page| == r.limit && page != [] && Before(LastKey(page), KeyOf(row)))
    ensures Covered(env, s', row)
  {
    assert page != [] ==> s'.got[|s'.got| - 1] == page[|page| - 1];
  }

  lemma {:induction false} ReadKeepsCovered(env: Env, reqs: set<Request>, t: Table, s: Scan, args: Args, row: Event)
    requires CollisionFree(env, reqs)
    requires WellKeyed(t) && MachineArgs(args) && AsRequest(args) in reqs
    requires ScanInv(env, reqs, s) && Covered(env, s, row)
    requires row.id in t && t[row.id] == row
    ensures Covered(env, ReadPage(env, t, s, args), row)
  {
    var s' := ReadPage(env, t, s, args);
    if !s.done && s' != s && s'.first.value.limit >= 1 && Asked(env, s'.first.value, row) {
      ReadContinues(env, reqs, t, s, args);
      var r := s'.first.value;
      var page := QueryWindow(env, t, r, ScanAnchor(s));
      if row !in s.got {
        QueryGivesGoodPage(env, t, r, ScanAnchor(s));
        PageCovers(env, t, r, ScanAnchor(s), page, row);
      }
      CoverageStep(env, s, s', r, page, row);
    }
  }

  lemma {:induction false} ScanKeepsInv(env: Env, reqs: set<Request>, sys: System, acts: seq<Act>)
    requires CollisionFree(env, reqs)
    requires WellKeyed(sys.cold.events) && ScanInv(env, reqs, sys.scan)
    requires forall act :: act in acts ==> Sensible(act) && (act.Read? ==> AsRequest(act.args) in reqs)
    ensures ScanInv(env, reqs, DoAll(env, sys, acts).scan)
    decreases |acts|
  {
    if acts == [] {
    } else {
      assert acts[0] in acts;
      if acts[0].Read? {
        ReadKeepsInv(env, reqs, sys.cold.events, sys.scan, acts[0].args);
      }
      ScanKeepsInv(env, reqs, Do(env, sys, acts[0]), acts[1..]);
    }
  }

  lemma {:induction false} ScanKeepsCovered(env: Env, reqs: set<Request>, sys: System, acts: seq<Act>, row: Event)
    requires CollisionFree(env, reqs)
    requires WellKeyed(sys.cold.events) && ScanInv(env, reqs, sys.scan) && Covered(env, sys.scan, row)
    requires forall act :: act in acts ==> Sensible(act) && (act.Read? ==> AsRequest(act.args) in reqs)
    requires Throughout(env, sys, acts, row)
    ensures Covered(env, DoAll(env, sys, acts).scan, row)
    decreases |acts|
  {
    if acts == [] {
    } else {
      assert acts[0] in acts;
      if acts[0].Read? {
        ReadKeepsInv(env, reqs, sys.cold.events, sys.scan, acts[0].args);
        ReadKeepsCovered(env, reqs, sys.cold.events, sys.scan, acts[0].args, row);
      }
      ScanKeepsCovered(env, reqs, Do(env, sys, acts[0]), acts[1..], row);
    }
  }

  /** The requests a run presents. */
  function Requests(acts: seq<Act>): set<Request> {
    set act | act in acts && act.Read? :: AsRequest(act.args)
  }

  /** Under any interleaving of appends, sweeps and reads, a scan returns strictly increasing
      keys; and once it has ended, every matching row that was there at each read has been
      returned exactly once. */
  lemma {:induction false} ScanIsComplete(env: Env, cold: Cold, acts: seq<Act>, row: Event)
    requires CollisionFree(env, Requests(acts))
    requires WellKeyed(cold.events)
    requires forall act :: act in acts ==> Sensible(act)
    ensures InOrder(DoAll(env, System(cold, FRESH), acts).scan.got)
    ensures var s := DoAll(env, System(cold, FRESH), acts).scan;
            s.first.Some? ==> forall e :: e in s.got ==> Asked(env, s.first.value, e)
    ensures var s := DoAll(env, System(cold, FRESH), acts).scan;
            s.done && s.first.Some? && s.first.value.limit >= 1 && Asked(env, s.first.value, row)
            && Throughout(env, System(cold, FRESH), acts, row) ==>
              exists i :: 0 <= i < |s.got| && s.got[i] == row &&
                forall j :: 0 <= j < |s.got| && s.got[j] == row ==> j == i
  {
    var sys, reqs := System(cold, FRESH), Requests(acts);
    ScanKeepsInv(env, reqs, sys, acts);
    var s := DoAll(env, sys, acts).scan;
    AscendingInOrder(s.got);
    if s.done && s.first.value.limit >= 1 && Asked(env, s.first.value, row) && Throughout(env, sys, acts, row) {
      ScanKeepsCovered(env, reqs, sys, acts, row);
      var i :| 0 <= i < |s.got| && s.got[i] == row;
      var q := KeysOf(s.got);
      forall j | 0 <= j < |s.got| && j != i ensures s.got[j] != row {
        assert Before(q[j], q[i]) || Before(q[i], q[j]);
      }
    }
  }

  // ----- a scan of an unchanging store -----

  /** Successive reads with the same arguments: trace[n] is the scan after n calls. */
  ghost predicate Follows(env: Env, t: Table, args: Args, trace: seq<Scan>)
    requires WellKeyed(t) && MachineArgs(args)
  {
    trace != [] && trace[0] == FRESH &&
    forall n :: 0 < n < |trace| ==> trace[n] == ReadPage(env, t, trace[n - 1], args)
  }

  ghost predicate AllStored(t: Table, q: seq<Key>) {
    forall k :: k in q ==> k.id in t && KeyOf(t[k.id]) == k
  }

  lemma {:induction false} AheadStored(env: Env, t: Table, r: Request, anchor: Option<Key>)
    requires WellKeyed(t)
    ensures AllStored(t, Ahead(env, t, r, anchor))
  {
    forall k | k in Ahead(env, t, r, anchor) ensures k.id in t && KeyOf(t[k.id]) == k {
      AheadMember(env, t, r, anchor, k);
    }
  }

  lemma {:induction false} AfterKey(all: seq<Key>, m: nat, k: Key)
    requires Ascending(all) && 0 < m <= |all| && k in all
    ensures k in all[m..] <==> Before(all[m - 1], k)
  {
    var i :| 0 <= i < |all| && all[i] == k;
    if m <= i {
      assert all[m..][i - m] == k && Before(all[m - 1], all[i]);
    } else {
      assert i < m - 1 ==> Before(all[i], all[m - 1]);
      forall j | 0 <= j < |all[m..]| ensures all[m..][j] != k {
        assert Before(all[i], all[m + j]);
      }
    }
  }

  /** What lies beyond the m-th key of the full result is the rest of it. */
  lemma {:induction false} AheadAfter(env: Env, t: Table, r: Request, m: nat)
    requires WellKeyed(t) && 0 < m <= |Ahead(env, t, r, None)|
    ensures Ahead(env, t, r, Some(Ahead(env, t, r, None)[m - 1])) == Ahead(env, t, r, None)[m..]
  {
    var all := Ahead(env, t, r, None);
    var rest := Ahead(env, t, r, Some(all[m - 1]));
    forall k ensures k in rest <==> k in all[m..] {
      AheadMember(env, t, r, None, k);
      AheadMember(env, t, r, Some(all[m - 1]), k);
      assert k in all[m..] ==> k in all;
      if k in all {
        AfterKey(all, m, k);
      }
    }
    AscendingUnique(rest, all[m..]);
  }

  lemma {:induction false} FetchConcat(t: Table, a: seq<Key>, b: seq<Key>)
    requires forall k :: k in a + b ==> k.id in t
    ensures (forall k :: k in a ==> k.id in t) && (forall k :: k in b ==> k.id in t)
    ensures Fetch(t, a + b) == Fetch(t, a) + Fetch(t, b)
  {
    forall k | k in a ensures k in a + b {}
    forall k | k in b ensures k in a + b {}
  }

  /** The scan that has collected the first m rows and, if m > 0, holds a cursor at the m-th. */
  ghost function AtOffset(env: Env, t: Table, r: Request, all: seq<Key>, m: nat): Scan
    requires AllStored(t, all) && m <= |all|
  {
    if m == 0 then FRESH
    else Scan(Some(r), Some(Sealed(all[m - 1], env.tag(r))), Fetch(t, all[..m]), false)
  }

  function AnchorAt(env: Env, t: Table, r: Request, m: nat): Option<Key>
    requires m <= |Ahead(env, t, r, None)|
  {
    if m == 0 then None else Some(Ahead(env, t, r, None)[m - 1])
  }

  lemma {:induction false} TakeSlice<T>(all: seq<T>, m: nat, m': nat, limit: nat)
    requires m <= |all| && m' == Min(m + limit, |all|)
    ensures Take(all[m..], limit) == all[m..m'] && all[..m'] == all[..m] + all[m..m']
  {
  }

  lemma {:induction false} AheadFrom(env: Env, t: Table, r: Request, m: nat)
    requires WellKeyed(t) && m <= |Ahead(env, t, r, None)|
    ensures Ahead(env, t, r, AnchorAt(env, t, r, m)) == Ahead(env, t, r, None)[m..]
  {
    if m > 0 {
      AheadAfter(env, t, r, m);
    }
  }

  lemma {:induction false} FetchPrefix(t: Table, all: seq<Key>, m: nat, m': nat)
    requires AllStored(t, all) && m <= m' <= |all|
    ensures Fetch(t, all[..m']) == Fetch(t, all[..m]) + Fetch(t, all[m..m'])
  {
    assert all[..m'] == all[..m] + all[m..m'];
    FetchConcat(t, all[..m], all[m..m']);
  }

  /** The page after the first m rows holds the next `limit` of them. */
  lemma {:induction false} PageAt(env: Env, t: Table, r: Request, all: seq<Key>, m: nat, m': nat)
    requires WellKeyed(t) && r.limit <= MAX_WINDOW_LIMIT && all == Ahead(env, t, r, None) && AllStored(t, all)
    requires m <= |all| && m' == Min(m + r.limit, |all|)
    ensures QueryWindow(env, t, r, AnchorAt(env, t, r, m)) == Fetch(t, all[m..m'])
  {
    AheadFrom(env, t, r, m);
    TakeSlice(all, m, m', r.limit);
  }

  function CursorAt(env: Env, r: Request, k: Option<Key>): Option<Wire> {
    if k.None? then None else Some(Sealed(k.value, env.tag(r)))
  }

  lemma {:induction false} GetWindowResumes(env: Env, t: Table, args: Args, k: Option<Key>)
    requires WellKeyed(t) && MachineArgs(args) && args.start < args.end
    ensures var r := AsRequest(args);
            var page := QueryWindow(env, t, r, k);
            GetWindow(env, Some(t), args.(cursor := CursorAt(env, r, k)))
            == Ok(Page(page, NextCursor(page, r.limit, env.tag(r))))
  {
    assert AsRequest(args.(cursor := CursorAt(env, AsRequest(args), k))) == AsRequest(args);
  }

  lemma {:induction false} ReadAt(env: Env, t: Table, args: Args, all: seq<Key>, m: nat)
    requires WellKeyed(t) && MachineArgs(args) && args.start < args.end
    requires all == Ahead(env, t, AsRequest(args), None) && AllStored(t, all) && m <= |all|
    ensures var r := AsRequest(args);
            var page := QueryWindow(env, t, r, AnchorAt(env, t, r, m));
            var next := NextCursor(page, r.limit, env.tag(r));
            ReadPage(env, t, AtOffset(env, t, r, all, m), args)
            == Scan(Some(r), next, Fetch(t, all[..m]) + page, next.None?)
  {
    var r := AsRequest(args);
    var k := AnchorAt(env, t, r, m);
    assert AtOffset(env, t, r, all, m).cursor == CursorAt(env, r, k);
    GetWindowResumes(env, t, args, k);
    assert m == 0 ==> Fetch(t, all[..m]) == [];
  }

  lemma {:induction false} LastFetched(t: Table, all: seq<Key>, m: nat, m': nat)
    requires AllStored(t, all) && m < m' <= |all|
    ensures LastKey(Fetch(t, all[m..m'])) == all[m' - 1]
  {
    var slice := all[m..m'];
    var last := |slice| - 1;
    assert slice[last] == all[m' - 1] && all[m' - 1] in all;
    assert Fetch(t, slice)[last] == t[slice[last].id];
  }

  lemma {:induction false} CursorAfter(t: Table, all: seq<Key>, m: nat, m': nat, limit: nat, hash: Bytes)
    requires AllStored(t, all) && m <= |all| && m' == Min(m + limit, |all|) && limit >= 1
    ensures NextCursor(Fetch(t, all[m..m']), limit, hash)
            == if m' == m + limit then Some(Sealed(all[m' - 1], hash)) else None
  {
    if m < m' {
      LastFetched(t, all, m, m');
    }
  }

  /** What a read leaves behind, before looking at how full its page is. */
  ghost function AfterPage(t: Table, r: Request, all: seq<Key>, m: nat, m': nat, hash: Bytes): Scan
    requires AllStored(t, all) && m <= m' <= |all|
  {
    var page := Fetch(t, all[m..m']);
    var next := NextCursor(page, r.limit, hash);
    Scan(Some(r), next, Fetch(t, all[..m]) + page, next.None?)
  }

  lemma {:induction false} ReadRaw(env: Env, t: Table, args: Args, all: seq<Key>, m: nat, m': nat)
    requires WellKeyed(t) && MachineArgs(args) && args.start < args.end
    requires all == Ahead(env, t, AsRequest(args), None) && AllStored(t, all) && m <= |all|
    requires m' == Min(m + AsRequest(args).limit, |all|)
    ensures ReadPage(env, t, AtOffset(env, t, AsRequest(args), all, m), args)
            == AfterPage(t, AsRequest(args), all, m, m', env.tag(AsRequest(args)))
  {
    ReadAt(env, t, args, all, m);
    PageAt(env, t, AsRequest(args), all, m, m');
  }

  lemma {:induction false} FullPageOn(env: Env, t: Table, r: Request, all: seq<Key>, m: nat, m': nat)
    requires AllStored(t, all) && r.limit >= 1 && m' == m + r.limit && m' <= |all|
    ensures AfterPage(t, r, all, m, m', env.tag(r)) == AtOffset(env, t, r, all, m')
  {
    var next := Some(Sealed(all[m' - 1], env.tag(r)));
    assert NextCursor(Fetch(t, all[m..m']), r.limit, env.tag(r)) == next by {
      CursorAfter(t, all, m, m', r.limit, env.tag(r));
    }
    assert Fetch(t, all[..m]) + Fetch(t, all[m..m']) == Fetch(t, all[..m']) by {
      FetchPrefix(t, all, m, m');
    }
    assert AfterPage(t, r, all, m, m', env.tag(r)) == Scan(Some(r), next, Fetch(t, all[..m']), false);
  }

  lemma {:induction false} ShortPageOn(env: Env, t: Table, r: Request, all: seq<Key>, m: nat)
    requires AllStored(t, all) && r.limit >= 1 && m <= |all| < m + r.limit
    ensures AfterPage(t, r, all, m, |all|, env.tag(r)) == Scan(Some(r), None, Fetch(t, all), true)
  {
    CursorAfter(t, all, m, |all|, r.limit, env.tag(r));
    FetchPrefix(t, all, m, |all|);
    WholePrefix(all);
  }

  lemma {:induction false} WholePrefix<T>(s: seq<T>)
    ensures s[..|s|] == s
  {
  }

  /** One more read either moves a whole page on or ends the scan with everything. */
  lemma {:induction false} ReadOn(env: Env, t: Table, args: Args, all: seq<Key>, m: nat)
    requires WellKeyed(t) && MachineArgs(args) && args.start < args.end && AsRequest(args).limit >= 1
    requires all == Ahead(env, t, AsRequest(args), None) && AllStored(t, all) && m <= |all|
    ensures var r := AsRequest(args);
            ReadPage(env, t, AtOffset(env, t, r, all, m), args)
            == if m + r.limit <= |all| then AtOffset(env, t, r, all, m + r.limit)
               else Scan(Some(r), None, Fetch(t, all), true)
  {
    var r := AsRequest(args);
    var m' := Min(m + r.limit, |all|);
    ReadRaw(env, t, args, all, m, m');
    if m + r.limit <= |all| {
      FullPageOn(env, t, r, all, m, m');
    } else {
      ShortPageOn(env, t, r, all, m);
    }
  }

  function Offset(n: nat, limit: nat): nat {
    if n == 0 then 0 else Offset(n - 1, limit) + limit
  }

  lemma {:induction false} OffsetIsProduct(n: nat, limit: nat)
    ensures Offset(n, limit) == n * limit
  {
    if n == 0 {
    } else {
      OffsetIsProduct(n - 1, limit);
      assert n * limit == (n - 1) * limit + limit;
    }
  }

  /** A trace of reads with these arguments on a store with this full result. */
  ghost predicate Scanning(env: Env, t: Table, args: Args, all: seq<Key>, trace: seq<Scan>) {
    WellKeyed(t) && MachineArgs(args) && args.start < args.end && AsRequest(args).limit >= 1 &&
    all == Ahead(env, t, AsRequest(args), None) && AllStored(t, all) && Follows(env, t, args, trace)
  }

  /** After n calls the scan has collected the first m rows. */
  ghost predicate Collected(env: Env, t: Table, args: Args, all: seq<Key>, trace: seq<Scan>, n: nat, m: nat) {
    AllStored(t, all) && m <= |all| && n < |trace| && trace[n] == AtOffset(env, t, AsRequest(args), all, m)
  }

  lemma {:induction false} OnePageOn(env: Env, t: Table, args: Args, all: seq<Key>, trace: seq<Scan>, n: nat, m: nat)
    requires Scanning(env, t, args, all, trace) && n + 1 < |trace| && m + AsRequest(args).limit <= |all|
    requires Collected(env, t, args, all, trace, n, m)
    ensures Collected(env, t, args, all, trace, n + 1, m + AsRequest(args).limit)
  {
    ReadOn(env, t, args, all, m);
  }

  lemma {:induction false} FullPages(env: Env, t: Table, args: Args, all: seq<Key>, trace: seq<Scan>, n: nat, m: nat)
    requires Scanning(env, t, args, all, trace) && n < |trace|
    requires m == Offset(n, AsRequest(args).limit) <= |all|
    ensures Collected(env, t, args, all, trace, n, m)
    decreases n
  {
    if n == 0 {
      NothingCollected(env, t, args, all, trace);
    } else {
      var before := m - AsRequest(args).limit;
      FullPages(env, t, args, all, trace, n - 1, before);
      OnePageOn(env, t, args, all, trace, n - 1, before);
    }
  }

  lemma {:induction false} NothingCollected(env: Env, t: Table, args: Args, all: seq<Key>, trace: seq<Scan>)
    requires Scanning(env, t, args, all, trace)
    ensures Collected(env, t, args, all, trace, 0, 0)
  {
  }

  function FullPagesIn(n: nat, limit: nat): nat
    requires limit >= 1
  {
    n / limit
  }

  lemma {:induction false} PageCount(n: nat, limit: nat)
    requires limit >= 1
    ensures Offset(FullPagesIn(n, limit), limit) <= n < Offset(FullPagesIn(n, limit), limit) + limit
  {
    OffsetIsProduct(n / limit, limit);
  }

  /** On an unchanging store the pages concatenate to the full sorted result, and the scan ends
      with call number n / limit + 1, not before. */
  lemma {:induction false} StaticScan(env: Env, t: Table, args: Args, trace: seq<Scan>)
    requires WellKeyed(t) && MachineArgs(args) && args.start < args.end && AsRequest(args).limit >= 1
    requires Follows(env, t, args, trace)
    requires |trace| > FullPagesIn(|Ahead(env, t, AsRequest(args), None)|, AsRequest(args).limit) + 1
    ensures var all := Ahead(env, t, AsRequest(args), None);
            var calls := FullPagesIn(|all|, AsRequest(args).limit);
            AllStored(t, all) && !trace[calls].done && trace[calls + 1].done && trace[calls + 1].got == Fetch(t, all) &&
            Exactly(env, t, AsRequest(args), trace[calls + 1].got)
  {
    var limit := AsRequest(args).limit;
    var all := Ahead(env, t, AsRequest(args), None);
    var calls := FullPagesIn(|all|, limit);
    AheadStored(env, t, AsRequest(args), None);
    PageCount(|all|, limit);
    FullPages(env, t, args, all, trace, calls, Offset(calls, limit));
    ReadOn(env, t, args, all, Offset(calls, limit));
    AllIsExact(env, t, AsRequest(args));
  }

  /** Every stored row that was asked for, nothing else, in order. */
  ghost predicate Exactly(env: Env, t: Table, r: Request, rows: seq<Event>) {
    InOrder(rows) && forall e :: e in rows <==> e.id in t && t[e.id] == e && Asked(env, r, e)
  }

  lemma {:induction false} AllIsExact(env: Env, t: Table, r: Request)
    requires WellKeyed(t)
    ensures AllStored(t, Ahead(env, t, r, None)) && Exactly(env, t, r, Fetch(t, Ahead(env, t, r, None)))
  {
    AheadStored(env, t, r, None);
    var all := Ahead(env, t, r, None);
    var rows := Fetch(t, all);
    assert forall i :: 0 <= i < |all| ==> all[i] in all && KeyOf(rows[i]) == all[i];
    assert KeysOf(rows) == all;
    AscendingInOrder(rows);
    forall e ensures e in rows <==> e.id in t && t[e.id] == e && Asked(env, r, e) {
      AheadMember(env, t, r, None, KeyOf(e));
      FetchedMember(t, all, e);
    }
  }

  lemma {:induction false} FetchedMember(t: Table, keys: seq<Key>, e: Event)
    requires AllStored(t, keys)
    ensures e in Fetch(t, keys) <==> KeyOf(e) in keys && e.id in t && t[e.id] == e
  {
    var rows := Fetch(t, keys);
    if KeyOf(e) in keys && e.id in t && t[e.id] == e {
      var i :| 0 <= i < |keys| && keys[i] == KeyOf(e);
      assert rows[i] == e;
    }
    if e in rows {
      var i :| 0 <= i < |rows| && rows[i] == e;
      assert keys[i] in keys;
    }
  }

  lemma {:induction false} LimitZeroEnds(env: Env, t: Table, args: Args)
    requires WellKeyed(t) && MachineArgs(args) && args.start < args.end && AsRequest(args).limit == 0
    ensures ReadPage(env, t, FRESH, args) == Scan(Some(AsRequest(args)), None, [], true)
  {
    assert AsRequest(args.(cursor := None)) == AsRequest(args);
    assert Take(Ahead(env, t, AsRequest(args), None), 0) == [];
  }

  lemma {:induction false} NothingAheadExactlyWhen(env: Env, t: Table, r: Request)
    requires WellKeyed(t)
    ensures Ahead(env, t, r, None) == [] <==> forall id :: id in t ==> !Asked(env, r, t[id])
  {
    var all := Ahead(env, t, r, None);
    forall id | id in t && Asked(env, r, t[id]) ensures KeyOf(t[id]) in all {
      AheadMember(env, t, r, None, KeyOf(t[id]));
    }
    if all != [] {
      assert all[0] in all;
      AheadMember(env, t, r, None, all[0]);
    }
  }

  /** A limit of zero ends the scan at once with nothing: it is complete only if nothing matches. */
  lemma {:induction false} LimitZeroIsComplete(env: Env, t: Table, args: Args)
    requires WellKeyed(t) && MachineArgs(args) && args.start < args.end
    requires AsRequest(args).limit == 0
    ensures ReadPage(env, t, FRESH, args).done && ReadPage(env, t, FRESH, args).got == []
    ensures AllStored(t, Ahead(env, t, AsRequest(args), None))
    ensures ReadPage(env, t, FRESH, args).got == Fetch(t, Ahead(env, t, AsRequest(args), None))
            <==> forall id :: id in t ==> !Asked(env, AsRequest(args), t[id])
  {
    AheadStored(env, t, AsRequest(args), None);
    LimitZeroEnds(env, t, args);
    NothingAheadExactlyWhen(env, t, AsRequest(args));
  }
}
