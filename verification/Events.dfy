/** The canonical event record and the `(ts_ms_utc, event_id)` order every scan
    and every sweep relies on. */
module Events {
  import opened Prelude

  /** ULIDs are 128-bit numbers; their text form sorts like the number. */
  type EventId = nat

  /** Serialised JSON. SQLite's LENGTH counts its characters. */
  type Json = string

  datatype Event = Event(
    id: EventId,
    source: string,
    kind: string,
    ts: int,
    semantic: Json,
    links: Option<Json>,
    traceId: Option<string>,
    ingestTs: Option<int>,
    seqNo: Option<nat>,
    producerId: Option<string>,
    schemaInvalid: Option<bool>)

  datatype Pair = Pair(source: string, kind: string)

  datatype Key = Key(ts: int, id: EventId)

  function PairOf(e: Event): Pair {
    Pair(e.source, e.kind)
  }

  function KeyOf(e: Event): Key {
    Key(e.ts, e.id)
  }

  predicate Before(a: Key, b: Key) {
    a.ts < b.ts || (a.ts == b.ts && a.id < b.id)
  }

  /** Strictly ascending, hence also free of repetitions. */
  ghost predicate Ascending(q: seq<Key>) {
    forall i, j :: 0 <= i < j < |q| ==> Before(q[i], q[j])
  }

  predicate IsFirst(m: Key, s: set<Key>) {
    m in s && forall k :: k in s ==> k == m || Before(m, k)
  }

  lemma {:induction false} FirstExists(s: set<Key>)
    requires s != {}
    ensures exists m :: IsFirst(m, s)
  {
    var x :| x in s;
    if s == {x} {
      assert IsFirst(x, s);
    } else {
      FirstExists(s - {x});
      var y :| IsFirst(y, s - {x});
      var m := if Before(x, y) then x else y;
      forall k | k in s ensures k == m || Before(m, k) {
        assert k == x || k in s - {x};
      }
      assert IsFirst(m, s);
    }
  }

  /** The rows of an `ORDER BY ts_ms_utc ASC, event_id ASC` select. */
  function Sorted(s: set<Key>): (q: seq<Key>)
    ensures Ascending(q)
    ensures forall k :: k in q <==> k in s
    ensures |q| == |s|
  {
    if s == {} then []
    else
      FirstExists(s);
      var m :| IsFirst(m, s);
      [m] + Sorted(s - {m})
  }

  /** An ascending sequence is determined by its elements. */
  lemma {:induction false} AscendingUnique(a: seq<Key>, b: seq<Key>)
    requires Ascending(a) && Ascending(b)
    requires forall k :: k in a <==> k in b
    ensures a == b
  {
    assert a != [] ==> a[0] in b;
    assert b != [] ==> b[0] in a;
    if a == [] {
    } else {
      assert a[0] == b[0];
      forall k ensures k in a[1..] <==> k in b[1..] {
        assert k in a[1..] <==> k in a && k != a[0] by {
          if k in a[1..] { var i :| 0 <= i < |a[1..]| && a[1..][i] == k; assert a[i + 1] == k; }
        }
        assert k in b[1..] <==> k in b && k != b[0] by {
          if k in b[1..] { var i :| 0 <= i < |b[1..]| && b[1..][i] == k; assert b[i + 1] == k; }
        }
      }
      AscendingUnique(a[1..], b[1..]);
    }
  }
}
