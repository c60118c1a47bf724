/** A stable sort (what the standard library's `sort` and `sort_by_key` promise) and what
    it means to take the first element of a sorted list that has some property. */
module Sorting {
  import opened Prelude

  ghost predicate SortedBy<T>(s: seq<T>, leq: (T, T) -> bool) {
    forall i, j :: 0 <= i < j < |s| ==> leq(s[i], s[j])
  }

  ghost predicate TotalPreorder<T(!new)>(leq: (T, T) -> bool) {
    (forall a, b :: leq(a, b) || leq(b, a)) &&
    (forall a, b, c :: leq(a, b) && leq(b, c) ==> leq(a, c))
  }

  ghost predicate Antisymmetric<T(!new)>(leq: (T, T) -> bool) {
    forall a, b :: leq(a, b) && leq(b, a) ==> a == b
  }

  function Insert<T>(x: T, s: seq<T>, leq: (T, T) -> bool): seq<T> {
    if s == [] || leq(x, s[0]) then [x] + s else [s[0]] + Insert(x, s[1..], leq)
  }

  function Sort<T>(s: seq<T>, leq: (T, T) -> bool): seq<T> {
    if s == [] then [] else Insert(s[0], Sort(s[1..], leq), leq)
  }

  lemma {:induction false} InsertPermutes<T>(x: T, s: seq<T>, leq: (T, T) -> bool)
    ensures multiset(Insert(x, s, leq)) == multiset{x} + multiset(s)
  {
    if s != [] && !leq(x, s[0]) {
      InsertPermutes(x, s[1..], leq);
      assert s == [s[0]] + s[1..];
    }
  }

  lemma {:induction false} SortPermutes<T>(s: seq<T>, leq: (T, T) -> bool)
    ensures multiset(Sort(s, leq)) == multiset(s)
    ensures |Sort(s, leq)| == |s|
  {
    if s == [] {
    } else {
      SortPermutes(s[1..], leq);
      InsertPermutes(s[0], Sort(s[1..], leq), leq);
      assert s == [s[0]] + s[1..];
    }
    assert |multiset(Sort(s, leq))| == |multiset(s)|;
  }

  lemma {:induction false} InsertSorted<T(!new)>(x: T, s: seq<T>, leq: (T, T) -> bool)
    requires TotalPreorder(leq) && SortedBy(s, leq)
    ensures SortedBy(Insert(x, s, leq), leq)
  {
    if s != [] && !leq(x, s[0]) {
      InsertSorted(x, s[1..], leq);
      var r := Insert(x, s[1..], leq);
      InsertPermutes(x, s[1..], leq);
      forall j | 0 <= j < |r| ensures leq(s[0], r[j]) {
        assert r[j] in multiset(r);
        assert r[j] == x || r[j] in s[1..];
      }
    }
  }

  lemma {:induction false} SortSorts<T(!new)>(s: seq<T>, leq: (T, T) -> bool)
    requires TotalPreorder(leq)
    ensures SortedBy(Sort(s, leq), leq)
  {
    if s == [] {
    } else {
      SortSorts(s[1..], leq);
      InsertSorted(s[0], Sort(s[1..], leq), leq);
    }
  }

  lemma {:induction false} SortedHead<T(!new)>(a: seq<T>, b: seq<T>, leq: (T, T) -> bool)
    requires TotalPreorder(leq) && a != [] && SortedBy(b, leq) && multiset(a) == multiset(b)
    ensures b != [] && leq(b[0], a[0])
  {
    assert a[0] in multiset(b);
    var i :| 0 <= i < |b| && b[i] == a[0];
    assert i == 0 || leq(b[0], b[i]);
  }

  lemma {:induction false} TailCounts<T>(a: seq<T>)
    requires a != []
    ensures multiset(a[1..]) == multiset(a) - multiset{a[0]}
  {
    assert a == [a[0]] + a[1..];
  }

  /** Under an antisymmetric order a multiset has one sorted listing. */
  lemma {:induction false} SortedUnique<T(!new)>(a: seq<T>, b: seq<T>, leq: (T, T) -> bool)
    requires TotalPreorder(leq) && Antisymmetric(leq)
    requires SortedBy(a, leq) && SortedBy(b, leq) && multiset(a) == multiset(b)
    ensures a == b
  {
    if a == [] {
      assert |multiset(b)| == 0;
    } else {
      SortedHead(a, b, leq);
      SortedHead(b, a, leq);
      TailCounts(a);
      TailCounts(b);
      SortedUnique(a[1..], b[1..], leq);
      assert a == [a[0]] + a[1..] && b == [b[0]] + b[1..];
    }
  }

  // ----- the first element of a stable-sorted list that has a property -----

  function FirstWith<T>(s: seq<T>, has: T -> bool): Option<T> {
    if s == [] then None else if has(s[0]) then Some(s[0]) else FirstWith(s[1..], has)
  }

  /** The same element found without sorting, scanning from the right. */
  ghost function Best<T>(s: seq<T>, leq: (T, T) -> bool, has: T -> bool): Option<T> {
    if s == [] then None
    else
      var rest := Best(s[1..], leq, has);
      if has(s[0]) && (rest.None? || leq(s[0], rest.value)) then Some(s[0]) else rest
  }

  lemma {:induction false} FirstWithMember<T>(s: seq<T>, has: T -> bool)
    ensures FirstWith(s, has).Some? ==> FirstWith(s, has).value in s && has(FirstWith(s, has).value)
  {
    if s != [] && !has(s[0]) {
      FirstWithMember(s[1..], has);
    }
  }

  lemma {:induction false} FirstWithInsert<T(!new)>(x: T, q: seq<T>, leq: (T, T) -> bool, has: T -> bool)
    requires TotalPreorder(leq) && SortedBy(q, leq)
    ensures var f := FirstWith(q, has);
            FirstWith(Insert(x, q, leq), has)
            == if has(x) && (f.None? || leq(x, f.value)) then Some(x) else f
  {
    FirstWithMember(q, has);
    if q == [] || leq(x, q[0]) {
      assert ([x] + q)[1..] == q;
      if FirstWith(q, has).Some? {
        var i :| 0 <= i < |q| && q[i] == FirstWith(q, has).value;
        assert leq(x, q[i]);
      }
    } else {
      assert ([q[0]] + Insert(x, q[1..], leq))[1..] == Insert(x, q[1..], leq);
      FirstWithInsert(x, q[1..], leq, has);
    }
  }

  lemma {:induction false} FirstOfSorted<T(!new)>(s: seq<T>, leq: (T, T) -> bool, has: T -> bool)
    requires TotalPreorder(leq)
    ensures FirstWith(Sort(s, leq), has) == Best(s, leq, has)
  {
    if s == [] {
    } else {
      FirstOfSorted(s[1..], leq, has);
      SortSorts(s[1..], leq);
      FirstWithInsert(s[0], Sort(s[1..], leq), leq, has);
    }
  }

  /** Position i holds the least element having the property, the earliest one on ties. */
  ghost predicate LeastFirst<T>(s: seq<T>, leq: (T, T) -> bool, has: T -> bool, i: int) {
    0 <= i < |s| && has(s[i]) &&
    forall j :: 0 <= j < |s| && has(s[j]) ==> leq(s[i], s[j]) && (leq(s[j], s[i]) ==> i <= j)
  }

  lemma {:induction false} BestIsLeastFirst<T(!new)>(s: seq<T>, leq: (T, T) -> bool, has: T -> bool)
    requires TotalPreorder(leq)
    ensures Best(s, leq, has).None? ==> forall j :: 0 <= j < |s| ==> !has(s[j])
    ensures Best(s, leq, has).Some? ==> exists i :: LeastFirst(s, leq, has, i) && s[i] == Best(s, leq, has).value
  {
    if s == [] {
    } else {
      var t := s[1..];
      BestIsLeastFirst(t, leq, has);
      var rest := Best(t, leq, has);
      assert forall j :: 0 < j < |s| ==> s[j] == t[j - 1];
      if rest.Some? {
        var i :| LeastFirst(t, leq, has, i) && t[i] == rest.value;
        if has(s[0]) && leq(s[0], rest.value) {
          assert LeastFirst(s, leq, has, 0);
        } else {
          assert s[i + 1] == t[i];
          assert LeastFirst(s, leq, has, i + 1);
        }
      } else if has(s[0]) {
        assert LeastFirst(s, leq, has, 0);
      }
    }
  }
}
