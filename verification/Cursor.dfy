/** Pagination cursors: the canonical byte string a request is hashed from, and the check
    that a cursor is only resumed with an equivalent request. The byte string itself stands
    in for its hash. */
module Cursor {
  import opened Prelude
  import opened Events
  import opened Sorting

  type Byte = b: int | 0 <= b < 256
  type Bytes = seq<Byte>

  const U32_MAX: nat := 0xFFFF_FFFF
  const TWO_64: nat := 0x1_0000_0000_0000_0000

  /** b"percept-cursor-v1" */
  const DOMAIN: Bytes := [112, 101, 114, 99, 101, 112, 116, 45, 99, 117, 114, 115, 111, 114, 45, 118, 49]

  /** A window request; globs are UTF-8 byte strings. */
  datatype Request = Request(
    start: int, end: int, sources: Option<seq<Bytes>>, kinds: Option<seq<Bytes>>, limit: nat)

  function Globs(f: Option<seq<Bytes>>): seq<Bytes> {
    UnwrapOr(f, [])
  }

  // ----- encoding -----

  function LittleEndian(n: nat, width: nat): Bytes {
    if width == 0 then [] else [n % 256] + LittleEndian(n / 256, width - 1)
  }

  /** The bit pattern of an i64, as an unsigned number. */
  function TwosComplement(x: int): nat
    requires IsI64(x)
  {
    if x >= 0 then x else x + TWO_64
  }

  /** Lengths are written as u32, saturating. */
  function Length32(n: nat): Bytes {
    LittleEndian(Min(n, U32_MAX), 4)
  }

  function EncodeAll(ss: seq<Bytes>): Bytes {
    if ss == [] then [] else Length32(|ss[0]|) + ss[0] + EncodeAll(ss[1..])
  }

  function EncodeList(ss: seq<Bytes>): Bytes {
    Length32(|ss|) + EncodeAll(ss)
  }

  /** Byte-wise lexicographic order, as strings are sorted. */
  predicate BytesLeq(a: Bytes, b: Bytes) {
    a == [] || (b != [] && (a[0] < b[0] || (a[0] == b[0] && BytesLeq(a[1..], b[1..]))))
  }

  predicate Machine(r: Request) {
    IsI64(r.start) && IsI64(r.end) && r.limit <= U32_MAX
  }

  function Canonical(r: Request): Bytes
    requires Machine(r)
  {
    DOMAIN + LittleEndian(TwosComplement(r.start), 8) + LittleEndian(TwosComplement(r.end), 8)
    + LittleEndian(r.limit, 4)
    + EncodeList(Sort(Globs(r.sources), BytesLeq)) + EncodeList(Sort(Globs(r.kinds), BytesLeq))
  }

  lemma {:induction false} Regroup(a: Bytes, b: Bytes, c: Bytes)
    ensures a + b + c == a + (b + c)
  {
  }

  lemma {:induction false} EncodeAllSnoc(ss: seq<Bytes>, s: Bytes)
    ensures EncodeAll(ss + [s]) == EncodeAll(ss) + Length32(|s|) + s
  {
    if ss == [] {
      assert ss + [s] == [s];
    } else {
      assert (ss + [s])[1..] == ss[1..] + [s];
      EncodeAllSnoc(ss[1..], s);
    }
  }

  lemma {:induction false} EncodeAllNext(h: Bytes, ss: seq<Bytes>, i: nat)
    requires i < |ss|
    ensures h + EncodeAll(ss[..i + 1]) == h + EncodeAll(ss[..i]) + Length32(|ss[i]|) + ss[i]
  {
    assert ss[..i + 1] == ss[..i] + [ss[i]];
    EncodeAllSnoc(ss[..i], ss[i]);
  }

  method HashItems(h: Bytes, items: seq<Bytes>) returns (h': Bytes)
    ensures h' == h + EncodeAll(items)
  {
    h' := h;
    for i := 0 to |items|
      invariant h' == h + EncodeAll(items[..i])
    {
      EncodeAllNext(h, items, i);
      h' := h' + Length32(|items[i]|);
      h' := h' + items[i];
    }
    assert items[..|items|] == items;
  }

  method HashList(h: Bytes, globs: seq<Bytes>) returns (h': Bytes)
    ensures h' == h + EncodeList(Sort(globs, BytesLeq))
  {
    var sorted := Sort(globs, BytesLeq);
    h' := HashItems(h + Length32(|sorted|), sorted);
    Regroup(h, Length32(|sorted|), EncodeAll(sorted));
  }

  /** Feeding the hasher piece by piece. */
  method HashInput(r: Request) returns (h: Bytes)
    requires Machine(r)
    ensures h == Canonical(r)
  {
    h := DOMAIN;
    h := h + LittleEndian(TwosComplement(r.start), 8);
    h := h + LittleEndian(TwosComplement(r.end), 8);
    h := h + LittleEndian(r.limit, 4);
    h := HashList(h, Globs(r.sources));
    h := HashList(h, Globs(r.kinds));
  }

  // ----- the encoding loses nothing but order -----

  function Pow256(width: nat): nat {
    if width == 0 then 1 else 256 * Pow256(width - 1)
  }

  lemma {:induction false} LittleEndianLength(n: nat, width: nat)
    ensures |LittleEndian(n, width)| == width
  {
    if width > 0 {
      LittleEndianLength(n / 256, width - 1);
    }
  }

  lemma {:induction false} LittleEndianInjective(m: nat, n: nat, width: nat)
    requires m < Pow256(width) && n < Pow256(width)
    requires LittleEndian(m, width) == LittleEndian(n, width)
    ensures m == n
  {
    if width > 0 {
      var a, b := LittleEndian(m, width), LittleEndian(n, width);
      assert a[0] == m % 256 && b[0] == n % 256;
      assert a[1..] == LittleEndian(m / 256, width - 1) && b[1..] == LittleEndian(n / 256, width - 1);
      LittleEndianInjective(m / 256, n / 256, width - 1);
    }
  }

  lemma {:induction false} Widths()
    ensures Pow256(4) == U32_MAX + 1 && Pow256(8) == TWO_64
  {
    assert Pow256(1) == 256 && Pow256(2) == 0x1_0000 && Pow256(3) == 0x100_0000;
    assert Pow256(4) == 0x1_0000_0000 && Pow256(5) == 0x100_0000_0000 && Pow256(6) == 0x1_0000_0000_0000;
    assert Pow256(7) == 0x100_0000_0000_0000;
  }

  lemma {:induction false} Peel(a: Bytes, x: Bytes, b: Bytes, y: Bytes)
    requires a + x == b + y && |a| == |b|
    ensures a == b && x == y
  {
    assert a == (a + x)[..|a|] && b == (b + y)[..|b|];
    assert x == (a + x)[|a|..] && y == (b + y)[|b|..];
  }

  // ----- what the bytes are -----

  /** The number these bytes stand for, least significant first. */
  ghost function Value(b: Bytes): nat {
    if b == [] then 0 else b[0] + 256 * Value(b[1..])
  }

  lemma {:induction false} LittleEndianReads(n: nat, width: nat)
    requires n < Pow256(width)
    ensures |LittleEndian(n, width)| == width && Value(LittleEndian(n, width)) == n
  {
    if width > 0 {
      LittleEndianReads(n / 256, width - 1);
      assert LittleEndian(n, width)[1..] == LittleEndian(n / 256, width - 1);
    }
  }

  ghost predicate Counts(b: Bytes, n: nat) {
    |b| == 4 && Value(b) == if n <= 0xFFFF_FFFF then n else 0xFFFF_FFFF
  }

  lemma {:induction false} LengthReads(n: nat)
    ensures Counts(Length32(n), n)
  {
    Widths();
    LittleEndianReads(Min(n, U32_MAX), 4);
  }

  /** Each text after its length. */
  ghost predicate Lists(b: Bytes, ss: seq<Bytes>) {
    if ss == [] then b == []
    else
      var n := 4 + |ss[0]|;
      |b| >= n && Counts(b[..4], |ss[0]|) && b[4..n] == ss[0] && Lists(b[n..], ss[1..])
  }

  lemma {:induction false} EncodeAllLists(ss: seq<Bytes>)
    ensures Lists(EncodeAll(ss), ss)
  {
    if ss != [] {
      LengthReads(|ss[0]|);
      EncodeAllLists(ss[1..]);
      var b := EncodeAll(ss);
      assert b[..4] == Length32(|ss[0]|) && b[4..4 + |ss[0]|] == ss[0] && b[4 + |ss[0]|..] == EncodeAll(ss[1..]);
    }
  }

  /** The one continues the other, or is greater at the first byte that differs. */
  ghost predicate NotAfter(a: Bytes, b: Bytes) {
    a <= b || exists i :: 0 <= i < |a| && i < |b| && a[..i] == b[..i] && a[i] < b[i]
  }

  lemma {:induction false} LeqNotAfter(a: Bytes, b: Bytes)
    requires BytesLeq(a, b)
    ensures NotAfter(a, b)
  {
    if a != [] {
      if a[0] < b[0] {
        assert a[..0] == b[..0];
      } else {
        LeqNotAfter(a[1..], b[1..]);
        assert a == [a[0]] + a[1..] && b == [b[0]] + b[1..];
        if !(a[1..] <= b[1..]) {
          var i :| 0 <= i < |a[1..]| && i < |b[1..]| && a[1..][..i] == b[1..][..i] && a[1..][i] < b[1..][i];
          assert a[..i + 1] == [a[0]] + a[1..][..i] && b[..i + 1] == [b[0]] + b[1..][..i];
          assert a[i + 1] < b[i + 1];
        }
      }
    }
  }

  /** The number of globs, then the globs themselves in byte order, each after its length. */
  ghost predicate Filter(b: Bytes, f: Option<seq<Bytes>>, sorted: seq<Bytes>) {
    var globs := if f.Some? then f.value else [];
    multiset(sorted) == multiset(globs) && (forall i, j :: 0 <= i < j < |sorted| ==> NotAfter(sorted[i], sorted[j])) &&
    |b| >= 4 && Counts(b[..4], |globs|) && Lists(b[4..], sorted)
  }

  lemma {:induction false} EncodesFilter(f: Option<seq<Bytes>>)
    ensures Filter(EncodeList(Sort(Globs(f), BytesLeq)), f, Sort(Globs(f), BytesLeq))
  {
    var globs := Globs(f);
    var sorted := Sort(globs, BytesLeq);
    LeqIsOrder();
    SortSorts(globs, BytesLeq);
    SortPermutes(globs, BytesLeq);
    forall i, j | 0 <= i < j < |sorted| ensures NotAfter(sorted[i], sorted[j]) {
      LeqNotAfter(sorted[i], sorted[j]);
    }
    LengthReads(|sorted|);
    EncodeAllLists(sorted);
    var b := EncodeList(sorted);
    assert b[..4] == Length32(|sorted|) && b[4..] == EncodeAll(sorted);
  }

  /** The bit pattern of a signed 64-bit number. */
  ghost predicate Signed(b: Bytes, x: int) {
    |b| == 8 && Value(b) == if x >= 0 then x else x + 0x1_0000_0000_0000_0000
  }

  lemma {:induction false} SignedReads(x: int)
    requires IsI64(x)
    ensures Signed(LittleEndian(TwosComplement(x), 8), x)
  {
    Widths();
    LittleEndianReads(TwosComplement(x), 8);
  }

  /** What is hashed: the domain, start, end and limit, then both filters; an absent one is an empty one. */
  lemma {:induction false} CanonicalLayout(r: Request)
    returns (start: Bytes, end: Bytes, limit: Bytes, sources: Bytes, kinds: Bytes)
    requires Machine(r)
    ensures Canonical(r) == DOMAIN + start + end + limit + sources + kinds
    ensures Signed(start, r.start) && Signed(end, r.end) && |limit| == 4 && Value(limit) == r.limit
    ensures exists sorted :: Filter(sources, r.sources, sorted)
    ensures exists sorted :: Filter(kinds, r.kinds, sorted)
  {
    start, end := LittleEndian(TwosComplement(r.start), 8), LittleEndian(TwosComplement(r.end), 8);
    limit := LittleEndian(r.limit, 4);
    sources, kinds := EncodeList(Sort(Globs(r.sources), BytesLeq)), EncodeList(Sort(Globs(r.kinds), BytesLeq));
    SignedReads(r.start);
    SignedReads(r.end);
    Widths();
    LittleEndianReads(r.limit, 4);
    EncodesFilter(r.sources);
    EncodesFilter(r.kinds);
  }

  ghost predicate ShortStrings(ss: seq<Bytes>) {
    |ss| <= U32_MAX && forall s :: s in ss ==> |s| <= U32_MAX
  }

  /** A fixed-width number in front can be read back. */
  lemma {:induction false} NumberPeel(m: nat, x: Bytes, n: nat, y: Bytes, width: nat)
    requires m < Pow256(width) && n < Pow256(width)
    requires LittleEndian(m, width) + x == LittleEndian(n, width) + y
    ensures m == n && x == y
  {
    LittleEndianLength(m, width);
    LittleEndianLength(n, width);
    Peel(LittleEndian(m, width), x, LittleEndian(n, width), y);
    LittleEndianInjective(m, n, width);
  }

  lemma {:induction false} Length32Peel(m: nat, x: Bytes, n: nat, y: Bytes)
    requires m <= U32_MAX && n <= U32_MAX
    requires Length32(m) + x == Length32(n) + y
    ensures m == n && x == y
  {
    Widths();
    NumberPeel(m, x, n, y, 4);
  }

  lemma {:induction false} EncodeAllCons(a: seq<Bytes>, x: Bytes)
    requires a != []
    ensures EncodeAll(a) + x == Length32(|a[0]|) + (a[0] + (EncodeAll(a[1..]) + x))
  {
    var l, s, e := Length32(|a[0]|), a[0], EncodeAll(a[1..]);
    Regroup(l + s, e, x);
    Regroup(l, s, e + x);
  }

  lemma {:induction false} HeadPeel(a: seq<Bytes>, x: Bytes, b: seq<Bytes>, y: Bytes)
    requires a != [] && b != [] && |a[0]| <= U32_MAX && |b[0]| <= U32_MAX
    requires EncodeAll(a) + x == EncodeAll(b) + y
    ensures a[0] == b[0] && EncodeAll(a[1..]) + x == EncodeAll(b[1..]) + y
  {
    EncodeAllCons(a, x);
    EncodeAllCons(b, y);
    Length32Peel(|a[0]|, a[0] + (EncodeAll(a[1..]) + x), |b[0]|, b[0] + (EncodeAll(b[1..]) + y));
    Peel(a[0], EncodeAll(a[1..]) + x, b[0], EncodeAll(b[1..]) + y);
  }

  lemma {:induction false} EncodeAllPeel(a: seq<Bytes>, x: Bytes, b: seq<Bytes>, y: Bytes)
    requires |a| == |b| && EncodeAll(a) + x == EncodeAll(b) + y
    requires forall s :: s in a ==> |s| <= U32_MAX
    requires forall s :: s in b ==> |s| <= U32_MAX
    ensures a == b && x == y
  {
    if a == [] {
      assert [] + x == x && [] + y == y;
    } else {
      assert a[0] in a && b[0] in b;
      HeadPeel(a, x, b, y);
      EncodeAllPeel(a[1..], x, b[1..], y);
      assert a == [a[0]] + a[1..] && b == [b[0]] + b[1..];
    }
  }

  lemma {:induction false} EncodeListShape(a: seq<Bytes>, x: Bytes)
    ensures EncodeList(a) + x == Length32(|a|) + (EncodeAll(a) + x)
  {
    Regroup(Length32(|a|), EncodeAll(a), x);
  }

  lemma {:induction false} EncodeListPeel(a: seq<Bytes>, x: Bytes, b: seq<Bytes>, y: Bytes)
    requires ShortStrings(a) && ShortStrings(b) && EncodeList(a) + x == EncodeList(b) + y
    ensures a == b && x == y
  {
    EncodeListShape(a, x);
    EncodeListShape(b, y);
    Length32Peel(|a|, EncodeAll(a) + x, |b|, EncodeAll(b) + y);
    EncodeAllPeel(a, x, b, y);
  }

  // ----- sorting byte strings -----

  lemma {:induction false} LeqTotal(a: Bytes, b: Bytes)
    ensures BytesLeq(a, b) || BytesLeq(b, a)
  {
    if a != [] && b != [] {
      LeqTotal(a[1..], b[1..]);
    }
  }

  lemma {:induction false} LeqTransitive(a: Bytes, b: Bytes, c: Bytes)
    requires BytesLeq(a, b) && BytesLeq(b, c)
    ensures BytesLeq(a, c)
  {
    if a != [] && a[0] == b[0] && b[0] == c[0] {
      LeqTransitive(a[1..], b[1..], c[1..]);
    }
  }

  lemma {:induction false} LeqAntisymmetric(a: Bytes, b: Bytes)
    requires BytesLeq(a, b) && BytesLeq(b, a)
    ensures a == b
  {
    if a != [] && b != [] {
      LeqAntisymmetric(a[1..], b[1..]);
      assert a == [a[0]] + a[1..] && b == [b[0]] + b[1..];
    }
  }

  lemma {:induction false} LeqIsOrder()
    ensures TotalPreorder(BytesLeq) && Antisymmetric(BytesLeq)
  {
    forall a, b ensures BytesLeq(a, b) || BytesLeq(b, a) { LeqTotal(a, b); }
    forall a, b, c | BytesLeq(a, b) && BytesLeq(b, c) ensures BytesLeq(a, c) { LeqTransitive(a, b, c); }
    forall a, b | BytesLeq(a, b) && BytesLeq(b, a) ensures a == b { LeqAntisymmetric(a, b); }
  }

  lemma {:induction false} SortedGlobsAgree(a: seq<Bytes>, b: seq<Bytes>)
    ensures Sort(a, BytesLeq) == Sort(b, BytesLeq) <==> multiset(a) == multiset(b)
  {
    LeqIsOrder();
    SortPermutes(a, BytesLeq);
    SortPermutes(b, BytesLeq);
    if multiset(a) == multiset(b) {
      SortSorts(a, BytesLeq);
      SortSorts(b, BytesLeq);
      Sorting.SortedUnique(Sort(a, BytesLeq), Sort(b, BytesLeq), BytesLeq);
    }
  }

  lemma {:induction false} SortShort(ss: seq<Bytes>)
    requires ShortStrings(ss)
    ensures ShortStrings(Sort(ss, BytesLeq))
  {
    SortPermutes(ss, BytesLeq);
    forall s | s in Sort(ss, BytesLeq) ensures |s| <= U32_MAX {
      assert s in multiset(Sort(ss, BytesLeq));
    }
  }

  /** Same window, same limit, same globs up to order; an absent filter equals an empty one. */
  ghost predicate Equivalent(a: Request, b: Request) {
    a.start == b.start && a.end == b.end && a.limit == b.limit &&
    multiset(Globs(a.sources)) == multiset(Globs(b.sources)) &&
    multiset(Globs(a.kinds)) == multiset(Globs(b.kinds))
  }

  ghost predicate Short(r: Request) {
    ShortStrings(Globs(r.sources)) && ShortStrings(Globs(r.kinds))
  }

  /** The part of the canonical string before the glob lists. */
  function Header(r: Request): Bytes
    requires Machine(r)
  {
    DOMAIN + LittleEndian(TwosComplement(r.start), 8) + LittleEndian(TwosComplement(r.end), 8)
    + LittleEndian(r.limit, 4)
  }

  lemma {:induction false} HeaderShape(r: Request, x: Bytes)
    requires Machine(r)
    ensures Header(r) + x == DOMAIN + (LittleEndian(TwosComplement(r.start), 8)
                             + (LittleEndian(TwosComplement(r.end), 8) + (LittleEndian(r.limit, 4) + x)))
  {
    var s, e := LittleEndian(TwosComplement(r.start), 8), LittleEndian(TwosComplement(r.end), 8);
    var l := LittleEndian(r.limit, 4);
    Regroup(DOMAIN + s + e, l, x);
    Regroup(DOMAIN + s, e, l + x);
    Regroup(DOMAIN, s, e + (l + x));
  }

  lemma {:induction false} HeaderInjective(a: Request, x: Bytes, b: Request, y: Bytes)
    requires Machine(a) && Machine(b) && Header(a) + x == Header(b) + y
    ensures a.start == b.start && a.end == b.end && a.limit == b.limit && x == y
  {
    var l, l' := LittleEndian(a.limit, 4) + x, LittleEndian(b.limit, 4) + y;
    var e, e' := LittleEndian(TwosComplement(a.end), 8) + l, LittleEndian(TwosComplement(b.end), 8) + l';
    var s, s' := LittleEndian(TwosComplement(a.start), 8) + e, LittleEndian(TwosComplement(b.start), 8) + e';
    HeaderShape(a, x);
    HeaderShape(b, y);
    Peel(DOMAIN, s, DOMAIN, s');
    Widths();
    NumberPeel(TwosComplement(a.start), e, TwosComplement(b.start), e', 8);
    NumberPeel(TwosComplement(a.end), l, TwosComplement(b.end), l', 8);
    NumberPeel(a.limit, x, b.limit, y, 4);
  }

  lemma {:induction false} CanonicalShape(r: Request)
    requires Machine(r)
    ensures Canonical(r) == Header(r) + (EncodeList(Sort(Globs(r.sources), BytesLeq))
                                         + (EncodeList(Sort(Globs(r.kinds), BytesLeq)) + []))
  {
    var a, b := EncodeList(Sort(Globs(r.sources), BytesLeq)), EncodeList(Sort(Globs(r.kinds), BytesLeq));
    assert b + [] == b;
    Regroup(Header(r), a, b);
  }

  lemma {:induction false} CanonicalInjective(a: Request, b: Request)
    requires Machine(a) && Machine(b) && Short(a) && Short(b) && Canonical(a) == Canonical(b)
    ensures a.start == b.start && a.end == b.end && a.limit == b.limit
    ensures Sort(Globs(a.sources), BytesLeq) == Sort(Globs(b.sources), BytesLeq)
    ensures Sort(Globs(a.kinds), BytesLeq) == Sort(Globs(b.kinds), BytesLeq)
  {
    var sa, sb := Sort(Globs(a.sources), BytesLeq), Sort(Globs(b.sources), BytesLeq);
    var ka, kb := Sort(Globs(a.kinds), BytesLeq), Sort(Globs(b.kinds), BytesLeq);
    var ra, rb := EncodeList(ka) + [], EncodeList(kb) + [];
    CanonicalShape(a);
    CanonicalShape(b);
    HeaderInjective(a, EncodeList(sa) + ra, b, EncodeList(sb) + rb);
    SortShort(Globs(a.sources));
    SortShort(Globs(b.sources));
    EncodeListPeel(sa, ra, sb, rb);
    SortShort(Globs(a.kinds));
    SortShort(Globs(b.kinds));
    EncodeListPeel(ka, [], kb, []);
  }

  /** Two requests have the same canonical string exactly when they are equivalent. */
  lemma {:induction false} CanonicalExactlyEquivalent(a: Request, b: Request)
    requires Machine(a) && Machine(b) && Short(a) && Short(b)
    ensures Canonical(a) == Canonical(b) <==> Equivalent(a, b)
  {
    SortedGlobsAgree(Globs(a.sources), Globs(b.sources));
    SortedGlobsAgree(Globs(a.kinds), Globs(b.kinds));
    if Canonical(a) == Canonical(b) {
      CanonicalInjective(a, b);
    }
  }

  // ----- the cursor -----

  /** What arrives on the wire: text that does not decode, or an anchor with its request's hash. */
  datatype Wire = Garbled | Sealed(anchor: Key, hash: Bytes)

  datatype CursorError = Malformed | FilterMismatch

  function Encode(anchor: Key, hash: Bytes): Wire {
    Sealed(anchor, hash)
  }

  function Decode(w: Wire, expected: Bytes): Result<Key, CursorError> {
    match w
    case Garbled => Err(Malformed)
    case Sealed(anchor, hash) => if hash != expected then Err(FilterMismatch) else Ok(anchor)
  }
}
