/** MQTT topic filters (section 4.7.1 of MQTT 3.1.1) and the source-id templates filled from
    what their wildcards captured. */
module Topic {
  import opened Prelude
  import opened Text

  // ----- levels -----

  function Split(s: string): (parts: seq<string>)
    ensures parts != []
  {
    if s == [] then [[]]
    else if s[0] == '/' then [[]] + Split(s[1..])
    else
      var rest := Split(s[1..]);
      [[s[0]] + rest[0]] + rest[1..]
  }

  function Join(parts: seq<string>): string {
    if parts == [] then []
    else if |parts| == 1 then parts[0]
    else parts[0] + "/" + Join(parts[1..])
  }

  lemma {:induction false} JoinSlash(rest: seq<string>)
    requires rest != []
    ensures Join([[]] + rest) == "/" + Join(rest)
  {
    assert ([[]] + rest)[1..] == rest;
  }

  lemma {:induction false} JoinChar(c: char, rest: seq<string>)
    requires rest != []
    ensures Join([[c] + rest[0]] + rest[1..]) == [c] + Join(rest)
  {
    assert ([[c] + rest[0]] + rest[1..])[1..] == rest[1..];
    if |rest| > 1 {
      assert [c] + rest[0] + "/" + Join(rest[1..]) == [c] + (rest[0] + "/" + Join(rest[1..]));
    }
  }

  lemma {:induction false} JoinSplit(s: string)
    ensures Join(Split(s)) == s
  {
    if s == [] {
    } else {
      JoinSplit(s[1..]);
      JoinSlash(Split(s[1..]));
      JoinChar(s[0], Split(s[1..]));
      assert s == [s[0]] + s[1..];
    }
  }

  ghost predicate SlashFree(parts: seq<string>) {
    forall p :: p in parts ==> '/' !in p
  }

  lemma {:induction false} SplitIsSlashFree(s: string)
    ensures SlashFree(Split(s))
  {
    if s != [] {
      SplitIsSlashFree(s[1..]);
      var rest := Split(s[1..]);
      assert rest[0] in rest && forall p :: p in rest[1..] ==> p in rest;
    }
  }

  lemma {:induction false} SplitJoin(parts: seq<string>)
    requires parts != [] && SlashFree(parts)
    ensures Split(Join(parts)) == parts
    decreases |parts|, |parts[0]|
  {
    var head, rest := parts[0], parts[1..];
    assert head in parts && forall p :: p in rest ==> p in parts;
    assert parts == [head] + rest;
    if head == [] {
      if rest != [] {
        JoinSlash(rest);
        SplitJoin(rest);
      }
    } else {
      var parts' := [head[1..]] + rest;
      assert head == [head[0]] + head[1..] && parts'[1..] == rest;
      JoinChar(head[0], parts');
      SplitJoin(parts');
      assert [[head[0]] + parts'[0]] + parts'[1..] == parts;
    }
  }

  /** The levels of a text are the one way to write it as slash-free pieces joined by slashes. */
  lemma {:induction false} SplitExactlyWhen(s: string, parts: seq<string>)
    ensures Split(s) == parts <==> parts != [] && SlashFree(parts) && Join(parts) == s
  {
    JoinSplit(s);
    SplitIsSlashFree(s);
    if parts != [] && SlashFree(parts) {
      SplitJoin(parts);
    }
  }

  // ----- the matcher -----

  datatype Segment = Literal(text: string) | Plus | Hash

  datatype Captures = Captures(pluses: seq<string>, hash: Option<string>)

  function ToSegment(part: string): Segment {
    if part == "+" then Plus else if part == "#" then Hash else Literal(part)
  }

  function ToSegments(parts: seq<string>): (segs: seq<Segment>)
    ensures |segs| == |parts| && forall i :: 0 <= i < |parts| ==> segs[i] == ToSegment(parts[i])
  {
    if parts == [] then [] else [ToSegment(parts[0])] + ToSegments(parts[1..])
  }

  method NewMatcher(filter: string) returns (segs: seq<Segment>)
    ensures segs == ToSegments(Split(filter))
  {
    var parts := Split(filter);
    segs := [];
    for i := 0 to |parts|
      invariant |segs| == i && forall j :: 0 <= j < i ==> segs[j] == ToSegment(parts[j])
    {
      segs := segs + [ToSegment(parts[i])];
    }
  }

  /** Matching levels against segments, one by one. */
  function MatchLevels(segs: seq<Segment>, parts: seq<string>): Option<Captures> {
    if segs == [] then (if parts == [] then Some(Captures([], None)) else None)
    else match segs[0]
      case Hash => Some(Captures([], Some(Join(parts))))
      case Plus =>
        if parts == [] then None
        else
          var r := MatchLevels(segs[1..], parts[1..]);
          if r.None? then None else Some(Captures([parts[0]] + r.value.pluses, r.value.hash))
      case Literal(text) =>
        if parts == [] || parts[0] != text then None else MatchLevels(segs[1..], parts[1..])
  }

  function Prepend(pluses: seq<string>, r: Option<Captures>): Option<Captures> {
    if r.None? then None else Some(Captures(pluses + r.value.pluses, r.value.hash))
  }

  /** The matching loop, as written; indexing stays in range throughout. */
  method CapturesOf(segs: seq<Segment>, topic: string) returns (r: Option<Captures>)
    ensures r == MatchLevels(segs, Split(topic))
  {
    var parts := Split(topic);
    var pluses: seq<string> := [];
    var idx := 0;
    assert segs[0..] == segs && parts[0..] == parts;
    PrependNothing(MatchLevels(segs, parts));
    for i := 0 to |segs|
      invariant 0 <= idx <= |parts|
      invariant Prepend(pluses, MatchLevels(segs[i..], parts[idx..])) == MatchLevels(segs, parts)
    {
      assert segs[i..][1..] == segs[i + 1..];
      match segs[i]
      case Hash =>
        assert pluses + [] == pluses;
        return Some(Captures(pluses, Some(Join(parts[idx..]))));
      case Plus =>
        if idx >= |parts| {
          return None;
        }
        assert parts[idx..][1..] == parts[idx + 1..];
        PrependMore(pluses, parts[idx], MatchLevels(segs[i + 1..], parts[idx + 1..]));
        pluses := pluses + [parts[idx]];
        idx := idx + 1;
      case Literal(text) =>
        if idx >= |parts| || parts[idx] != text {
          return None;
        }
        assert parts[idx..][1..] == parts[idx + 1..];
        idx := idx + 1;
    }
    assert pluses + [] == pluses;
    if idx != |parts| {
      return None;
    }
    return Some(Captures(pluses, None));
  }

  lemma {:induction false} PrependNothing(r: Option<Captures>)
    ensures Prepend([], r) == r
  {
    if r.Some? {
      assert [] + r.value.pluses == r.value.pluses;
    }
  }

  lemma {:induction false} PrependMore(pluses: seq<string>, p: string, r: Option<Captures>)
    ensures Prepend(pluses, Prepend([p], r)) == Prepend(pluses + [p], r)
  {
    if r.Some? {
      assert pluses + ([p] + r.value.pluses) == pluses + [p] + r.value.pluses;
    }
  }

  // ----- what a match means -----

  /** Segments before the first `#`; whatever follows it is never looked at. */
  function Fixed(segs: seq<Segment>): seq<Segment> {
    if segs == [] || segs[0] == Hash then [] else [segs[0]] + Fixed(segs[1..])
  }

  predicate HasHash(segs: seq<Segment>) {
    Hash in segs
  }

  function CountPlus(segs: seq<Segment>): nat {
    if segs == [] then 0 else (if segs[0] == Plus then 1 else 0) + CountPlus(segs[1..])
  }

  /** The filter's levels with each `+` replaced, in order. */
  function Refill(segs: seq<Segment>, pluses: seq<string>): seq<string>
    requires |pluses| == CountPlus(segs)
  {
    if segs == [] then []
    else match segs[0]
      case Plus => [pluses[0]] + Refill(segs[1..], pluses[1..])
      case Literal(text) => [text] + Refill(segs[1..], pluses)
      case Hash => ["#"] + Refill(segs[1..], pluses)
  }

  /** The topic's levels are the refilled filter followed by a tail, which only `#` allows. */
  ghost predicate Explains(segs: seq<Segment>, c: Captures, tail: seq<string>, parts: seq<string>) {
    |c.pluses| == CountPlus(Fixed(segs)) && parts == Refill(Fixed(segs), c.pluses) + tail &&
    if HasHash(segs) then c.hash == Some(Join(tail)) else c.hash == None && tail == []
  }

  /** Explained beyond the first segment. */
  function Beyond(seg: Segment, c: Captures): Captures
    requires seg == Plus ==> c.pluses != []
  {
    if seg == Plus then Captures(c.pluses[1..], c.hash) else c
  }

  lemma {:induction false} RefillFirst(segs: seq<Segment>, c: Captures)
    requires segs != [] && segs[0] != Hash && |c.pluses| == CountPlus(Fixed(segs))
    ensures segs[0] == Plus ==> c.pluses != []
    ensures |Beyond(segs[0], c).pluses| == CountPlus(Fixed(segs[1..]))
    ensures Refill(Fixed(segs), c.pluses)
            == [if segs[0] == Plus then c.pluses[0] else segs[0].text]
               + Refill(Fixed(segs[1..]), Beyond(segs[0], c).pluses)
  {
    assert Fixed(segs)[1..] == Fixed(segs[1..]);
  }

  lemma {:induction false} HashInRest(segs: seq<Segment>)
    requires segs != [] && segs[0] != Hash
    ensures HasHash(segs) <==> HasHash(segs[1..])
  {
    assert segs == [segs[0]] + segs[1..];
  }

  lemma {:induction false} FirstAndRest(h: string, rest: seq<string>, tail: seq<string>, parts: seq<string>)
    requires parts == [h] + rest + tail
    ensures parts != [] && parts[0] == h && parts[1..] == rest + tail
  {
  }

  lemma {:induction false} ExplainsRest(segs: seq<Segment>, c: Captures, tail: seq<string>, parts: seq<string>)
    requires segs != [] && segs[0] != Hash && Explains(segs, c, tail, parts)
    ensures parts != [] && (segs[0] == Plus ==> c.pluses != [] && parts[0] == c.pluses[0])
    ensures segs[0].Literal? ==> parts[0] == segs[0].text
    ensures Explains(segs[1..], Beyond(segs[0], c), tail, parts[1..])
  {
    HashInRest(segs);
    RefillFirst(segs, c);
    var h := if segs[0] == Plus then c.pluses[0] else segs[0].text;
    FirstAndRest(h, Refill(Fixed(segs[1..]), Beyond(segs[0], c).pluses), tail, parts);
  }

  lemma {:induction false} PutInFront(h: string, rest: seq<string>, tail: seq<string>, parts: seq<string>)
    requires parts != [] && parts[0] == h && parts[1..] == rest + tail
    ensures parts == [h] + rest + tail
  {
    assert parts == [parts[0]] + parts[1..];
  }

  lemma {:induction false} CountFirst(segs: seq<Segment>)
    requires segs != [] && segs[0] != Hash
    ensures CountPlus(Fixed(segs)) == (if segs[0] == Plus then 1 else 0) + CountPlus(Fixed(segs[1..]))
  {
    assert Fixed(segs)[1..] == Fixed(segs[1..]);
  }

  lemma {:induction false} ExplainsMore(segs: seq<Segment>, c: Captures, tail: seq<string>, parts: seq<string>)
    requires segs != [] && segs[0] != Hash && parts != []
    requires segs[0] == Plus ==> c.pluses != [] && parts[0] == c.pluses[0]
    requires segs[0].Literal? ==> parts[0] == segs[0].text
    requires Explains(segs[1..], Beyond(segs[0], c), tail, parts[1..])
    ensures Explains(segs, c, tail, parts)
  {
    CountFirst(segs);
    HashInRest(segs);
    RefillFirst(segs, c);
    PutInFront(parts[0], Refill(Fixed(segs[1..]), Beyond(segs[0], c).pluses), tail, parts);
  }

  lemma {:induction false} MatchIsExplained(segs: seq<Segment>, parts: seq<string>) returns (tail: seq<string>)
    requires MatchLevels(segs, parts).Some?
    ensures Explains(segs, MatchLevels(segs, parts).value, tail, parts)
  {
    if segs == [] {
      tail := [];
    } else if segs[0] == Hash {
      tail := parts;
      assert [] + tail == parts;
    } else {
      tail := MatchIsExplained(segs[1..], parts[1..]);
      var c := MatchLevels(segs, parts).value;
      assert Beyond(segs[0], c) == MatchLevels(segs[1..], parts[1..]).value;
      ExplainsMore(segs, c, tail, parts);
    }
  }

  lemma {:induction false} ExplainedMatches(segs: seq<Segment>, c: Captures, tail: seq<string>, parts: seq<string>)
    requires Explains(segs, c, tail, parts)
    ensures MatchLevels(segs, parts) == Some(c)
  {
    if segs == [] || segs[0] == Hash {
      assert [] + tail == tail;
    } else {
      ExplainsRest(segs, c, tail, parts);
      ExplainedMatches(segs[1..], Beyond(segs[0], c), tail, parts[1..]);
      if segs[0] == Plus {
        assert [c.pluses[0]] + c.pluses[1..] == c.pluses;
      }
    }
  }

  /** A topic matches with captures c exactly when its levels are the filter's with `+` replaced
      by the captures and `#`, if there is one, by zero or more further levels. */
  lemma {:induction false} MatchesExactlyWhen(segs: seq<Segment>, topic: string, c: Captures)
    ensures MatchLevels(segs, Split(topic)) == Some(c) <==> exists tail :: Explains(segs, c, tail, Split(topic))
  {
    if MatchLevels(segs, Split(topic)) == Some(c) {
      var tail := MatchIsExplained(segs, Split(topic));
    }
    forall tail | Explains(segs, c, tail, Split(topic)) ensures MatchLevels(segs, Split(topic)) == Some(c) {
      ExplainedMatches(segs, c, tail, Split(topic));
    }
  }

  // In the words of the filter's text.

  /** The first `#` among the filter's levels is at h, if there is one; up to it the topic has the same
      levels, with any level for a `+`; from it on anything may follow. */
  ghost predicate Fits(filter: seq<string>, topic: seq<string>, h: nat) {
    h <= |filter| && h <= |topic| && (if h < |filter| then filter[h] == "#" else |topic| == h) &&
    forall i :: 0 <= i < h ==> filter[i] != "#" && (filter[i] == "+" || filter[i] == topic[i])
  }

  ghost function PlusCount(levels: seq<string>): nat {
    if levels == [] then 0 else (if levels[0] == "+" then 1 else 0) + PlusCount(levels[1..])
  }

  /** Each `+` before the first `#` has captured the topic's level at its place, the `#` the rest. */
  ghost predicate CapturedFrom(filter: seq<string>, topic: seq<string>, h: nat, c: Captures)
    requires h <= |filter| && h <= |topic|
  {
    |c.pluses| == PlusCount(filter[..h]) &&
    (forall i :: 0 <= i < h && filter[i] == "+" ==>
      PlusCount(filter[..i]) < |c.pluses| && c.pluses[PlusCount(filter[..i])] == topic[i]) &&
    c.hash == if h < |filter| then Some(Join(topic[h..])) else None
  }

  lemma {:induction false} FirstHashOnly(filter: seq<string>, topic: seq<string>, h: nat, h': nat)
    requires Fits(filter, topic, h) && Fits(filter, topic, h')
    ensures h == h'
  {
  }

  lemma {:induction false} CapturedMore(filter: seq<string>, topic: seq<string>, h: nat, c: Captures, c': Captures)
    requires 0 < h <= |filter| && h <= |topic|
    requires c'.hash == c.hash && c'.pluses == (if filter[0] == "+" then [topic[0]] else []) + c.pluses
    requires CapturedFrom(filter[1..], topic[1..], h - 1, c)
    ensures CapturedFrom(filter, topic, h, c')
  {
    var f := filter[1..];
    forall i: nat | i < h
      ensures PlusCount(filter[..i + 1]) == (if filter[0] == "+" then 1 else 0) + PlusCount(f[..i])
    {
      assert filter[..i + 1][1..] == f[..i];
    }
    assert PlusCount(filter[..h - 1 + 1]) == (if filter[0] == "+" then 1 else 0) + PlusCount(f[..h - 1]);
    forall i | 0 <= i < h && filter[i] == "+"
      ensures PlusCount(filter[..i]) < |c'.pluses| && c'.pluses[PlusCount(filter[..i])] == topic[i]
    {
      if i > 0 {
        assert PlusCount(filter[..i - 1 + 1]) == (if filter[0] == "+" then 1 else 0) + PlusCount(f[..i - 1]);
        assert f[i - 1] == "+" && topic[1..][i - 1] == topic[i];
      }
    }
  }

  lemma {:induction false} FittingCaptures(filter: seq<string>, topic: seq<string>, h: nat)
    requires Fits(filter, topic, h)
    ensures var r := MatchLevels(ToSegments(filter), topic);
            r.Some? && CapturedFrom(filter, topic, h, r.value)
  {
    if h == 0 {
      assert filter[..0] == [] && topic[0..] == topic;
    } else {
      FittingCaptures(filter[1..], topic[1..], h - 1);
      var c := MatchLevels(ToSegments(filter[1..]), topic[1..]).value;
      assert ToSegments(filter)[0] == ToSegment(filter[0]) && filter[0] != "#";
      var c' := MatchLevels(ToSegments(filter), topic).value;
      assert [] + c.pluses == c.pluses;
      CapturedMore(filter, topic, h, c, c');
    }
  }

  lemma {:induction false} MatchFits(filter: seq<string>, topic: seq<string>) returns (h: nat)
    requires MatchLevels(ToSegments(filter), topic).Some?
    ensures Fits(filter, topic, h)
  {
    if filter == [] || filter[0] == "#" {
      h := 0;
    } else {
      assert ToSegments(filter)[0] == ToSegment(filter[0]);
      h := MatchFits(filter[1..], topic[1..]);
      h := h + 1;
      forall i | 0 <= i < h ensures filter[i] != "#" && (filter[i] == "+" || filter[i] == topic[i]) {
        if i > 0 {
          assert filter[1..][i - 1] == filter[i] && topic[1..][i - 1] == topic[i];
        }
      }
    }
  }

  /** A topic matches a filter if and only if their levels fit, and then each `+` has captured the level
      in its own place and the `#` all levels from its place on. */
  lemma {:induction false} FilterMatchesExactlyWhen(filter: string, topic: string)
    ensures var r := MatchLevels(ToSegments(Split(filter)), Split(topic));
            (r.Some? <==> exists h :: Fits(Split(filter), Split(topic), h)) &&
            forall h :: Fits(Split(filter), Split(topic), h) ==>
              CapturedFrom(Split(filter), Split(topic), h, r.value)
  {
    if MatchLevels(ToSegments(Split(filter)), Split(topic)).Some? {
      var h := MatchFits(Split(filter), Split(topic));
    }
    forall h | Fits(Split(filter), Split(topic), h)
      ensures var r := MatchLevels(ToSegments(Split(filter)), Split(topic));
              r.Some? && CapturedFrom(Split(filter), Split(topic), h, r.value)
    {
      FittingCaptures(Split(filter), Split(topic), h);
    }
  }

  lemma {:induction false} FixedWhole(segs: seq<Segment>)
    requires !HasHash(segs)
    ensures Fixed(segs) == segs
  {
    if segs == [] {
    } else {
      assert segs[0] in segs;
      FixedWhole(segs[1..]);
    }
  }

  /** Without `#`, refilling the filter and joining gives the topic back. */
  lemma {:induction false} RefillReproducesTopic(segs: seq<Segment>, topic: string)
    requires !HasHash(segs) && MatchLevels(segs, Split(topic)).Some?
    ensures var c := MatchLevels(segs, Split(topic)).value;
            |c.pluses| == CountPlus(segs) && Join(Refill(segs, c.pluses)) == topic
  {
    var tail := MatchIsExplained(segs, Split(topic));
    FixedWhole(segs);
    var levels := Refill(segs, MatchLevels(segs, Split(topic)).value.pluses);
    assert levels + [] == levels == Split(topic);
    JoinSplit(topic);
  }

  /** All topics a filter matches have as many captures, and a tail or not, alike. */
  lemma {:induction false} CapturesHaveOneShape(segs: seq<Segment>, parts: seq<string>)
    requires MatchLevels(segs, parts).Some?
    ensures var c := MatchLevels(segs, parts).value;
            |c.pluses| == CountPlus(Fixed(segs)) && (c.hash.Some? <==> HasHash(segs))
  {
    var tail := MatchIsExplained(segs, parts);
  }

  // ----- templates -----

  datatype TemplateError = UnknownPlaceholder(text: string) | OutOfRange(n: nat, captures: nat) | NoHash

  /** A template is literal characters and placeholders in braces; a brace may lack its partner. */
  datatype Token = Char(c: char) | Hole(body: string) | Unclosed(rest: string)

  /** Index of the first closing brace, or the length if there is none. */
  function FindClose(s: string): (n: nat)
    ensures n <= |s| && (n < |s| ==> s[n] == '}') && '}' !in s[..n]
  {
    if s == [] || s[0] == '}' then 0
    else
      assert s[..1 + FindClose(s[1..])] == [s[0]] + s[1..][..FindClose(s[1..])];
      1 + FindClose(s[1..])
  }

  function Tokens(t: string): seq<Token>
    decreases |t|
  {
    if t == [] then []
    else if t[0] != '{' then [Char(t[0])] + Tokens(t[1..])
    else
      var n := FindClose(t[1..]);
      if n == |t| - 1 then [Unclosed(t[1..])]
      else [Hole(t[1..n + 1])] + Tokens(t[n + 2..])
  }

  function FillHole(body: string, c: Captures): Result<string, TemplateError> {
    if body == "#" then (if c.hash.Some? then Ok(c.hash.value) else Err(NoHash))
    else if body == [] || body[0] != '+' || ParseU64(body[1..]).None? then Err(UnknownPlaceholder(body))
    else
      var n := ParseU64(body[1..]).value;
      if n == 0 || n > |c.pluses| then Err(OutOfRange(n, |c.pluses|)) else Ok(c.pluses[n - 1])
  }

  function FillToken(t: Token, c: Captures): Result<string, TemplateError> {
    match t
    case Char(ch) => Ok([ch])
    case Hole(body) => FillHole(body, c)
    case Unclosed(rest) => Err(UnknownPlaceholder(rest))
  }

  /** Substitution token by token; the first error wins. */
  function Substitute(ts: seq<Token>, c: Captures): Result<string, TemplateError> {
    if ts == [] then Ok([])
    else
      var head := FillToken(ts[0], c);
      if head.Err? then head
      else
        var rest := Substitute(ts[1..], c);
        if rest.Err? then rest else Ok(head.value + rest.value)
  }

  // The code advances its character iterator by a byte offset.

  function Utf8Len(c: char): nat {
    if (c as int) < 0x80 then 1 else if (c as int) < 0x800 then 2 else if (c as int) < 0x1_0000 then 3 else 4
  }

  function ByteLen(s: string): nat {
    if s == [] then 0 else Utf8Len(s[0]) + ByteLen(s[1..])
  }

  predicate IsAscii(c: char) {
    (c as int) < 0x80
  }

  lemma {:induction false} AsciiBytes(s: string)
    requires forall i :: 0 <= i < |s| ==> IsAscii(s[i])
    ensures ByteLen(s) == |s|
  {
    if s == [] {
    } else {
      assert IsAscii(s[0]);
      AsciiBytes(s[1..]);
    }
  }

  /** Every accepted placeholder is plain ASCII, so its byte length is its character count. */
  lemma {:induction false} AcceptedHoleIsAscii(body: string, c: Captures)
    requires FillHole(body, c).Ok?
    ensures ByteLen(body) == |body|
  {
    forall i | 0 <= i < |body| ensures IsAscii(body[i]) {
      var ch := body[i];
      if body != "#" {
        var digits := body[1..];
        var ds := if digits != [] && digits[0] == '+' then digits[1..] else digits;
        assert body == [body[0]] + digits;
        assert digits != [] ==> digits == [digits[0]] + digits[1..];
        assert ch == '+' || ch in ds;
      }
    }
    AsciiBytes(body);
  }

  function Emit(out: string, r: Result<string, TemplateError>): Result<string, TemplateError> {
    if r.Err? then r else Ok(out + r.value)
  }

  lemma {:induction false} EmitNothing(r: Result<string, TemplateError>)
    ensures Emit("", r) == r
  {
    if r.Ok? {
      assert "" + r.value == r.value;
    }
  }

  lemma {:induction false} EmitMore(out: string, piece: string, r: Result<string, TemplateError>)
    ensures Emit(out, Emit(piece, r)) == Emit(out + piece, r)
  {
    if r.Ok? {
      assert out + (piece + r.value) == out + piece + r.value;
    }
  }

  /** The rendering loop, as written: find the brace by byte offset, slice, then skip
      offset + 1 characters. */
  method Render(template: string, c: Captures) returns (r: Result<string, TemplateError>)
    ensures r == Substitute(Tokens(template), c)
  {
    var out := "";
    var pos := 0;
    assert template[0..] == template;
    EmitNothing(Substitute(Tokens(template), c));
    while pos < |template|
      invariant 0 <= pos <= |template|
      invariant Emit(out, Substitute(Tokens(template[pos..]), c)) == Substitute(Tokens(template), c)
    {
      var here := template[pos..];
      if here[0] != '{' {
        PlainStep(here, c);
        EmitMore(out, [here[0]], Substitute(Tokens(here[1..]), c));
        assert here[1..] == template[pos + 1..];
        out := out + [here[0]];
        pos := pos + 1;
        continue;
      }
      var rest := here[1..];
      var n := FindClose(rest);
      if n == |rest| {
        UnclosedStep(here, c);
        return Err(UnknownPlaceholder(rest));
      }
      var endRel := ByteLen(rest[..n]);
      var body := rest[..n];
      var piece := FillHole(body, c);
      HoleStep(here, n, c);
      if piece.Err? {
        return piece;
      }
      AcceptedHoleIsAscii(body, c);
      EmitMore(out, piece.value, Substitute(Tokens(here[n + 2..]), c));
      out := out + piece.value;
      pos := Min(|template|, pos + 1 + (endRel + 1));
      assert here[n + 2..] == template[pos..];
    }
    assert template[pos..] == [];
    assert out + [] == out;
    r := Ok(out);
  }

  lemma {:induction false} PlainStep(t: string, c: Captures)
    requires t != [] && t[0] != '{'
    ensures Substitute(Tokens(t), c) == Emit([t[0]], Substitute(Tokens(t[1..]), c))
  {
    assert Tokens(t)[1..] == Tokens(t[1..]);
  }

  lemma {:induction false} UnclosedStep(t: string, c: Captures)
    requires t != [] && t[0] == '{' && FindClose(t[1..]) == |t| - 1
    ensures Substitute(Tokens(t), c) == Err(UnknownPlaceholder(t[1..]))
  {
  }

  lemma {:induction false} HoleStep(t: string, n: nat, c: Captures)
    requires t != [] && t[0] == '{' && n == FindClose(t[1..]) < |t| - 1
    ensures var piece := FillHole(t[1..][..n], c);
            Substitute(Tokens(t), c)
            == if piece.Err? then piece else Emit(piece.value, Substitute(Tokens(t[n + 2..]), c))
  {
    assert t[1..][..n] == t[1..n + 1];
    assert Tokens(t)[1..] == Tokens(t[n + 2..]);
  }

  // ----- what a template means -----

  /** The placeholder is a plus sign and this number. */
  ghost predicate Numbers(body: string, n: nat) {
    body != [] && body[0] == '+' && Denotes(body[1..], n) && n <= U64_MAX
  }

  /** What a placeholder stands for: `#` for the tail, `+n` for the n-th capture, and nothing else. */
  lemma {:induction false} HoleMeans(body: string, c: Captures)
    ensures body == "#" ==> FillHole(body, c) == if c.hash.Some? then Ok(c.hash.value) else Err(NoHash)
    ensures forall n: nat :: Numbers(body, n) ==>
              FillHole(body, c) == if 1 <= n <= |c.pluses| then Ok(c.pluses[n - 1]) else Err(OutOfRange(n, |c.pluses|))
    ensures body != "#" && (forall n: nat :: !Numbers(body, n)) ==> FillHole(body, c) == Err(UnknownPlaceholder(body))
  {
    if body != [] && body[0] == '+' {
      forall n: nat ensures Numbers(body, n) <==> ParseU64(body[1..]) == Some(n) {
        ParsesExactlyWhen(body[1..], n);
      }
      if ParseU64(body[1..]).Some? {
        assert Numbers(body, ParseU64(body[1..]).value);
      }
    }
  }

  lemma {:induction false} FindsClose(body: string, b: string)
    requires '}' !in body
    ensures FindClose(body + "}" + b) == |body| && FindClose(body) == |body|
  {
    if body != [] {
      assert body == [body[0]] + body[1..];
      assert (body + "}" + b)[1..] == body[1..] + "}" + b;
      FindsClose(body[1..], b);
    }
  }

  /** Text without an opening brace goes through as it is. */
  lemma {:induction false} PlainThrough(a: string, rest: string, c: Captures)
    requires '{' !in a
    ensures Substitute(Tokens(a + rest), c) == Emit(a, Substitute(Tokens(rest), c))
  {
    if a == [] {
      assert a + rest == rest;
      EmitNothing(Substitute(Tokens(rest), c));
    } else {
      assert a == [a[0]] + a[1..];
      assert (a + rest)[1..] == a[1..] + rest;
      PlainThrough(a[1..], rest, c);
      PlainStep(a + rest, c);
      EmitMore([a[0]], a[1..], Substitute(Tokens(rest), c));
    }
  }

  lemma {:induction false} ClosedHole(body: string, b: string, c: Captures)
    requires '}' !in body
    ensures Substitute(Tokens("{" + body + "}" + b), c) ==
            (var piece := FillHole(body, c);
             if piece.Err? then piece else Emit(piece.value, Substitute(Tokens(b), c)))
    ensures Substitute(Tokens("{" + body), c) == Err(UnknownPlaceholder(body))
  {
    var whole := "{" + body + "}" + b;
    assert whole[1..] == body + "}" + b && whole[1..][..|body|] == body && whole[|body| + 2..] == b;
    FindsClose(body, b);
    HoleStep(whole, |body|, c);
    assert ("{" + body)[1..] == body;
    UnclosedStep("{" + body, c);
  }

  /** Text without an opening brace goes through; then the first pair of braces is replaced, or stops the
      rendering with its error; a brace that is never closed stops it too. */
  lemma {:induction false} TemplateMeans(a: string, body: string, b: string, c: Captures)
    requires '{' !in a && '}' !in body
    ensures Substitute(Tokens(a), c) == Ok(a)
    ensures Substitute(Tokens(a + ("{" + body + "}" + b)), c) ==
            (var piece := FillHole(body, c);
             if piece.Err? then piece else Emit(a + piece.value, Substitute(Tokens(b), c)))
    ensures Substitute(Tokens(a + ("{" + body)), c) == Err(UnknownPlaceholder(body))
  {
    PlainThrough(a, "", c);
    assert a + "" == a;
    ClosedHole(body, b, c);
    PlainThrough(a, "{" + body + "}" + b, c);
    PlainThrough(a, "{" + body, c);
    if FillHole(body, c).Ok? {
      EmitMore(a, FillHole(body, c).value, Substitute(Tokens(b), c));
    }
  }

  lemma {:induction false} PrintedHole(n: nat)
    requires 1 <= n <= U64_MAX
    ensures '}' !in "+" + Decimal(n) && Numbers("+" + Decimal(n), n)
  {
    DecimalReadsBack(n);
    assert ("+" + Decimal(n))[1..] == Decimal(n);
    assert Denotes(Decimal(n), n);
    assert forall x :: x in "+" + Decimal(n) ==> x == '+' || x in Decimal(n);
  }

  lemma {:induction false} OneHole(body: string, c: Captures)
    requires '}' !in body
    ensures Substitute(Tokens("{" + body + "}"), c) == FillHole(body, c)
  {
    ClosedHole(body, "", c);
    assert "{" + body + "}" + "" == "{" + body + "}";
    if FillHole(body, c).Ok? {
      assert FillHole(body, c).value + "" == FillHole(body, c).value;
    }
  }

  lemma {:induction false} NthHole(n: nat, c: Captures)
    requires 1 <= n <= |c.pluses| && n <= U64_MAX
    ensures Substitute(Tokens("{+" + Decimal(n) + "}"), c) == Ok(c.pluses[n - 1])
  {
    PrintedHole(n);
    HoleMeans("+" + Decimal(n), c);
    OneHole("+" + Decimal(n), c);
    assert "{+" + Decimal(n) + "}" == "{" + ("+" + Decimal(n)) + "}";
  }

  /** End to end: `{+n}` yields the topic's level at the place of the filter's n-th `+`. */
  lemma {:induction false} PlaceholderYieldsLevel(filter: string, topic: string, h: nat, i: nat, n: nat)
    requires Fits(Split(filter), Split(topic), h)
    requires i < h && Split(filter)[i] == "+" && PlusCount(Split(filter)[..i]) == n - 1 && n <= U64_MAX
    ensures var r := MatchLevels(ToSegments(Split(filter)), Split(topic));
            r.Some? && Substitute(Tokens("{+" + Decimal(n) + "}"), r.value) == Ok(Split(topic)[i])
  {
    FittingCaptures(Split(filter), Split(topic), h);
    NthHole(n, MatchLevels(ToSegments(Split(filter)), Split(topic)).value);
  }

  /** And `{#}` yields the topic from the place of the filter's `#` on. */
  lemma {:induction false} HashYieldsTail(filter: string, topic: string, h: nat)
    requires Fits(Split(filter), Split(topic), h)
    ensures var r := MatchLevels(ToSegments(Split(filter)), Split(topic));
            r.Some? && Substitute(Tokens("{#}"), r.value)
                       == if h < |Split(filter)| then Ok(Join(Split(topic)[h..])) else Err(NoHash)
  {
    FittingCaptures(Split(filter), Split(topic), h);
    OneHole("#", MatchLevels(ToSegments(Split(filter)), Split(topic)).value);
    assert "{" + "#" + "}" == "{#}";
  }

  /** Substitution fails or not, and how, by the shape of the captures alone. */
  lemma {:induction false} ShapeDecides(ts: seq<Token>, a: Captures, b: Captures)
    requires |a.pluses| == |b.pluses| && (a.hash.Some? <==> b.hash.Some?)
    ensures Substitute(ts, a).Ok? <==> Substitute(ts, b).Ok?
    ensures Substitute(ts, a).Err? ==> Substitute(ts, b) == Substitute(ts, a)
  {
    if ts == [] {
    } else {
      ShapeDecides(ts[1..], a, b);
    }
  }

  /** For a fixed filter and template, all matching topics render, or all fail with the same error. */
  lemma {:induction false} RenderingIsUniform(segs: seq<Segment>, template: string, topic: string, other: string)
    requires MatchLevels(segs, Split(topic)).Some? && MatchLevels(segs, Split(other)).Some?
    ensures var r := Substitute(Tokens(template), MatchLevels(segs, Split(topic)).value);
            var r' := Substitute(Tokens(template), MatchLevels(segs, Split(other)).value);
            (r.Ok? <==> r'.Ok?) && (r.Err? ==> r' == r)
  {
    CapturesHaveOneShape(segs, Split(topic));
    CapturesHaveOneShape(segs, Split(other));
    ShapeDecides(Tokens(template), MatchLevels(segs, Split(topic)).value, MatchLevels(segs, Split(other)).value);
  }
}
