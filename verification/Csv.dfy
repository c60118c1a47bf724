/** The CSV payload decoder: one row, quoted fields with doubled quotes (section 2 of RFC 4180). */
module Csv {

  // ----- the parser -----

  /** The automaton on what is left of the row, the field so far, and whether inside quotes. */
  function Parse(s: string, cur: string, inQuotes: bool): (r: seq<string>)
    ensures r != []
    decreases |s|
  {
    if s == [] then [cur]
    else if s[0] == '"' && !inQuotes && cur == [] then Parse(s[1..], cur, true)
    else if s[0] == '"' && inQuotes then
      if |s| > 1 && s[1] == '"' then Parse(s[2..], cur + ['"'], true)
      else Parse(s[1..], cur, false)
    else if s[0] == ',' && !inQuotes then [cur] + Parse(s[1..], [], false)
    else Parse(s[1..], cur + [s[0]], inQuotes)
  }

  function ParseRow(s: string): seq<string> {
    Parse(s, [], false)
  }

  /** The loop with its one character of lookahead. */
  method ParseCsvRow(s: string) returns (out: seq<string>)
    ensures out == ParseRow(s)
  {
    out := [];
    var cur := "";
    var inQuotes := false;
    var i := 0;
    assert s[0..] == s;
    while i < |s|
      invariant 0 <= i <= |s|
      invariant out + Parse(s[i..], cur, inQuotes) == ParseRow(s)
      decreases |s| - i
    {
      var c := s[i];
      ghost var here := s[i..];
      i := i + 1;
      assert here[1..] == s[i..];
      if c == '"' && !inQuotes && cur == [] {
        inQuotes := true;
      } else if c == '"' && inQuotes {
        if i < |s| && s[i] == '"' {
          assert here[1] == s[i] && here[2..] == s[i + 1..];
          i := i + 1;
          cur := cur + ['"'];
        } else {
          assert |here| > 1 ==> here[1] == s[i];
          inQuotes := false;
        }
      } else if c == ',' && !inQuotes {
        assert out + ([cur] + Parse(s[i..], [], false)) == out + [cur] + Parse(s[i..], [], false);
        out, cur := out + [cur], "";
      } else {
        cur := cur + [c];
      }
    }
    assert s[i..] == [];
    out := out + [cur];
  }

  /** `text.lines().next()`: up to the first line feed, without a carriage return before it. */
  function UpToNewline(s: string): string {
    if s == [] || s[0] == '\n' then [] else [s[0]] + UpToNewline(s[1..])
  }

  function FirstLine(s: string): string {
    var line := UpToNewline(s);
    if line != [] && line[|line| - 1] == '\r' && |line| < |s| then line[..|line| - 1] else line
  }

  lemma {:induction false} StopsAtNewline(line: string, more: string)
    requires '\n' !in line && (more == [] || more[0] == '\n')
    ensures UpToNewline(line + more) == line
  {
    if line == [] {
      assert line + more == more;
    } else {
      assert line[0] in line && forall c :: c in line[1..] ==> c in line;
      assert (line + more)[1..] == line[1..] + more;
      StopsAtNewline(line[1..], more);
    }
  }

  /** The row of a payload is its text up to the first line feed, less one carriage return right before
      that; without a line feed it is the whole text, carriage return and all. */
  lemma {:induction false} FirstLineIs(line: string, more: string)
    requires '\n' !in line
    ensures FirstLine(line) == line
    ensures FirstLine(line + "\r\n" + more) == line
    ensures (line == [] || line[|line| - 1] != '\r') ==> FirstLine(line + "\n" + more) == line
  {
    StopsAtNewline(line, []);
    assert line + [] == line;
    StopsAtNewline(line + "\r", "\n" + more);
    assert line + "\r\n" + more == line + "\r" + ("\n" + more);
    assert (line + "\r")[..|line|] == line;
    StopsAtNewline(line, "\n" + more);
    assert line + "\n" + more == line + ("\n" + more);
  }

  function DecodeCsv(text: string): seq<string> {
    ParseRow(FirstLine(text))
  }

  // ----- the printer -----

  datatype Field = Field(text: string, quoted: bool)

  function Doubled(s: string): string {
    if s == [] then [] else (if s[0] == '"' then ['"', '"'] else [s[0]]) + Doubled(s[1..])
  }

  function PrintField(f: Field): string {
    if f.quoted then ['"'] + Doubled(f.text) + ['"'] else f.text
  }

  function Print(fs: seq<Field>): string {
    if fs == [] then [] else if |fs| == 1 then PrintField(fs[0]) else PrintField(fs[0]) + [','] + Print(fs[1..])
  }

  function Texts(fs: seq<Field>): (r: seq<string>)
    ensures |r| == |fs| && forall i :: 0 <= i < |fs| ==> r[i] == fs[i].text
  {
    if fs == [] then [] else [fs[0].text] + Texts(fs[1..])
  }

  /** A field that needs no quotes: no comma in it, no quote in front. */
  predicate Bare(s: string) {
    ',' !in s && (s == [] || s[0] != '"')
  }

  predicate SafelyQuoted(f: Field) {
    f.quoted || Bare(f.text)
  }

  /** What may follow a field: the end, or a comma. */
  predicate Ends(rest: string) {
    rest == [] || rest[0] == ','
  }

  lemma {:induction false} ParseQuoted(text: string, cur: string, rest: string)
    requires Ends(rest)
    ensures Parse(Doubled(text) + ['"'] + rest, cur, true) == Parse(rest, cur + text, false)
  {
    var s := Doubled(text) + ['"'] + rest;
    if text == [] {
      assert s[1..] == rest && cur + text == cur;
    } else {
      ParseQuoted(text[1..], cur + [text[0]], rest);
      assert cur + [text[0]] + text[1..] == cur + text;
      if text[0] == '"' {
        assert s[2..] == Doubled(text[1..]) + ['"'] + rest;
      } else {
        assert s[1..] == Doubled(text[1..]) + ['"'] + rest;
      }
    }
  }

  lemma {:induction false} ParseBare(text: string, cur: string, rest: string)
    requires ',' !in text && (cur != [] || Bare(text)) && Ends(rest)
    ensures Parse(text + rest, cur, false) == Parse(rest, cur + text, false)
  {
    if text == [] {
      assert text + rest == rest && cur + text == cur;
    } else {
      assert text[0] in text;
      assert (text + rest)[1..] == text[1..] + rest;
      assert cur + [text[0]] + text[1..] == cur + text;
      ParseBare(text[1..], cur + [text[0]], rest);
    }
  }

  lemma {:induction false} ParsePrintedField(f: Field, rest: string)
    requires SafelyQuoted(f) && Ends(rest)
    ensures Parse(PrintField(f) + rest, [], false) == Parse(rest, f.text, false)
  {
    if f.quoted {
      assert (PrintField(f) + rest)[1..] == Doubled(f.text) + ['"'] + rest;
      ParseQuoted(f.text, [], rest);
    } else {
      ParseBare(f.text, [], rest);
    }
    assert [] + f.text == f.text;
  }

  lemma {:induction false} RoundTrip(fs: seq<Field>)
    requires fs != [] && forall f :: f in fs ==> SafelyQuoted(f)
    ensures ParseRow(Print(fs)) == Texts(fs)
  {
    assert fs[0] in fs;
    if |fs| == 1 {
      ParsePrintedField(fs[0], []);
      assert PrintField(fs[0]) + [] == PrintField(fs[0]);
      assert Texts(fs) == [fs[0].text];
    } else {
      var rest := [','] + Print(fs[1..]);
      assert Print(fs) == PrintField(fs[0]) + rest;
      ParsePrintedField(fs[0], rest);
      assert rest[1..] == Print(fs[1..]);
      RoundTrip(fs[1..]);
    }
  }

  // ----- and only then -----

  function LeadingQuotes(s: string): nat {
    if s == [] || s[0] != '"' then 0 else 1 + LeadingQuotes(s[1..])
  }

  lemma {:induction false} FirstFieldExtends(s: string, cur: string, inQuotes: bool)
    ensures cur <= Parse(s, cur, inQuotes)[0]
    decreases |s|
  {
    if s == [] {
    } else {
      if s[0] == '"' && !inQuotes && cur == [] {
      } else if s[0] == '"' && inQuotes {
        if |s| > 1 && s[1] == '"' {
          FirstFieldExtends(s[2..], cur + ['"'], true);
        } else {
          FirstFieldExtends(s[1..], cur, false);
        }
      } else if s[0] == ',' && !inQuotes {
      } else {
        FirstFieldExtends(s[1..], cur + [s[0]], inQuotes);
      }
    }
  }

  lemma {:induction false} QuotesThenOther(q: string, c: char, s: string)
    requires (forall i :: 0 <= i < |q| ==> q[i] == '"') && c != '"' && q + [c] <= s
    ensures LeadingQuotes(s) == |q|
  {
    if q != [] {
      assert s[0] == q[0];
      assert q[1..] + [c] <= s[1..];
      QuotesThenOther(q[1..], c, s[1..]);
    } else {
      assert s[0] == c;
    }
  }

  lemma {:induction false} OnlyQuotes(q: string)
    requires forall i :: 0 <= i < |q| ==> q[i] == '"'
    ensures LeadingQuotes(q) == |q|
  {
    if q == [] {
    } else {
      OnlyQuotes(q[1..]);
    }
  }

  /** Inside quotes, a run of n quotes contributes at most n / 2 of them to the field's front. */
  lemma {:induction false} RunHalves(s: string, cur: string)
    requires forall i :: 0 <= i < |cur| ==> cur[i] == '"'
    ensures LeadingQuotes(Parse(s, cur, true)[0]) <= |cur| + LeadingQuotes(s) / 2
    decreases |s|
  {
    OnlyQuotes(cur);
    if s == [] {
    } else {
      if s[0] != '"' {
        FirstFieldExtends(s[1..], cur + [s[0]], true);
        QuotesThenOther(cur, s[0], Parse(s, cur, true)[0]);
      } else if |s| > 1 && s[1] == '"' {
        assert s[1..][1..] == s[2..];
        RunHalves(s[2..], cur + ['"']);
      } else if |s| > 1 && s[1] != ',' {
        assert s[1..][0] == s[1];
        FirstFieldExtends(s[2..], cur + [s[1]], false);
        assert s[1..][1..] == s[2..];
        QuotesThenOther(cur, s[1], Parse(s[1..], cur, false)[0]);
      } else if |s| > 1 {
        assert s[1..][0] == ',';
      }
    }
  }

  lemma {:induction false} RunStopsAtField(f: string, rest: string)
    requires Ends(rest)
    ensures LeadingQuotes(f + rest) == LeadingQuotes(f)
  {
    if f == [] {
      assert f + rest == rest;
    } else {
      assert (f + rest)[1..] == f[1..] + rest;
      RunStopsAtField(f[1..], rest);
    }
  }

  /** Bare text with a leading quote comes back changed, whatever follows it. */
  lemma {:induction false} LeadingQuoteIsLost(f: string, rest: string)
    requires f != [] && f[0] == '"' && Ends(rest)
    ensures ParseRow(f + rest)[0] != f
  {
    assert (f + rest)[1..] == f[1..] + rest;
    RunHalves(f[1..] + rest, []);
    RunStopsAtField(f[1..], rest);
    assert ParseRow(f + rest) == Parse(f[1..] + rest, [], true);
  }

  /** Bare text with a comma is cut at its first comma. */
  lemma {:induction false} CommaCuts(f: string, cur: string, rest: string)
    requires ',' in f && (cur != [] || f[0] != '"')
    ensures |Parse(f + rest, cur, false)[0]| < |cur| + |f|
  {
    assert (f + rest)[1..] == f[1..] + rest;
    if f[0] != ',' {
      assert f == [f[0]] + f[1..];
      CommaCuts(f[1..], cur + [f[0]], rest);
    }
  }

  lemma {:induction false} UnsafeFieldIsMisread(f: Field, rest: string)
    requires !SafelyQuoted(f) && Ends(rest)
    ensures ParseRow(PrintField(f) + rest)[0] != f.text
  {
    if f.text != [] && f.text[0] == '"' {
      LeadingQuoteIsLost(f.text, rest);
    } else {
      CommaCuts(f.text, [], rest);
    }
  }

  /** The printed row parses back to its fields exactly when every unquoted field has no comma
      and no leading quote. */
  lemma {:induction false} RoundTripExactlyWhen(fs: seq<Field>)
    requires fs != []
    ensures ParseRow(Print(fs)) == Texts(fs) <==> forall f :: f in fs ==> SafelyQuoted(f)
  {
    if forall f :: f in fs ==> SafelyQuoted(f) {
      RoundTrip(fs);
    } else {
      Misread(fs);
    }
  }

  lemma {:induction false} Misread(fs: seq<Field>)
    requires fs != [] && exists f :: f in fs && !SafelyQuoted(f)
    ensures ParseRow(Print(fs)) != Texts(fs)
  {
    var rest := if |fs| == 1 then [] else [','] + Print(fs[1..]);
    assert Print(fs) == PrintField(fs[0]) + rest;
    if !SafelyQuoted(fs[0]) {
      UnsafeFieldIsMisread(fs[0], rest);
    } else {
      assert fs == [fs[0]] + fs[1..];
      ParsePrintedField(fs[0], rest);
      assert rest[1..] == Print(fs[1..]);
      Misread(fs[1..]);
      assert ParseRow(Print(fs))[1..] == ParseRow(Print(fs[1..]));
      assert Texts(fs)[1..] == Texts(fs[1..]);
    }
  }

  // ----- whole payloads -----

  lemma {:induction false} DoubledAvoids(s: string, c: char)
    requires c !in s && c != '"'
    ensures c !in Doubled(s)
  {
    if s == [] {
    } else {
      assert s == [s[0]] + s[1..];
      DoubledAvoids(s[1..], c);
    }
  }

  /** Printing adds only quotes and commas. */
  lemma {:induction false} PrintAvoids(fs: seq<Field>, c: char)
    requires c != '"' && c != ',' && forall f :: f in fs ==> c !in f.text
    ensures c !in Print(fs)
  {
    if fs == [] {
    } else {
      assert fs == [fs[0]] + fs[1..];
      DoubledAvoids(fs[0].text, c);
      PrintAvoids(fs[1..], c);
    }
  }

  lemma {:induction false} LineOf(row: string, more: string)
    requires '\n' !in row
    ensures UpToNewline(row) == row && UpToNewline(row + ['\n'] + more) == row
  {
    if row == [] {
      assert (row + ['\n'] + more)[0] == '\n';
    } else {
      assert row[0] in row;
      assert (row + ['\n'] + more)[1..] == row[1..] + ['\n'] + more;
      LineOf(row[1..], more);
    }
  }

  /** A payload may end after the row or go on with further lines, which are ignored; line ends
      of either kind will do. */
  lemma {:induction false} PayloadRoundTrip(fs: seq<Field>, more: string)
    requires fs != []
    requires forall f :: f in fs ==> SafelyQuoted(f) && '\n' !in f.text && '\r' !in f.text
    ensures DecodeCsv(Print(fs)) == Texts(fs)
    ensures DecodeCsv(Print(fs) + ['\n'] + more) == Texts(fs)
    ensures DecodeCsv(Print(fs) + ['\r', '\n'] + more) == Texts(fs)
  {
    var row := Print(fs);
    RoundTrip(fs);
    PrintAvoids(fs, '\n');
    PrintAvoids(fs, '\r');
    LineOf(row, more);
    LineOf(row + ['\r'], more);
    assert row + ['\r'] + ['\n'] + more == row + ['\r', '\n'] + more;
    assert row != [] ==> row[|row| - 1] in row;
    assert (row + ['\r'])[..|row|] == row;
  }
}
