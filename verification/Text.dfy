/** Decimal text: printing numbers, and parsing unsigned ones as the standard library does. */
module Text {
  import opened Prelude

  const U64_MAX: nat := 0xFFFF_FFFF_FFFF_FFFF

  predicate IsDigit(c: char) {
    '0' <= c <= '9'
  }

  predicate AllDigits(s: string) {
    forall c :: c in s ==> IsDigit(c)
  }

  function DecimalValue(s: string): nat
    requires AllDigits(s)
  {
    if s == [] then 0
    else
      var last := s[|s| - 1];
      assert IsDigit(last);
      10 * DecimalValue(s[..|s| - 1]) + ((last as int) - ('0' as int))
  }

  /** `str::parse` for a 64-bit unsigned type: one optional plus sign, then at least one digit,
      and a value that fits. */
  function ParseU64(s: string): Option<nat> {
    var ds := if s != [] && s[0] == '+' then s[1..] else s;
    if ds == [] || !AllDigits(ds) || DecimalValue(ds) > U64_MAX then None else Some(DecimalValue(ds))
  }

  /** The text is this number: digits, after at most one plus sign. */
  ghost predicate Denotes(s: string, n: nat) {
    exists ds :: (s == ds || s == "+" + ds) && ds != [] && AllDigits(ds) && DecimalValue(ds) == n
  }

  /** A text parses to a number exactly if it is that number and the number fits. */
  lemma {:induction false} ParsesExactlyWhen(s: string, n: nat)
    ensures ParseU64(s) == Some(n) <==> Denotes(s, n) && n <= U64_MAX
  {
    forall ds | (s == ds || s == "+" + ds) && ds != [] && AllDigits(ds)
      ensures ds == if s != [] && s[0] == '+' then s[1..] else s
    {
      assert ds[0] in ds && IsDigit(ds[0]);
    }
    if ParseU64(s) == Some(n) {
      var ds := if s != [] && s[0] == '+' then s[1..] else s;
      assert s == ds || s == "+" + ds;
    }
  }

  /** Unicode White_Space, which `str::trim` strips. */
  predicate IsBlank(c: char) {
    '\t' <= c <= '\r' || c == ' ' || c == '\U{85}' || c == '\U{A0}' || c == '\U{1680}' ||
    '\U{2000}' <= c <= '\U{200A}' || c == '\U{2028}' || c == '\U{2029}' || c == '\U{202F}' ||
    c == '\U{205F}' || c == '\U{3000}'
  }

  function TrimStart(s: string): string {
    if s != [] && IsBlank(s[0]) then TrimStart(s[1..]) else s
  }

  function TrimEnd(s: string): string {
    if s != [] && IsBlank(s[|s| - 1]) then TrimEnd(s[..|s| - 1]) else s
  }

  function Trim(s: string): string {
    TrimEnd(TrimStart(s))
  }

  ghost predicate AllBlank(s: string) {
    forall c :: c in s ==> IsBlank(c)
  }

  /** The core is what is left of the text between blanks, and neither begins nor ends with one. */
  ghost predicate Trimmed(text: string, core: string) {
    (exists a, b :: AllBlank(a) && AllBlank(b) && text == a + core + b) &&
    (core != [] ==> !IsBlank(core[0]) && !IsBlank(core[|core| - 1]))
  }

  lemma {:induction false} TrimStartTrims(s: string)
    ensures exists a :: AllBlank(a) && s == a + TrimStart(s)
    ensures TrimStart(s) != [] ==> !IsBlank(TrimStart(s)[0])
  {
    if s != [] && IsBlank(s[0]) {
      TrimStartTrims(s[1..]);
      var a :| AllBlank(a) && s[1..] == a + TrimStart(s[1..]);
      assert AllBlank([s[0]] + a) && s == [s[0]] + a + TrimStart(s);
    } else {
      assert AllBlank([]) && s == [] + TrimStart(s);
    }
  }

  lemma {:induction false} TrimEndTrims(s: string)
    ensures exists b :: AllBlank(b) && s == TrimEnd(s) + b
    ensures TrimEnd(s) != [] ==> !IsBlank(TrimEnd(s)[|TrimEnd(s)| - 1])
  {
    if s != [] && IsBlank(s[|s| - 1]) {
      var init := s[..|s| - 1];
      TrimEndTrims(init);
      var b :| AllBlank(b) && init == TrimEnd(init) + b;
      assert AllBlank(b + [s[|s| - 1]]) && s == TrimEnd(s) + (b + [s[|s| - 1]]);
    } else {
      assert AllBlank([]) && s == TrimEnd(s) + [];
    }
  }

  lemma {:induction false} TrimTrims(s: string)
    ensures Trimmed(s, Trim(s))
  {
    TrimStartTrims(s);
    TrimEndTrims(TrimStart(s));
    var a :| AllBlank(a) && s == a + TrimStart(s);
    var b :| AllBlank(b) && TrimStart(s) == Trim(s) + b;
    assert s == a + Trim(s) + b;
  }

  lemma {:induction false} TrimStartDrops(a: string, s: string)
    requires AllBlank(a) && (s != [] ==> !IsBlank(s[0]))
    ensures TrimStart(a + s) == s
  {
    if a == [] {
      assert a + s == s;
    } else {
      assert a[0] in a && forall c :: c in a[1..] ==> c in a;
      assert (a + s)[1..] == a[1..] + s;
      TrimStartDrops(a[1..], s);
    }
  }

  lemma {:induction false} TrimEndDrops(s: string, b: string)
    requires AllBlank(b) && (s != [] ==> !IsBlank(s[|s| - 1]))
    ensures TrimEnd(s + b) == s
  {
    if b == [] {
      assert s + b == s;
    } else {
      var init := b[..|b| - 1];
      assert b[|b| - 1] in b && forall c :: c in init ==> c in b;
      assert (s + b)[..|s + b| - 1] == s + init;
      TrimEndDrops(s, init);
    }
  }

  lemma {:induction false} BlankTrims(s: string)
    requires AllBlank(s)
    ensures TrimStart(s) == []
  {
    assert s + [] == s;
    TrimStartDrops(s, []);
  }

  /** Trimming is determined by what it leaves. */
  lemma {:induction false} TrimmedIsTrim(text: string, core: string)
    requires Trimmed(text, core)
    ensures Trim(text) == core
  {
    var a, b :| AllBlank(a) && AllBlank(b) && text == a + core + b;
    if core == [] {
      BlankTrims(text);
    } else {
      assert text == a + (core + b);
      TrimStartDrops(a, core + b);
      TrimEndDrops(core, b);
    }
  }

  // ----- printing -----

  function DigitChar(n: nat): (c: char)
    requires n < 10
    ensures IsDigit(c) && c as int == '0' as int + n
  {
    ('0' as int + n) as char
  }

  function Decimal(n: nat): string {
    if n < 10 then [DigitChar(n)] else Decimal(n / 10) + [DigitChar(n % 10)]
  }

  lemma {:induction false} DecimalReadsBack(n: nat)
    ensures Decimal(n) != [] && AllDigits(Decimal(n)) && DecimalValue(Decimal(n)) == n
  {
    if n < 10 {
      assert Decimal(n)[..0] == [];
    } else {
      DecimalReadsBack(n / 10);
      var ds := Decimal(n);
      assert ds[..|ds| - 1] == Decimal(n / 10) && ds[|ds| - 1] == DigitChar(n % 10);
    }
  }

  /** Parsing what was printed gives the number back. */
  lemma {:induction false} ParsePrinted(n: nat)
    requires n <= U64_MAX
    ensures ParseU64(Trim(Decimal(n))) == Some(n)
  {
    DecimalReadsBack(n);
    var ds := Decimal(n);
    assert ds[0] in ds && ds[|ds| - 1] in ds;
    assert IsDigit(ds[0]) && IsDigit(ds[|ds| - 1]);
    assert Trim(ds) == ds;
  }
}
