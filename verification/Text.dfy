/** String operations the run-configuration store relies on: trimming, lines, replacement, decimal
    numbers. Strings are sequences of Unicode scalar values. */
module Text {
  import opened Common

  /** `char::is_whitespace` */
  predicate IsSpace(c: char) {
    || '\U{9}' <= c <= '\U{D}' || c == ' ' || c == '\U{85}' || c == '\U{A0}' || c == '\U{1680}'
    || '\U{2000}' <= c <= '\U{200A}' || c == '\U{2028}' || c == '\U{2029}' || c == '\U{202F}' || c == '\U{205F}'
       || c == '\U{3000}'
  }

  function TrimStart(s: string): string {
    if s != [] && IsSpace(s[0]) then TrimStart(s[1..]) else s
  }

  function TrimEnd(s: string): string {
    if s != [] && IsSpace(s[|s| - 1]) then TrimEnd(s[..|s| - 1]) else s
  }

  function Trim(s: string): string {
    TrimEnd(TrimStart(s))
  }

  /** Position of the first `c` in `s`, or its length. */
  function Find(s: string, c: char): (k: nat)
    ensures k <= |s| && (k < |s| ==> s[k] == c)
    ensures forall i :: 0 <= i < k ==> s[i] != c
  {
    if s == [] || s[0] == c then 0 else 1 + Find(s[1..], c)
  }

  lemma FindIs(s: string, c: char, k: nat)
    requires k <= |s| && (k < |s| ==> s[k] == c) && forall i :: 0 <= i < k ==> s[i] != c
    ensures Find(s, c) == k
  {
    hide Find;
  }

  /** A string that neither starts nor ends with white space. */
  predicate Tight(s: string) {
    s != [] && !IsSpace(s[0]) && !IsSpace(s[|s| - 1])
  }

  lemma TightTrims(s: string)
    requires Tight(s)
    ensures Trim(s) == s
  {
  }

  lemma SpacedTrims(s: string)
    requires Tight(s)
    ensures Trim([' '] + s) == s && Trim(s + [' ']) == s
  {
    var a, b := [' '] + s, s + [' '];
    assert a[1..] == s && TrimStart(a) == TrimStart(s) == s;
    assert b[..|b| - 1] == s && TrimStart(b) == b && TrimEnd(b) == TrimEnd(s) == s;
  }

  // ----- Lines -----

  function StripCr(line: string): string {
    if line != [] && line[|line| - 1] == '\r' then line[..|line| - 1] else line
  }

  /** `str::lines` */
  function Lines(text: string): seq<string> {
    if text == [] then []
    else
      var k := Find(text, '\n');
      if k == |text| then [text] else [StripCr(text[..k])] + Lines(text[k + 1..])
  }

  /** Each line followed by a newline. */
  function Unlines(lines: seq<string>): string {
    if lines == [] then [] else lines[0] + ['\n'] + Unlines(lines[1..])
  }

  /** A line that survives being written and read: no newline, no carriage return at its end. */
  predicate OneLine(line: string) {
    '\n' !in line && (line != [] ==> line[|line| - 1] != '\r')
  }

  lemma {:induction false} LinesUnlines(lines: seq<string>)
    requires forall i :: 0 <= i < |lines| ==> OneLine(lines[i])
    ensures Lines(Unlines(lines)) == lines
  {
    if lines != [] {
      var head, rest := lines[0], Unlines(lines[1..]);
      assert Unlines(lines) == head + ['\n'] + rest;
      hide Unlines;
      FirstLine(head, rest);
      hide Lines;
      LinesUnlines(lines[1..]);
      assert lines == [head] + lines[1..];
    }
  }

  lemma FirstLine(head: string, rest: string)
    requires OneLine(head)
    ensures Lines(head + ['\n'] + rest) == [head] + Lines(rest)
  {
    var text := head + ['\n'] + rest;
    assert text[|head|] == '\n' && text[..|head|] == head && text[|head| + 1..] == rest;
    assert StripCr(head) == head;
    FindIs(text, '\n', |head|);
    hide Find, StripCr, OneLine;
  }

  lemma {:induction false} UnlinesJoin(a: seq<string>, b: seq<string>)
    ensures Unlines(a + b) == Unlines(a) + Unlines(b)
  {
    if a == [] {
      assert a + b == b;
    } else {
      assert (a + b)[1..] == a[1..] + b;
      UnlinesJoin(a[1..], b);
    }
  }

  // ----- Escaping -----

  /** `str::replace` of one character by a string */
  function ReplaceChar(s: string, c: char, with: string): string {
    if s == [] then [] else (if s[0] == c then with else [s[0]]) + ReplaceChar(s[1..], c, with)
  }

  /** `str::replace` of a two-character pattern by one character, left to right */
  function ReplacePair(s: string, a: char, b: char, with: char): string {
    if |s| < 2 then s
    else if s[0] == a && s[1] == b then [with] + ReplacePair(s[2..], a, b, with)
    else [s[0]] + ReplacePair(s[1..], a, b, with)
  }

  /** `escape`: double the backslashes, then put one before each quote. */
  function Escape(s: string): string {
    ReplaceChar(ReplaceChar(s, '\\', ['\\', '\\']), '"', ['\\', '"'])
  }

  /** The two replacements of `parse_value`. */
  function Unescape(s: string): string {
    ReplacePair(ReplacePair(s, '\\', '"', '"'), '\\', '\\', '\\')
  }

  function EscapeOne(c: char): string {
    if c == '\\' then ['\\', '\\'] else if c == '"' then ['\\', '"'] else [c]
  }

  lemma {:induction false} ReplaceCharJoin(s: string, t: string, c: char, with: string)
    ensures ReplaceChar(s + t, c, with) == ReplaceChar(s, c, with) + ReplaceChar(t, c, with)
  {
    if s == [] {
      assert s + t == t;
    } else {
      assert (s + t)[1..] == s[1..] + t;
      ReplaceCharJoin(s[1..], t, c, with);
    }
  }

  lemma EscapeCons(c: char, s: string)
    ensures Escape([c] + s) == EscapeOne(c) + Escape(s)
  {
    assert ([c] + s)[1..] == s;
    var head := if c == '\\' then ['\\', '\\'] else [c];
    ReplaceCharJoin(head, ReplaceChar(s, '\\', ['\\', '\\']), '"', ['\\', '"']);
    assert ReplaceChar(head, '"', ['\\', '"']) == EscapeOne(c) by {
      assert head[1..] == [] || head[1..] == ['\\'];
    }
  }

  /** Backslashes doubled, quotes bare: what the first replacement leaves. */
  function Doubled(s: string): string {
    if s == [] then [] else (if s[0] == '\\' then ['\\', '\\'] else [s[0]]) + Doubled(s[1..])
  }

  /** The first replacement takes the backslash off each quote and touches nothing else. */
  lemma {:induction false} FirstReplace(s: string)
    ensures ReplacePair(Escape(s), '\\', '"', '"') == Doubled(s)
    ensures Escape(s) != [] ==> Escape(s)[0] != '"'
  {
    if s != [] {
      assert s == [s[0]] + s[1..];
      EscapeCons(s[0], s[1..]);
      FirstReplace(s[1..]);
      var e := Escape(s[1..]);
      hide Escape;
      if s[0] == '\\' {
        assert (['\\', '\\'] + e)[1..] == ['\\'] + e && (['\\'] + e)[1..] == e;
      } else if s[0] == '"' {
        assert (['\\', '"'] + e)[2..] == e;
      } else {
        assert ([s[0]] + e)[1..] == e;
      }
    }
  }

  lemma {:induction false} SecondReplace(s: string)
    ensures ReplacePair(Doubled(s), '\\', '\\', '\\') == s
  {
    if s != [] {
      SecondReplace(s[1..]);
      var d := Doubled(s[1..]);
      if s[0] == '\\' {
        assert (['\\', '\\'] + d)[2..] == d;
      } else {
        assert ([s[0]] + d)[1..] == d;
      }
    }
  }

  /** Reading back an escaped string gives the string, whatever quotes and backslashes it holds. */
  lemma UnescapeEscape(s: string)
    ensures Unescape(Escape(s)) == s
  {
    FirstReplace(s);
    SecondReplace(s);
  }

  // ----- Numbers -----

  const U64: nat := 0x1_0000_0000_0000_0000

  function Digit(d: nat): char
    requires d < 10
  {
    "0123456789"[d]
  }

  predicate IsDigit(c: char) { '0' <= c <= '9' }

  function DigitValue(c: char): nat
    requires IsDigit(c)
  {
    c as int - '0' as int
  }

  /** `u64` display */
  function Decimal(n: nat): (s: string)
    ensures s != [] && forall i :: 0 <= i < |s| ==> IsDigit(s[i])
  {
    if n < 10 then [Digit(n)] else Decimal(n / 10) + [Digit(n % 10)]
  }

  function DecimalValue(s: string): nat
    requires forall i :: 0 <= i < |s| ==> IsDigit(s[i])
  {
    if s == [] then 0 else 10 * DecimalValue(s[..|s| - 1]) + DigitValue(s[|s| - 1])
  }

  /** `str::parse::<u64>`: an optional plus, then digits, below 2^64. */
  function ParseU64(s: string): Option<nat> {
    var d := if s != [] && s[0] == '+' then s[1..] else s;
    if d != [] && (forall i :: 0 <= i < |d| ==> IsDigit(d[i])) && DecimalValue(d) < U64 then Some(DecimalValue(d))
    else None
  }

  lemma {:induction false} DecimalRoundTrip(n: nat)
    ensures DecimalValue(Decimal(n)) == n
  {
    if n >= 10 {
      DecimalRoundTrip(n / 10);
      var s := Decimal(n);
      assert s[..|s| - 1] == Decimal(n / 10);
    }
  }

  lemma ParseDecimal(n: nat)
    requires n < U64
    ensures ParseU64(Decimal(n)) == Some(n)
  {
    DecimalRoundTrip(n);
    hide Decimal, DecimalValue;
    assert Decimal(n)[0] != '+';
  }
}
