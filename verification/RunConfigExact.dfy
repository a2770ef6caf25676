/**
 Which stores survive printing and parsing: the parser never produces a '#' or a newline, so a store
 comes back exactly when it holds neither and records nothing the file format leaves out.
 */
module RunConfigExact {
  import opened Common
  import opened Text
  import opened RunConfig
  import opened RunConfigRoundTrip

  // ----- No operation of the parser introduces a '#' or a newline -----

  lemma {:induction false} TrimStartClean(s: string)
    requires Clean(s)
    ensures Clean(TrimStart(s))
  {
    if s != [] && IsSpace(s[0]) { TrimStartClean(s[1..]); }
  }

  lemma {:induction false} TrimEndClean(s: string)
    requires Clean(s)
    ensures Clean(TrimEnd(s))
  {
    if s != [] && IsSpace(s[|s| - 1]) { TrimEndClean(s[..|s| - 1]); }
  }

  lemma TrimClean(s: string)
    requires Clean(s)
    ensures Clean(Trim(s))
  {
    hide Clean, TrimStart, TrimEnd;
    TrimStartClean(s);
    TrimEndClean(TrimStart(s));
  }

  lemma {:induction false} PairClean(s: string, a: char, b: char, with: char)
    requires Clean(s) && with != '#' && with != '\n'
    ensures Clean(ReplacePair(s, a, b, with))
  {
    if |s| >= 2 {
      PairClean(s[1..], a, b, with);
      PairClean(s[2..], a, b, with);
    }
  }

  lemma UnescapeClean(s: string)
    requires Clean(s)
    ensures Clean(Unescape(s))
  {
    hide Clean, ReplacePair;
    PairClean(s, '\\', '"', '"');
    PairClean(ReplacePair(s, '\\', '"', '"'), '\\', '\\', '\\');
  }

  lemma {:induction false} SlashesClean(s: string)
    requires Clean(s)
    ensures Clean(ReplaceChar(s, '\\', "/"))
  {
    if s != [] { SlashesClean(s[1..]); }
  }

  ghost predicate AllClean(parts: seq<string>) {
    forall i :: 0 <= i < |parts| ==> Clean(parts[i])
  }

  lemma {:induction false} SplitClean(s: string, c: char)
    requires Clean(s)
    ensures AllClean(Split(s, c))
    decreases |s|
  {
    var k := Find(s, c);
    hide Find;
    if k < |s| { SplitClean(s[k + 1..], c); }
  }

  lemma {:induction false} ComponentsClean(parts: seq<string>, kept: seq<string>)
    requires AllClean(parts) && AllClean(kept)
    ensures Components(parts, kept).Some? ==> AllClean(Components(parts, kept).value)
    decreases |parts|
  {
    hide Clean;
    if parts != [] {
      ComponentsClean(parts[1..], kept);
      ComponentsClean(parts[1..], kept + [parts[0]]);
      if kept != [] { ComponentsClean(parts[1..], kept[..|kept| - 1]); }
    }
  }

  lemma {:induction false} JoinClean(parts: seq<string>)
    requires AllClean(parts)
    ensures Clean(JoinParts(parts))
  {
    if |parts| > 1 { JoinClean(parts[1..]); }
  }

  lemma PathClean(s: string)
    requires Clean(s)
    ensures ParsePath(s).Some? ==> Clean(ParsePath(s).value.text)
  {
    assert Clean("");
    hide Clean, Trim, Split, Components, JoinParts, ReplaceChar, AllClean;
    var raw := Trim(s);
    TrimClean(s);
    SlashesClean(raw);
    SplitClean(ReplaceChar(raw, '\\', "/"), '/');
    NoneClean();
    ComponentsClean(Split(ReplaceChar(raw, '\\', "/"), '/'), []);
    var parts := Components(Split(ReplaceChar(raw, '\\', "/"), '/'), []);
    if parts.Some? { JoinClean(parts.value); }
  }

  lemma NoneClean()
    ensures AllClean([])
  {
  }

  // ----- Every state of the parser is clean -----

  ghost predicate CleanMap(v: map<string, string>) {
    forall k :: k in v ==> Clean(v[k])
  }

  ghost predicate CleanMaps(ms: seq<map<string, string>>) {
    forall i :: 0 <= i < |ms| ==> CleanMap(ms[i])
  }

  ghost predicate CleanRaw(raw: Raw) {
    CleanMap(raw.values) && CleanMaps(raw.mounts) && AllClean(raw.breakpoints)
  }

  ghost predicate CleanRaws(raws: seq<Raw>) {
    forall i :: 0 <= i < |raws| ==> CleanRaw(raws[i])
  }

  ghost predicate CleanParser(p: Parser) {
    && CleanRaws(p.sections) && (p.current.Some? ==> CleanRaw(p.current.value))
       && (p.mount.Some? ==> CleanMap(p.mount.value))
  }

  lemma UncommentClean(line: string)
    requires '\n' !in line
    ensures Clean(Uncomment(line))
  {
    var k := Find(line, '#');
    hide Find, Trim;
    assert Clean(line[..k]);
    TrimClean(line[..k]);
  }

  lemma KeyValueClean(line: string, n: nat)
    requires Clean(line)
    ensures ParseKeyValue(line, n).Ok? ==> Clean(ParseKeyValue(line, n).value.1)
  {
    var k := Find(line, '=');
    hide Find, Trim, ParseU64, Unescape;
    if k < |line| {
      TrimClean(line[k + 1..]);
      var v := Trim(line[k + 1..]);
      if |v| >= 2 { UnescapeClean(v[1..|v| - 1]); }
    }
  }

  lemma FlushClean(p: Parser, n: nat)
    requires CleanParser(p)
    ensures Flush(p, n).Ok? ==> CleanParser(Flush(p, n).value)
  {
    hide CleanMap, AllClean, CleanRaws;
  }

  lemma StoreClean(p: Parser, key: string, value: string, n: nat)
    requires CleanParser(p) && Clean(value)
    ensures Store(p, key, value, n).Ok? ==> CleanParser(Store(p, key, value, n).value)
  {
    hide Clean, CleanRaws, CleanMaps;
  }

  lemma OpenClean(p: Parser, n: nat)
    requires CleanParser(p)
    ensures CleanParser(Parser(p.sections + Opt(p.current), Some(Raw(map[], [], [], n)), p.mount))
    ensures CleanParser(p.(mount := Some(map[])))
  {
    hide Clean;
  }

  lemma LineClean(p: Parser, line: string, n: nat)
    requires CleanParser(p) && Clean(line)
    ensures ParseLine(p, line, n).Ok? ==> CleanParser(ParseLine(p, line, n).value)
  {
    hide CleanParser, Clean, Flush, Store, ParseKeyValue;
    FlushClean(p, n);
    var q, kv := Flush(p, n), ParseKeyValue(line, n);
    if q.Ok? { OpenClean(q.value, n); }
    KeyValueClean(line, n);
    if kv.Ok? { StoreClean(p, kv.value.0, kv.value.1, n); }
  }

  ghost predicate NoNewlines(lines: seq<string>) {
    forall i :: 0 <= i < |lines| ==> '\n' !in lines[i]
  }

  lemma {:induction false} LinesClean(p: Parser, lines: seq<string>, n: nat)
    requires CleanParser(p) && NoNewlines(lines)
    ensures ParseLines(p, lines, n).Ok? ==> CleanParser(ParseLines(p, lines, n).value)
    decreases |lines|
  {
    hide CleanParser, ParseLine, Uncomment, Clean;
    if lines != [] {
      UncommentClean(lines[0]);
      LineClean(p, Uncomment(lines[0]), n);
      var r := ParseLine(p, Uncomment(lines[0]), n);
      if r.Ok? { LinesClean(r.value, lines[1..], n + 1); }
    }
  }

  lemma {:induction false} LinesNoNewlines(text: string)
    ensures NoNewlines(Lines(text))
    decreases |text|
  {
    if text != [] {
      var k := Find(text, '\n');
      hide Find;
      if k < |text| {
        assert '\n' !in text[..k] && '\n' !in StripCr(text[..k]);
        LinesNoNewlines(text[k + 1..]);
      } else {
        assert '\n' !in text;
      }
    }
  }

  // ----- Every configuration parsed is clean -----

  lemma {:induction false} MountsClean(ms: seq<map<string, string>>, line: nat)
    requires CleanMaps(ms)
    ensures var r := IntoMounts(ms, line); r.Ok? ==> forall i :: 0 <= i < |r.value| ==> CleanMount(r.value[i])
  {
    hide Clean, ParsePath;
    if ms != [] {
      MountsClean(ms[1..], line);
      var r := IntoMounts(ms, line);
      if r.Ok? {
        PathClean(ms[0]["host"]);
        assert CleanMap(ms[0]) && CleanMount(r.value[0]);
        assert r.value[1..] == IntoMounts(ms[1..], line).value;
      }
    }
  }

  lemma SectionClean(raw: Raw)
    requires CleanRaw(raw)
    ensures IntoConfig(raw).Ok? ==> CleanConfig(IntoConfig(raw).value)
  {
    var v := raw.values;
    MountsClean(raw.mounts, raw.firstLine);
    assert Clean("");
    assert Clean(Get(v, "name", "")) && Clean(Get(v, "autorun", ""));
    if "build" in v { PathClean(v["build"]); }
    if "root" in v { PathClean(v["root"]); }
    hide Clean, ParsePath, CleanMount, IntoMounts, ParseKind, ParsePresent, ParseU64, CleanMaps, CleanMap, Get;
  }

  lemma {:induction false} SectionsClean(raws: seq<Raw>)
    requires CleanRaws(raws)
    ensures IntoConfigs(raws).Ok? ==> CleanStore(IntoConfigs(raws).value)
  {
    hide CleanRaw, IntoConfig, CleanConfig;
    if raws != [] {
      SectionClean(raws[0]);
      SectionsClean(raws[1..]);
    }
  }

  /** Whatever the text, no configuration read from it holds a '#' or a newline. */
  lemma ParsedClean(text: string)
    ensures var r := ParseAll(Lines(text)); r.Ok? ==> CleanStore(r.value)
  {
    var lines, p := Lines(text), Parser([], None, None);
    LinesNoNewlines(text);
    LinesClean(p, lines, 1);
    hide Lines, ParseLines, CleanStore, NoNewlines, Flush, IntoConfigs;
    var q := ParseLines(p, lines, 1);
    if q.Ok? {
      var m := Max(|lines|, 1);
      FlushClean(q.value, m);
      var s := Flush(q.value, m);
      if s.Ok? { SectionsClean(s.value.sections + Opt(s.value.current)); }
    }
  }

  /** Printing and parsing gives back the store exactly when it is clean and faithful. */
  lemma RoundTripExact(configs: seq<Config>)
    requires Bounded(configs)
    ensures Reread(configs) == Ok(configs) <==> CleanStore(configs) && FaithfulStore(configs)
  {
    hide CleanStore, FaithfulStore, ParseAll, StoreLines, Lines, Unlines;
    ParsedClean(Unlines(StoreLines(configs)));
    if CleanStore(configs) {
      CleanRereads(configs);
    }
  }

  /** A configuration named "#", otherwise as plain as can be. */
  const HASH_NAMED: Config :=
    Config("#", false, Hosted, Manifest(VPath("")), [], Both, "", 0, false, [])

  /** Its name is printed and read back as something else. */
  lemma HashLost()
    ensures FaithfulStore([HASH_NAMED]) && Reread([HASH_NAMED]) != Ok([HASH_NAMED])
  {
    HashUnclean();
    hide CleanConfig, Reread, Faithful;
    assert [HASH_NAMED][0] == HASH_NAMED;
    RoundTripExact([HASH_NAMED]);
  }

  lemma HashUnclean()
    ensures !CleanConfig(HASH_NAMED) && Faithful(HASH_NAMED)
  {
    assert Trim("") == "" && ParsePath("") == Some(VPath(""));
    hide ParsePath;
    assert "#"[0] == '#' && !Clean("#");
  }

  /** The same, of the printer and the parser as they run. */
  method SaveAndLoad(configs: seq<Config>) returns (r: Result<seq<Config>, ParseError>)
    requires Bounded(configs)
    ensures r == Ok(configs) <==> CleanStore(configs) && FaithfulStore(configs)
  {
    hide CleanStore, FaithfulStore, ParseAll, StoreLines, Lines, Unlines, Bounded;
    RoundTripExact(configs);
    var text := ToToml(configs);
    r := Parse(text);
    assert r == Reread(configs);
  }
}
