/**
 What the parser makes of files written by hand: keys left out, given twice or in the wrong place, and lines
 with white space and comments.
 */
module RunConfigByHand {
  import opened Common
  import opened Text
  import opened RunConfig
  import opened RunConfigRoundTrip

  // ----- Keys left out -----

  /** The fields whose keys are not left out. */
  function Without(fs: seq<Field>, omit: set<string>): seq<Field> {
    if fs == [] then [] else (if fs[0].key in omit then [] else [fs[0]]) + Without(fs[1..], omit)
  }

  lemma {:induction false} WithoutPlain(fs: seq<Field>, omit: set<string>)
    requires Plain(fs)
    ensures Plain(Without(fs, omit))
  {
    hide Reads;
    if fs != [] { WithoutPlain(fs[1..], omit); }
  }

  lemma {:induction false} WithoutInserts(values: map<string, string>, fs: seq<Field>, omit: set<string>)
    requires values.Keys !! omit
    ensures InsertAll(values, Without(fs, omit)) == InsertAll(values, fs) - omit
    decreases |fs|
  {
    if fs == [] {
      assert values - omit == values;
    } else {
      var f, rest := fs[0], Without(fs[1..], omit);
      if f.key in omit {
        assert [] + rest == rest;
        WithoutInserts(values, fs[1..], omit);
        assert values - omit == values[f.key := f.value] - omit;
        SameOutside(values, values[f.key := f.value], fs[1..], omit);
      } else {
        assert ([f] + rest)[1..] == rest;
        WithoutInserts(values[f.key := f.value], fs[1..], omit);
      }
    }
  }

  lemma {:induction false} SameOutside(a: map<string, string>, b: map<string, string>, fs: seq<Field>,
                                       omit: set<string>)
    requires a - omit == b - omit
    ensures InsertAll(a, fs) - omit == InsertAll(b, fs) - omit
    decreases |fs|
  {
    if fs != [] {
      var f := fs[0];
      var x, y := a[f.key := f.value] - omit, b[f.key := f.value] - omit;
      forall k | k in x || k in y ensures k in x && k in y && x[k] == y[k] {
        if k != f.key { assert k in a - omit && k in b - omit && (a - omit)[k] == (b - omit)[k]; }
      }
      assert x == y;
      SameOutside(a[f.key := f.value], b[f.key := f.value], fs[1..], omit);
    }
  }

  /** The keys that may be left out of `c`: those that would say what is assumed anyway. */
  ghost predicate MayOmit(c: Config, omit: set<string>) {
    && omit <= {"type", "present", "max_steps_per_frame", "debug"}
    && ("type" in omit ==> c.kind == Hosted) && ("present" in omit ==> c.present == Both)
    && ("max_steps_per_frame" in omit ==> c.maxSteps == 200000) && ("debug" in omit ==> !c.debug)
  }

  lemma KeptKeys(omit: set<string>)
    requires omit <= {"type", "present", "max_steps_per_frame", "debug"}
    ensures "name" !in omit && "build" !in omit && "root" !in omit && "autorun" !in omit
  {
    var keys := ["name", "type", "build", "root", "present", "autorun", "max_steps_per_frame", "debug"];
    KeysDiffer();
    assert keys[0] == "name" && keys[1] == "type" && keys[2] == "build" && keys[3] == "root";
    assert keys[4] == "present" && keys[5] == "autorun" && keys[6] == "max_steps_per_frame" && keys[7] == "debug";
  }

  lemma OmittedFound(v: map<string, string>, c: Config, omit: set<string>)
    requires Found(v, c) && MayOmit(c, omit)
    ensures FoundOr(v - omit, c)
  {
    KeptKeys(omit);
    hide KindLabel, PresentLabel, Decimal, FlagText, PathText;
  }

  lemma OmittedReread(c: Config, omit: set<string>, n: nat)
    requires c.maxSteps < U64 && Faithful(c) && MayOmit(c, omit)
    ensures IntoConfig(RawFor(Section(Without(Header(c), omit), c.breakpoints, c.mounts), n)) == Ok(c)
  {
    var s := Section(Without(Header(c), omit), c.breakpoints, c.mounts);
    hide IntoConfig, Faithful, Found, FoundOr, ValuesOf, InsertAll, Header, MountMaps, MayOmit, Without;
    HeaderInserts(c);
    WithoutInserts(map[], Header(c), omit);
    ValuesFound(c);
    OmittedFound(ValuesOf(c), c, omit);
    SectionReread(RawFor(s, n), c);
  }

  lemma OneSection(s: Section)
    requires CleanSection(s)
    ensures ParseAll(SectionLines(s)) == IntoConfigs([RawFor(s, 1)])
  {
    var lines, p := SectionLines(s), Parser([], None, None);
    hide CleanSection, SectionLines, ParseLines, Total, RawFor, IntoConfigs;
    var q := SectionParses(p, s, 1);
    FlushTotals(q, Max(|lines|, 1));
    EmptyTotal();
    assert [] + [RawFor(s, 1)] == [RawFor(s, 1)];
  }

  lemma OmittedClean(c: Config, omit: set<string>)
    requires CleanConfig(c) && c.maxSteps < U64
    ensures CleanSection(Section(Without(Header(c), omit), c.breakpoints, c.mounts))
  {
    HeaderReads(c);
    hide Header, Plain, Clean, CleanMount, Without;
    WithoutPlain(Header(c), omit);
  }

  lemma IntoOne(raw: Raw, c: Config)
    requires IntoConfig(raw) == Ok(c)
    ensures IntoConfigs([raw]) == Ok([c])
  {
    hide IntoConfig;
    assert [raw][1..] == [] && [c] + [] == [c];
  }

  /** A clean, faithful configuration is read even from a section that leaves out any of the keys whose
      values are the defaults: hosted, both presentations, 200000 steps, not debugged. */
  lemma DefaultsAssumed(c: Config, omit: set<string>)
    requires CleanConfig(c) && c.maxSteps < U64 && Faithful(c) && MayOmit(c, omit)
    ensures ParseAll(SectionLines(Section(Without(Header(c), omit), c.breakpoints, c.mounts))) == Ok([c])
  {
    hide *;
    var s := Section(Without(Header(c), omit), c.breakpoints, c.mounts);
    OmittedClean(c, omit);
    OneSection(s);
    OmittedReread(c, omit, 1);
    IntoOne(RawFor(s, 1), c);
  }

  /** What a source root is built for, kind by kind. */
  lemma TargetsWritten(c: Config)
    requires c.build.SourceWithDefaults? && Faithful(c)
    ensures c.kind == Hosted <==> c.build.target == HostedTarget
    ensures c.kind == KernelBoot <==> c.build.target == KernelTarget
    ensures c.kind == Freestanding <==> c.build.target == FreestandingTarget
  {
    hide Reparses;
  }

  // ----- Keys given twice or too early -----

  lemma {:induction false} LaterInserts(values: map<string, string>, fs: seq<Field>, key: string)
    requires forall j :: 0 <= j < |fs| ==> fs[j].key != key
    ensures key in InsertAll(values, fs) <==> key in values
    ensures key in values ==> InsertAll(values, fs)[key] == values[key]
    decreases |fs|
  {
    if fs != [] { LaterInserts(values[fs[0].key := fs[0].value], fs[1..], key); }
  }

  /** The last field with a key decides its value. */
  lemma {:induction false} LastInserts(values: map<string, string>, fs: seq<Field>, i: nat)
    requires i < |fs| && forall j :: i < j < |fs| ==> fs[j].key != fs[i].key
    ensures fs[i].key in InsertAll(values, fs) && InsertAll(values, fs)[fs[i].key] == fs[i].value
    decreases |fs|
  {
    if i == 0 {
      LaterInserts(values[fs[0].key := fs[0].value], fs[1..], fs[0].key);
    } else {
      assert fs[1..][i - 1] == fs[i];
      LastInserts(values[fs[0].key := fs[0].value], fs[1..], i - 1);
    }
  }

  /** In a section with several lines for one key the last one counts, and a key with no line has no value. */
  lemma LastKeyWins(s: Section, i: nat, key: string)
    requires CleanSection(s)
    ensures ParseAll(SectionLines(s)) == IntoConfigs([RawFor(s, 1)])
    ensures i < |s.fields| && s.fields[i].key == key && (forall j :: i < j < |s.fields| ==> s.fields[j].key != key) ==>
              key in RawFor(s, 1).values && RawFor(s, 1).values[key] == s.fields[i].value
    ensures (forall j :: 0 <= j < |s.fields| ==> s.fields[j].key != key) ==> key !in RawFor(s, 1).values
  {
    OneSection(s);
    hide CleanSection, SectionLines, ParseAll, IntoConfigs, InsertAll;
    if i < |s.fields| && s.fields[i].key == key && (forall j :: i < j < |s.fields| ==> s.fields[j].key != key) {
      LastInserts(map[], s.fields, i);
    }
    if forall j :: 0 <= j < |s.fields| ==> s.fields[j].key != key {
      LaterInserts(map[], s.fields, key);
    }
  }

  /** A key or a mount before the first configuration is an error, at its line. */
  lemma TooEarly(f: Field, rest: seq<string>)
    requires Reads(f)
    ensures ParseAll([LineOf(f)] + rest) == Err(ParseError(1, "key appears before [[config]]"))
    ensures ParseAll(["[[config.fs.mount]]"] + rest) == Err(ParseError(1, "mount appears before [[config]]"))
  {
    var p := Parser([], None, None);
    FieldParses(p, f, 1);
    MountLineRead();
    hide Reads, Uncomment, LineOf, ParseKeyValue;
    assert ([LineOf(f)] + rest)[0] == LineOf(f) && (["[[config.fs.mount]]"] + rest)[0] == "[[config.fs.mount]]";
  }

  // ----- Which lines and sections are refused -----

  /** A key line is refused, at its number, exactly when it has no equals sign or what follows the first one is
      neither in quotes nor true, false or a number. */
  lemma LineRefused(line: string, n: nat)
    ensures var k := Find(line, '='); var v := Trim(if k < |line| then line[k + 1..] else "");
            var quoted := |v| >= 2 && v[0] == '"' && v[|v| - 1] == '"';
            var ok := quoted || v == "true" || v == "false" || ParseU64(v).Some?;
            && (ParseKeyValue(line, n).Ok? <==> '=' in line && ok)
            && (ParseKeyValue(line, n).Err? ==> ParseKeyValue(line, n).error.line == n)
  {
    var k := Find(line, '=');
    assert k == |line| <==> '=' !in line;
    hide Find, Trim, ParseU64, Unescape;
  }

  /** A mount is usable when it has both keys and its host is a path. */
  predicate MountOk(m: map<string, string>) {
    "host" in m && "guest" in m && ParsePath(m["host"]).Some?
  }

  lemma {:induction false} MountsOk(ms: seq<map<string, string>>, line: nat)
    ensures IntoMounts(ms, line).Ok? <==> forall i :: 0 <= i < |ms| ==> MountOk(ms[i])
    ensures IntoMounts(ms, line).Err? ==> IntoMounts(ms, line).error.line == line
    ensures var r := IntoMounts(ms, line);
            r.Ok? ==> && |r.value| == |ms|
                      && forall i :: 0 <= i < |ms| ==>
                           MountOk(ms[i]) && r.value[i] == Mount(ParsePath(ms[i]["host"]).value, ms[i]["guest"])
  {
    hide ParsePath;
    if ms != [] {
      MountsOk(ms[1..], line);
      assert forall i :: 0 < i < |ms| ==> ms[i] == ms[1..][i - 1];
    }
  }

  ghost predicate TypeOk(v: map<string, string>) {
    "type" in v ==> v["type"] == "hosted" || v["type"] == "kernel" || v["type"] == "freestanding"
  }

  ghost predicate PresentOk(v: map<string, string>) {
    "present" in v ==> v["present"] == "terminal" || v["present"] == "framebuffer" || v["present"] == "both"
  }

  /** The build path, or else the root path, is given and is a path. */
  ghost predicate BuildOk(v: map<string, string>) {
    if "build" in v then ParsePath(v["build"]).Some? else "root" in v && ParsePath(v["root"]).Some?
  }

  ghost predicate StepsOk(v: map<string, string>) {
    "max_steps_per_frame" in v ==> ParseU64(v["max_steps_per_frame"]).Some?
  }

  /** A section is refused exactly when its type or presentation is unknown, its build and root paths are
      missing or the one that counts is no path, its step count is no number, or one of its mounts is unusable;
      a build path counts before a root path. */
  lemma RefusedExactly(raw: Raw)
    ensures IntoConfig(raw).Ok? <==>
            && TypeOk(raw.values) && PresentOk(raw.values) && BuildOk(raw.values) && StepsOk(raw.values)
            && forall i :: 0 <= i < |raw.mounts| ==> MountOk(raw.mounts[i])
    ensures IntoConfig(raw).Ok? ==> IntoConfig(raw).value.build.Manifest? == ("build" in raw.values)
    ensures IntoConfig(raw).Err? ==> IntoConfig(raw).error.line == raw.firstLine
  {
    MountsOk(raw.mounts, raw.firstLine);
    KindsKnown(Get(raw.values, "type", "hosted"));
    PresentsKnown(Get(raw.values, "present", "both"));
    hide ParsePath, ParseU64, ParseKind, ParsePresent, IntoMounts, MountOk;
  }

  lemma KindsKnown(s: string)
    ensures ParseKind(s).Some? <==> s == "hosted" || s == "kernel" || s == "freestanding"
  {
  }

  lemma PresentsKnown(s: string)
    ensures ParsePresent(s).Some? <==> s == "terminal" || s == "framebuffer" || s == "both"
  {
  }

  // ----- Numbers -----

  /** A number may have a plus in front, and is refused from 2^64 on. */
  lemma NumbersExact(n: nat)
    ensures ParseU64(Decimal(n)) == ParseU64("+" + Decimal(n))
    ensures ParseU64(Decimal(n)) == if n < 0x1_0000_0000_0000_0000 then Some(n) else None
  {
    DecimalRoundTrip(n);
    hide Decimal, DecimalValue;
    assert Decimal(n)[0] != '+';
    assert ("+" + Decimal(n))[1..] == Decimal(n);
  }

  // ----- White space and comments -----

  predicate Blank(w: string) {
    forall i :: 0 <= i < |w| ==> IsSpace(w[i])
  }

  lemma {:induction false} TrimStartBlank(w: string, s: string)
    requires Blank(w) && (s == [] || !IsSpace(s[0]))
    ensures TrimStart(w + s) == s
  {
    hide IsSpace;
    if w == [] {
      assert w + s == s;
    } else {
      assert (w + s)[1..] == w[1..] + s;
      TrimStartBlank(w[1..], s);
    }
  }

  lemma {:induction false} TrimEndBlank(s: string, w: string)
    requires Blank(w) && (s == [] || !IsSpace(s[|s| - 1]))
    ensures TrimEnd(s + w) == s
  {
    hide IsSpace;
    if w == [] {
      assert s + w == s;
    } else {
      var t := s + w;
      assert t[..|t| - 1] == s + w[..|w| - 1];
      TrimEndBlank(s, w[..|w| - 1]);
    }
  }

  /** White space around a tight string is dropped. */
  lemma TrimBlank(a: string, s: string, b: string)
    requires Blank(a) && Blank(b) && Tight(s)
    ensures Trim(a + s + b) == s
  {
    assert a + s + b == a + (s + b);
    TrimStartBlank(a, s + b);
    TrimEndBlank(s, b);
  }

  /** Nothing, or a comment. */
  predicate Comment(s: string) {
    s == "" || s[0] == '#'
  }

  lemma Uncommented(a: string, line: string, b: string, comment: string)
    requires Blank(a) && Blank(b) && Tight(line) && '#' !in line && Comment(comment)
    ensures Uncomment(a + line + b + comment) == line
  {
    var text := a + line + b;
    assert '#' !in a && '#' !in b;
    FindIs(text + comment, '#', |text|);
    hide Find;
    assert (text + comment)[..|text|] == text;
    TrimBlank(a, line, b);
  }

  lemma LooseShape(key: string, b: string, c: string, rendered: string)
    requires '=' !in key && '=' !in b
    ensures var l, k := key + b + "=" + c + rendered, |key + b|;
            && k < |l| && l[..k] == key + b && l[k + 1..] == c + rendered && Find(l, '=') == k
  {
    var l, k := key + b + "=" + c + rendered, |key + b|;
    assert l == (key + b) + (['='] + (c + rendered));
    assert l[..k] == key + b && l[k] == '=' && l[k + 1..] == c + rendered;
    assert '=' !in l[..k] && forall i :: 0 <= i < k ==> l[i] == l[..k][i];
    FindIs(l, '=', k);
  }

  lemma LooseSplits(f: Field, b: string, c: string, n: nat)
    requires Reads(f) && Blank(b) && Blank(c)
    ensures ParseKeyValue(f.key + b + "=" + c + f.rendered, n) == Ok((f.key, f.value))
  {
    assert '=' !in b;
    LooseShape(f.key, b, c, f.rendered);
    assert [] + f.key + b == f.key + b && c + f.rendered + [] == c + f.rendered;
    TrimBlank([], f.key, b);
    TrimBlank(c, f.rendered, []);
    hide Trim, ParseValue, Tight, IsSpace, Find;
  }

  lemma LooseTight(f: Field, b: string, c: string)
    requires Reads(f) && Blank(b) && Blank(c)
    ensures var l := f.key + b + "=" + c + f.rendered; Tight(l) && '#' !in l && l[0] != '['
  {
    hide ParseValue;
    var l := f.key + b + "=" + c + f.rendered;
    assert '#' !in b && '#' !in c;
    assert l[0] == f.key[0] && l[|l| - 1] == f.rendered[|f.rendered| - 1];
  }

  /** White space around a key, its value and the line, and a comment after it, change nothing. */
  lemma LooseFieldParses(p: Parser, f: Field, a: string, b: string, c: string, d: string, comment: string, n: nat)
    requires Reads(f) && Blank(a) && Blank(b) && Blank(c) && Blank(d) && Comment(comment)
    ensures ParseLine(p, Uncomment(a + (f.key + b + "=" + c + f.rendered) + d + comment), n) ==
            Store(p, f.key, f.value, n)
  {
    var l := f.key + b + "=" + c + f.rendered;
    hide Reads, Blank, Comment, Tight, ParseKeyValue, Uncomment, Flush, Store;
    LooseTight(f, b, c);
    LooseSplits(f, b, c, n);
    Uncommented(a, l, d, comment);
    assert l != [] by { LooseNonempty(f, b, c); }
  }

  lemma LooseNonempty(f: Field, b: string, c: string)
    ensures f.key + b + "=" + c + f.rendered != []
  {
    assert '=' in f.key + b + "=" + c + f.rendered;
  }

  /** Tabs, carriage returns and the other Unicode spaces are white space; letters, digits, quotes and
      brackets are not. */
  lemma SpacesAre(c: char)
    ensures c <= '~' ==>
              (IsSpace(c) <==> c == ' ' || c == '\t' || c == '\n' || c == '\r' || c == '\U{b}' || c == '\U{c}')
    ensures IsSpace('\U{a0}') && IsSpace('\U{2003}') && IsSpace('\U{3000}')
  {
  }
}
