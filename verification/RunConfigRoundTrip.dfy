/** What the parser makes of the printer's output, and exactly when that is the store printed. */
module RunConfigRoundTrip {
  import opened Common
  import opened Text
  import opened RunConfig

  // ----- Characters survive escaping -----

  lemma {:induction false} EscapeChars(s: string, c: char)
    requires c != '\\' && c != '"'
    ensures c in Escape(s) <==> c in s
  {
    if s == [] {
      assert Escape(s) == [];
    } else {
      assert s == [s[0]] + s[1..];
      EscapeCons(s[0], s[1..]);
      EscapeChars(s[1..], c);
      hide Escape;
    }
  }

  predicate Clean(s: string) {
    '#' !in s && '\n' !in s
  }

  // ----- One printed line -----

  ghost predicate GoodKey(key: string) {
    Tight(key) && '=' !in key && Clean(key) && key[0] != '['
  }

  ghost predicate GoodValue(rendered: string, value: string) {
    Tight(rendered) && Clean(rendered) && forall n: nat :: ParseValue(rendered, n) == Ok(value)
  }

  /** A key and its rendering that the parser reads back as key and value. */
  ghost predicate Reads(f: Field) {
    GoodKey(f.key) && GoodValue(f.rendered, f.value)
  }

  function LineOf(f: Field): string {
    KeyLine(f.key, f.rendered)
  }

  lemma TextReads(key: string, v: string)
    requires GoodKey(key) && Clean(v)
    ensures Reads(TextField(key, v))
  {
    hide GoodKey;
    var q := Quoted(v);
    EscapeChars(v, '#');
    EscapeChars(v, '\n');
    UnescapeEscape(v);
    hide Escape, Unescape, ParseU64;
    assert q[1..|q| - 1] == Escape(v);
    assert q[0] == '"' && q[|q| - 1] == '"';
  }

  lemma LineTight(f: Field)
    requires Reads(f)
    ensures Tight(LineOf(f)) && Clean(LineOf(f)) && OneLine(LineOf(f)) && LineOf(f)[0] == f.key[0]
  {
    hide ParseValue;
    var l := LineOf(f);
    assert l == f.key + (" = " + f.rendered);
    assert l[|l| - 1] == f.rendered[|f.rendered| - 1];
  }

  lemma LineUncomments(line: string)
    requires Tight(line) && '#' !in line
    ensures Uncomment(line) == line
  {
    FindIs(line, '#', |line|);
    assert line[..|line|] == line;
    TightTrims(line);
  }

  lemma LineSplits(f: Field, n: nat)
    requires Reads(f)
    ensures ParseKeyValue(LineOf(f), n) == Ok((f.key, f.value))
  {
    var l, k := LineOf(f), |f.key| + 1;
    assert l == f.key + " = " + f.rendered;
    assert l[..k] == f.key + [' '] && l[k] == '=' && l[k + 1..] == [' '] + f.rendered;
    SpacedTrims(f.key);
    SpacedTrims(f.rendered);
    assert forall i :: 0 <= i < k ==> l[i] != '=' by {
      forall i | 0 <= i < k ensures l[i] != '=' { assert l[i] == l[..k][i]; }
    }
    hide Trim, ParseValue, Tight;
    FindIs(l, '=', k);
  }

  /** A printed key line stores its key and value. */
  lemma FieldParses(p: Parser, f: Field, n: nat)
    requires Reads(f)
    ensures ParseLine(p, Uncomment(LineOf(f)), n) == Store(p, f.key, f.value, n)
  {
    LineTight(f);
    LineSplits(f, n);
    hide Reads, Tight, ParseKeyValue, Flush, LineOf, Uncomment;
    LineUncomments(LineOf(f));
    assert LineOf(f) != [] && LineOf(f)[0] != '[' by { LineStart(f); }
  }

  lemma LineStart(f: Field)
    requires Reads(f)
    ensures LineOf(f) != [] && LineOf(f)[0] != '['
  {
    hide ParseValue;
  }

  /** The lines the printer writes verbatim. */
  predicate Verbatim(line: string) {
    line == "" || line == "[[config]]" || line == "[[config.fs.mount]]"
  }

  lemma ConfigLineRead()
    ensures Uncomment("[[config]]") == "[[config]]" && OneLine("[[config]]")
  {
    hide Uncomment;
    LineUncomments("[[config]]");
  }

  lemma MountLineRead()
    ensures Uncomment("[[config.fs.mount]]") == "[[config.fs.mount]]" && OneLine("[[config.fs.mount]]")
  {
    hide Uncomment;
    LineUncomments("[[config.fs.mount]]");
  }

  lemma FixedLine(line: string)
    requires Verbatim(line)
    ensures Uncomment(line) == line && OneLine(line)
  {
    if line == "" {
      assert Uncomment("") == "";
    } else {
      hide Uncomment, OneLine;
      ConfigLineRead();
      MountLineRead();
    }
  }

  lemma BreakpointReads(v: string)
    requires Clean(v)
    ensures Reads(TextField("breakpoint", v))
  {
    hide Reads, GoodKey;
    LongKeys();
    TextReads("breakpoint", v);
  }

  /** The keys the printer uses. */
  lemma ShortKeys()
    ensures GoodKey("name") && GoodKey("type") && GoodKey("build") && GoodKey("root")
    ensures GoodKey("host") && GoodKey("guest") && GoodKey("debug")
  {
  }

  lemma LongKeys()
    ensures GoodKey("present") && GoodKey("autorun") && GoodKey("breakpoint")
  {
  }

  lemma LongestKey()
    ensures GoodKey("max_steps_per_frame")
  {
  }

  // ----- Many lines -----

  lemma {:induction false} ParseJoin(p: Parser, a: seq<string>, b: seq<string>, n: nat)
    ensures ParseLines(p, a + b, n) ==
            match ParseLines(p, a, n) case Err(e) => Err(e) case Ok(q) => ParseLines(q, b, n + |a|)
    decreases |a|
  {
    hide ParseLine, Uncomment;
    if a == [] {
      assert a + b == b;
    } else {
      assert (a + b)[1..] == a[1..] + b;
      var r := ParseLine(p, Uncomment(a[0]), n);
      if r.Ok? { ParseJoin(r.value, a[1..], b, n + 1); }
    }
  }

  /** Lines `n` on take the parser from `p` to `q`. */
  ghost predicate Takes(p: Parser, lines: seq<string>, n: nat, q: Parser) {
    ParseLines(p, lines, n) == Ok(q)
  }

  lemma TakesJoin(p: Parser, a: seq<string>, q: Parser, b: seq<string>, r: Parser, n: nat)
    requires Takes(p, a, n, q) && Takes(q, b, n + |a|, r)
    ensures Takes(p, a + b, n, r)
  {
    hide ParseLines;
    ParseJoin(p, a, b, n);
  }

  function InsertAll(values: map<string, string>, fs: seq<Field>): map<string, string>
    decreases |fs|
  {
    if fs == [] then values else InsertAll(values[fs[0].key := fs[0].value], fs[1..])
  }

  lemma {:induction false} InsertSnoc(values: map<string, string>, fs: seq<Field>, f: Field)
    ensures InsertAll(values, fs + [f]) == InsertAll(values, fs)[f.key := f.value]
    decreases |fs|
  {
    if fs != [] {
      assert (fs + [f])[1..] == fs[1..] + [f];
      InsertSnoc(values[fs[0].key := fs[0].value], fs[1..], f);
    }
  }

  ghost predicate AllRead(fs: seq<Field>) {
    forall i :: 0 <= i < |fs| ==> Reads(fs[i])
  }

  lemma {:induction false} FieldsParse(p: Parser, fs: seq<Field>, n: nat)
    requires AllRead(fs) && p.current.Some? && p.mount.None? && forall i :: 0 <= i < |fs| ==> fs[i].key != "breakpoint"
    ensures var raw := p.current.value;
            ParseLines(p, FieldLines(fs), n) == Ok(p.(current := Some(raw.(values := InsertAll(raw.values, fs)))))
    decreases |fs|
  {
    hide Reads, ParseLine, Uncomment, KeyLine;
    if fs != [] {
      var raw, f := p.current.value, fs[0];
      FieldParses(p, f, n);
      var q := p.(current := Some(raw.(values := raw.values[f.key := f.value])));
      var lines := FieldLines(fs);
      assert lines[0] == LineOf(f) && lines[1..] == FieldLines(fs[1..]);
      FieldsParse(q, fs[1..], n + 1);
    }
  }

  /** The open configuration with more breakpoints. */
  function WithBreakpoints(p: Parser, bs: seq<string>): Parser
    requires p.current.Some?
  {
    p.(current := Some(p.current.value.(breakpoints := p.current.value.breakpoints + bs)))
  }

  lemma BreakpointParses(p: Parser, b: string, n: nat)
    requires Clean(b) && p.current.Some? && p.mount.None?
    ensures ParseLine(p, Uncomment(BreakpointLine(b)), n) == Ok(WithBreakpoints(p, [b]))
  {
    hide Reads, ParseLine, Uncomment, KeyLine, Quoted, Clean;
    BreakpointReads(b);
    FieldParses(p, TextField("breakpoint", b), n);
  }

  lemma BreakpointsJoin(p: Parser, bs: seq<string>)
    requires p.current.Some?
    ensures bs == [] ==> WithBreakpoints(p, bs) == p
    ensures bs != [] ==> WithBreakpoints(WithBreakpoints(p, [bs[0]]), bs[1..]) == WithBreakpoints(p, bs)
  {
    var was := p.current.value.breakpoints;
    assert bs == [] ==> was + bs == was;
    assert bs != [] ==> was + [bs[0]] + bs[1..] == was + bs;
  }

  /** One line, then the rest. */
  lemma ParseCons(p: Parser, q: Parser, line: string, rest: seq<string>, n: nat)
    requires ParseLine(p, Uncomment(line), n) == Ok(q)
    ensures ParseLines(p, [line] + rest, n) == ParseLines(q, rest, n + 1)
  {
    hide ParseLine, Uncomment;
    assert ([line] + rest)[1..] == rest;
  }

  lemma {:induction false} BreakpointsParse(p: Parser, bs: seq<string>, n: nat)
    requires (forall i :: 0 <= i < |bs| ==> Clean(bs[i])) && p.current.Some? && p.mount.None?
    ensures ParseLines(p, BreakpointLines(bs), n) == Ok(WithBreakpoints(p, bs))
    decreases |bs|
  {
    BreakpointsJoin(p, bs);
    hide ParseLine, Uncomment, BreakpointLine, Clean;
    if bs != [] {
      BreakpointParses(p, bs[0], n);
      var q := WithBreakpoints(p, [bs[0]]);
      BreakpointsParse(q, bs[1..], n + 1);
      hide ParseLines, WithBreakpoints;
      ParseCons(p, q, BreakpointLine(bs[0]), BreakpointLines(bs[1..]), n);
    }
  }

  // ----- Mounts -----

  /** The open configuration with its open mount, if any, closed. */
  function Pending(p: Parser): Raw
    requires p.current.Some?
  {
    var raw := p.current.value;
    if p.mount.Some? then raw.(mounts := raw.mounts + [p.mount.value]) else raw
  }

  function MountMap(m: Mount): map<string, string> {
    map["host" := m.host.text, "guest" := m.guest]
  }

  ghost predicate CleanMount(m: Mount) {
    Clean(m.host.text) && Clean(m.guest)
  }

  function AfterMount(p: Parser, m: Mount): Parser
    requires p.current.Some?
  {
    Parser(p.sections, Some(Pending(p)), Some(MountMap(m)))
  }

  lemma MountKeysRead(m: Mount)
    requires CleanMount(m)
    ensures Reads(TextField("host", m.host.text)) && Reads(TextField("guest", m.guest))
  {
    hide Reads, Clean, GoodKey;
    ShortKeys();
    TextReads("host", m.host.text);
    TextReads("guest", m.guest);
  }

  lemma MountOpens(p: Parser, n: nat)
    requires p.current.Some?
    ensures ParseLine(p, Uncomment(""), n) == Ok(p)
    ensures ParseLine(p, Uncomment("[[config.fs.mount]]"), n) == Ok(Parser(p.sections, Some(Pending(p)), Some(map[])))
  {
    hide Uncomment, ParseKeyValue;
    FixedLine("");
    FixedLine("[[config.fs.mount]]");
  }

  lemma MountFills(p: Parser, m: Mount, n: nat)
    requires p.current.Some? && p.mount == Some(map[]) && CleanMount(m)
    ensures ParseLines(p, [KeyLine("host", Quoted(m.host.text)), KeyLine("guest", Quoted(m.guest))], n) ==
            Ok(p.(mount := Some(MountMap(m))))
  {
    hide Reads, ParseLine, Uncomment, KeyLine, Quoted, CleanMount;
    MountKeysRead(m);
    var h, g := TextField("host", m.host.text), TextField("guest", m.guest);
    FieldParses(p, h, n);
    var q := p.(mount := Some(map["host" := m.host.text]));
    FieldParses(q, g, n + 1);
    ParseCons(p, q, LineOf(h), [LineOf(g)], n);
    ParseCons(q, p.(mount := Some(MountMap(m))), LineOf(g), [], n + 1);
    assert [LineOf(h)] + [LineOf(g)] == [LineOf(h), LineOf(g)] && [LineOf(g)] + [] == [LineOf(g)];
  }

  lemma OneMountParses(p: Parser, m: Mount, n: nat)
    requires p.current.Some? && CleanMount(m)
    ensures ParseLines(p, OneMount(m), n) == Ok(AfterMount(p, m))
  {
    var fill := [KeyLine("host", Quoted(m.host.text)), KeyLine("guest", Quoted(m.guest))];
    assert OneMount(m) == [""] + (["[[config.fs.mount]]"] + fill);
    hide ParseLine, ParseLines, Uncomment, KeyLine, Quoted, CleanMount, OneMount;
    MountOpens(p, n);
    MountOpens(p, n + 1);
    var q := Parser(p.sections, Some(Pending(p)), Some(map[]));
    ParseCons(p, p, "", ["[[config.fs.mount]]"] + fill, n);
    ParseCons(p, q, "[[config.fs.mount]]", fill, n + 1);
    MountFills(q, m, n + 2);
  }

  /** The parser after the mounts `ms`: all but the last closed. */
  function AfterMounts(p: Parser, ms: seq<Mount>): Parser
    requires p.current.Some?
    decreases |ms|
  {
    if ms == [] then p else AfterMounts(AfterMount(p, ms[0]), ms[1..])
  }

  lemma {:induction false} MountsParse(p: Parser, ms: seq<Mount>, n: nat)
    requires p.current.Some? && forall i :: 0 <= i < |ms| ==> CleanMount(ms[i])
    ensures ParseLines(p, MountLines(ms), n) == Ok(AfterMounts(p, ms))
    decreases |ms|
  {
    if ms == [] { return; }
    hide OneMount, CleanMount, AfterMount, ParseLines;
    OneMountParses(p, ms[0], n);
    ParseJoin(p, OneMount(ms[0]), MountLines(ms[1..]), n);
    MountCurrent(p, ms[0]);
    MountsParse(AfterMount(p, ms[0]), ms[1..], n + |OneMount(ms[0])|);
  }

  lemma MountCurrent(p: Parser, m: Mount)
    requires p.current.Some?
    ensures AfterMount(p, m).current.Some?
  {
  }

  function MountMaps(ms: seq<Mount>): seq<map<string, string>> {
    if ms == [] then [] else [MountMap(ms[0])] + MountMaps(ms[1..])
  }

  lemma {:induction false} MountsPending(p: Parser, ms: seq<Mount>)
    requires p.current.Some?
    ensures var q := AfterMounts(p, ms);
            && q.current.Some? && q.sections == p.sections
            && Pending(q) == Pending(p).(mounts := Pending(p).mounts + MountMaps(ms))
    decreases |ms|
  {
    hide MountMap;
    var was := Pending(p).mounts;
    if ms == [] {
      assert was + [] == was;
    } else {
      MountsPending(AfterMount(p, ms[0]), ms[1..]);
      assert was + [MountMap(ms[0])] + MountMaps(ms[1..]) == was + ([MountMap(ms[0])] + MountMaps(ms[1..]));
    }
  }

  // ----- One configuration -----

  function PathText(b: BuildRef): string {
    match b case Manifest(p) => p.text case SourceWithDefaults(r, _) => r.text
  }

  /** No string of the configuration holds a '#' or a newline. */
  ghost predicate CleanConfig(c: Config) {
    && Clean(c.name) && Clean(PathText(c.build)) && Clean(c.autorun)
    && (forall i :: 0 <= i < |c.breakpoints| ==> Clean(c.breakpoints[i]))
    && (forall i :: 0 <= i < |c.mounts| ==> CleanMount(c.mounts[i]))
  }

  lemma LabelsClean(c: Config)
    ensures Clean(KindLabel(c.kind)) && Clean(PresentLabel(c.present))
  {
  }

  lemma NumberClean(n: nat)
    ensures Tight(Decimal(n)) && Clean(Decimal(n))
  {
    hide Decimal;
    var d := Decimal(n);
    assert IsDigit(d[0]) && IsDigit(d[|d| - 1]);
  }

  lemma NumberReads(n: nat)
    requires n < U64
    ensures Reads(Field("max_steps_per_frame", Decimal(n), Decimal(n)))
  {
    LongestKey();
    ParseDecimal(n);
    NumberClean(n);
    assert IsDigit(Decimal(n)[0]);
    hide Decimal, ParseU64, GoodKey, Tight, Clean;
  }

  lemma FlagReads(b: bool)
    ensures Reads(Field("debug", FlagText(b), FlagText(b)))
  {
    ShortKeys();
    hide GoodKey;
  }

  ghost predicate Plain(fs: seq<Field>) {
    AllRead(fs) && forall i :: 0 <= i < |fs| ==> fs[i].key != "breakpoint"
  }

  lemma PlainSnoc(fs: seq<Field>, f: Field)
    requires Plain(fs) && Reads(f) && f.key != "breakpoint"
    ensures Plain(fs + [f])
  {
    hide Reads;
  }

  lemma TopReads(c: Config)
    requires CleanConfig(c)
    ensures Plain(HeaderTop(c))
  {
    hide Reads, Clean, Quoted, KindLabel, PresentLabel, GoodKey;
    ShortKeys();
    LongKeys();
    LabelsClean(c);
    TextReads("name", c.name);
    TextReads("type", KindLabel(c.kind));
    TextReads("present", PresentLabel(c.present));
    TextReads("build", PathText(c.build));
    TextReads("root", PathText(c.build));
  }

  lemma HeaderReads(c: Config)
    requires CleanConfig(c) && c.maxSteps < U64
    ensures Plain(Header(c))
  {
    TopReads(c);
    assert Clean(c.autorun);
    hide Reads, Clean, Quoted, Decimal, HeaderTop, CleanConfig, GoodKey, Plain;
    LongKeys();
    TextReads("autorun", c.autorun);
    NumberReads(c.maxSteps);
    FlagReads(c.debug);
    var h1 := if c.autorun == [] then HeaderTop(c) else HeaderTop(c) + [TextField("autorun", c.autorun)];
    var f2, f3 := Field("max_steps_per_frame", Decimal(c.maxSteps), Decimal(c.maxSteps)),
        Field("debug", FlagText(c.debug), FlagText(c.debug));
    if c.autorun != [] { PlainSnoc(HeaderTop(c), TextField("autorun", c.autorun)); }
    PlainSnoc(h1, f2);
    PlainSnoc(h1 + [f2], f3);
    assert Header(c) == h1 + [f2] + [f3];
  }

  function RawOf(c: Config, n: nat): Raw {
    Raw(InsertAll(map[], Header(c)), MountMaps(c.mounts), c.breakpoints, n)
  }

  /** The sections read so far, the open one included. */
  function Total(p: Parser): seq<Raw> {
    if p.current.None? then p.sections else p.sections + [Pending(p)]
  }

  lemma ConfigOpens(p: Parser, n: nat)
    requires p.current.None? ==> p.mount.None?
    ensures Takes(p, Head(), n, Opened(p, n))
  {
    hide Uncomment, ParseKeyValue;
    FixedLine("[[config]]");
    assert p.sections + [] == p.sections;
    var q := Parser(Total(p), Some(Raw(map[], [], [], n)), None);
    assert ParseLine(p, "[[config]]", n) == Ok(q);
    ParseCons(p, q, "[[config]]", [], n);
    assert ["[[config]]"] + [] == ["[[config]]"];
  }

  /** A section as written: its keys in order, its breakpoints and its mounts. */
  datatype Section = Section(fields: seq<Field>, breakpoints: seq<string>, mounts: seq<Mount>)

  /** Every line of the section is read as it was meant. */
  ghost predicate CleanSection(s: Section) {
    && Plain(s.fields) && (forall i :: 0 <= i < |s.breakpoints| ==> Clean(s.breakpoints[i]))
    && (forall i :: 0 <= i < |s.mounts| ==> CleanMount(s.mounts[i]))
  }

  function RawFor(s: Section, n: nat): Raw {
    Raw(InsertAll(map[], s.fields), MountMaps(s.mounts), s.breakpoints, n)
  }

  function WithHeader(p: Parser, s: Section, n: nat): Parser {
    p.(current := Some(Raw(InsertAll(map[], s.fields), [], [], n)))
  }

  lemma HeaderTakes(p: Parser, s: Section, n: nat, m: nat)
    requires CleanSection(s) && p.current == Some(Raw(map[], [], [], n)) && p.mount.None?
    ensures Takes(p, FieldLines(s.fields), m, WithHeader(p, s, n))
  {
    hide Reads, ParseLines, FieldLines, InsertAll, Clean, CleanMount;
    FieldsParse(p, s.fields, m);
  }

  /** The parser once a section's keys, breakpoints and mounts are read. */
  function WithBody(p: Parser, s: Section, n: nat): Parser {
    AfterMounts(WithBreaks(p, s, n), s.mounts)
  }

  function WithBreaks(p: Parser, s: Section, n: nat): Parser {
    WithBreakpoints(WithHeader(p, s, n), s.breakpoints)
  }

  lemma BreaksTake(p: Parser, s: Section, n: nat, m: nat)
    requires CleanSection(s) && p.mount.None?
    ensures Takes(WithHeader(p, s, n), BreakpointLines(s.breakpoints), m, WithBreaks(p, s, n))
  {
    hide Plain, InsertAll, ParseLines, BreakpointLines, CleanMount;
    BreakpointsParse(WithHeader(p, s, n), s.breakpoints, m);
  }

  lemma MountsTake(p: Parser, s: Section, n: nat, m: nat)
    requires CleanSection(s)
    ensures Takes(WithBreaks(p, s, n), MountLines(s.mounts), m, WithBody(p, s, n))
  {
    hide Plain, InsertAll, ParseLines, MountLines, Clean, CleanMount, AfterMounts;
    MountsParse(WithBreaks(p, s, n), s.mounts, m);
  }

  lemma BodyTakes(p: Parser, s: Section, n: nat, m: nat)
    requires CleanSection(s) && p.current == Some(Raw(map[], [], [], n)) && p.mount.None?
    ensures Takes(p, FieldLines(s.fields) + BreakpointLines(s.breakpoints) + MountLines(s.mounts), m, WithBody(p, s, n))
  {
    hide *;
    var a, b := FieldLines(s.fields), BreakpointLines(s.breakpoints);
    HeaderTakes(p, s, n, m);
    BreaksTake(p, s, n, m + |a|);
    MountsTake(p, s, n, m + |a + b|);
    TakesJoin(p, a, WithHeader(p, s, n), b, WithBreaks(p, s, n), m);
    TakesJoin(p, a + b, WithBreaks(p, s, n), MountLines(s.mounts), WithBody(p, s, n), m);
  }

  lemma BodyTotal(p: Parser, s: Section, n: nat)
    requires p.mount.None?
    ensures var q := WithBody(p, s, n); q.current.Some? && Total(q) == p.sections + [RawFor(s, n)]
  {
    MountsPending(WithBreaks(p, s, n), s.mounts);
    hide AfterMounts, InsertAll, MountMaps;
    assert [] + s.breakpoints == s.breakpoints && [] + MountMaps(s.mounts) == MountMaps(s.mounts);
  }

  lemma BlankTakes(p: Parser, n: nat)
    ensures Takes(p, [""], n, p)
  {
    hide Uncomment;
    FixedLine("");
    ParseCons(p, p, "", [], n);
    assert [""] + [] == [""];
  }

  function Head(): seq<string> {
    ["[[config]]"]
  }

  function Body(s: Section): seq<string> {
    FieldLines(s.fields) + BreakpointLines(s.breakpoints) + MountLines(s.mounts)
  }

  function SectionLines(s: Section): seq<string> {
    Head() + Body(s) + [""]
  }

  function SectionOf(c: Config): Section {
    Section(Header(c), c.breakpoints, c.mounts)
  }

  lemma ConfigIsSection(c: Config)
    ensures ConfigLines(c) == SectionLines(SectionOf(c))
  {
    hide FieldLines, Header, BreakpointLines, MountLines;
  }

  function Opened(p: Parser, n: nat): Parser {
    Parser(Total(p), Some(Raw(map[], [], [], n)), None)
  }

  lemma OpenedBody(p: Parser, s: Section, n: nat)
    requires CleanSection(s)
    ensures Takes(Opened(p, n), Body(s), n + 1, WithBody(Opened(p, n), s, n))
    ensures var q := WithBody(Opened(p, n), s, n); q.current.Some? && Total(q) == Total(p) + [RawFor(s, n)]
  {
    hide CleanSection, Total, Takes, WithBody, RawFor, FieldLines, BreakpointLines, MountLines;
    BodyTakes(Opened(p, n), s, n, n + 1);
    BodyTotal(Opened(p, n), s, n);
  }

  /** Reading one section, printed or written by hand, adds exactly what it says. */
  lemma SectionParses(p: Parser, s: Section, n: nat) returns (q: Parser)
    requires CleanSection(s) && (p.current.None? ==> p.mount.None?)
    ensures Takes(p, SectionLines(s), n, q) && q.current.Some? && Total(q) == Total(p) + [RawFor(s, n)]
  {
    LinesOf(s);
    hide *;
    q := WithBody(Opened(p, n), s, n);
    ConfigOpens(p, n);
    OpenedBody(p, s, n);
    TakesJoin(p, Head(), Opened(p, n), Body(s), q, n);
    BlankTakes(q, n + |Head() + Body(s)|);
    TakesJoin(p, Head() + Body(s), q, [""], q, n);
  }

  lemma LinesOf(s: Section)
    ensures SectionLines(s) == Head() + Body(s) + [""] && |Head()| == 1
  {
    hide Body;
  }

  lemma ConfigClean(c: Config)
    requires CleanConfig(c) && c.maxSteps < U64
    ensures CleanSection(SectionOf(c))
  {
    HeaderReads(c);
    hide Header, Plain, Clean, CleanMount;
  }

  /** Reading one printed configuration adds exactly its section. */
  lemma ConfigParses(p: Parser, c: Config, n: nat) returns (q: Parser)
    requires CleanConfig(c) && c.maxSteps < U64 && (p.current.None? ==> p.mount.None?)
    ensures Takes(p, ConfigLines(c), n, q) && q.current.Some? && Total(q) == Total(p) + [RawOf(c, n)]
  {
    RawIsFor(c, n);
    hide *;
    ConfigClean(c);
    ConfigIsSection(c);
    q := SectionParses(p, SectionOf(c), n);
  }

  lemma RawIsFor(c: Config, n: nat)
    ensures RawOf(c, n) == RawFor(SectionOf(c), n)
  {
    hide InsertAll, Header, MountMaps;
  }

  // ----- A store -----

  function RawsOf(configs: seq<Config>, n: nat): seq<Raw>
    decreases |configs|
  {
    if configs == [] then [] else [RawOf(configs[0], n)] + RawsOf(configs[1..], n + |ConfigLines(configs[0])|)
  }

  ghost predicate CleanStore(configs: seq<Config>) {
    forall i :: 0 <= i < |configs| ==> CleanConfig(configs[i])
  }

  /** Step counts are 64-bit. */
  predicate Bounded(configs: seq<Config>) {
    forall i :: 0 <= i < |configs| ==> configs[i].maxSteps < U64
  }

  lemma {:induction false} StoreParses(p: Parser, configs: seq<Config>, n: nat) returns (q: Parser)
    requires CleanStore(configs) && Bounded(configs) && (p.current.None? ==> p.mount.None?)
    ensures Takes(p, StoreLines(configs), n, q) && (q.current.None? ==> q.mount.None?)
            && Total(q) == Total(p) + RawsOf(configs, n)
    decreases |configs|
  {
    hide CleanConfig, ConfigLines, RawOf, Total, Takes;
    if configs == [] {
      q := p;
      NoStore(p, n);
    } else {
      var o := ConfigParses(p, configs[0], n);
      q := StoreParses(o, configs[1..], n + |ConfigLines(configs[0])|);
      StoreJoin(p, o, q, configs, n);
    }
  }

  lemma NoStore(p: Parser, n: nat)
    ensures Takes(p, StoreLines([]), n, p) && Total(p) == Total(p) + RawsOf([], n)
  {
  }

  lemma Reassociate<T>(a: seq<T>, x: T, b: seq<T>)
    ensures a + [x] + b == a + ([x] + b)
  {
  }

  lemma StoreJoin(p: Parser, o: Parser, q: Parser, configs: seq<Config>, n: nat)
    requires configs != [] && Takes(p, ConfigLines(configs[0]), n, o) && Total(o) == Total(p) + [RawOf(configs[0], n)]
    requires var m := n + |ConfigLines(configs[0])|;
             Takes(o, StoreLines(configs[1..]), m, q) && Total(q) == Total(o) + RawsOf(configs[1..], m)
    ensures Takes(p, StoreLines(configs), n, q) && Total(q) == Total(p) + RawsOf(configs, n)
  {
    hide ConfigLines, RawOf, Total, Takes;
    TakesJoin(p, ConfigLines(configs[0]), o, StoreLines(configs[1..]), q, n);
    Reassociate(Total(p), RawOf(configs[0], n), RawsOf(configs[1..], n + |ConfigLines(configs[0])|));
  }

  lemma FlushTotals(p: Parser, n: nat)
    requires p.current.None? ==> p.mount.None?
    ensures var q := Flush(p, n); q.Ok? && q.value.sections + Opt(q.value.current) == Total(p)
  {
    assert p.sections + [] == p.sections;
  }

  lemma ParsePrinted(configs: seq<Config>)
    requires CleanStore(configs) && Bounded(configs)
    ensures ParseAll(StoreLines(configs)) == IntoConfigs(RawsOf(configs, 1))
  {
    var lines, p := StoreLines(configs), Parser([], None, None);
    var q := StoreParses(p, configs, 1);
    hide ParseLines, Total, StoreLines, RawsOf, IntoConfigs;
    FlushTotals(q, Max(|lines|, 1));
    assert Total(p) == [] by { EmptyTotal(); }
    assert [] + RawsOf(configs, 1) == RawsOf(configs, 1);
  }

  lemma EmptyTotal()
    ensures Total(Parser([], None, None)) == []
  {
  }

  // ----- From sections back to configurations -----

  function TopValues(c: Config): map<string, string> {
    (if c.nameFromManifest then map[] else map["name" := c.name])["type" := KindLabel(c.kind)]
      [BuildField(c.build).key := PathText(c.build)]["present" := PresentLabel(c.present)]
  }

  function ValuesOf(c: Config): map<string, string> {
    (if c.autorun == [] then TopValues(c) else TopValues(c)["autorun" := c.autorun])
      ["max_steps_per_frame" := Decimal(c.maxSteps)]["debug" := FlagText(c.debug)]
  }

  lemma TopInserts(c: Config)
    ensures InsertAll(map[], HeaderTop(c)) == TopValues(c)
  {
    hide InsertAll, Quoted, KindLabel, PresentLabel;
    var f1, f2, f3 := TextField("type", KindLabel(c.kind)), BuildField(c.build),
        TextField("present", PresentLabel(c.present));
    var h0 := if c.nameFromManifest then [] else [TextField("name", c.name)];
    NoInserts(map[]);
    if !c.nameFromManifest {
      InsertSnoc(map[], [], TextField("name", c.name));
      assert [] + [TextField("name", c.name)] == [TextField("name", c.name)];
    }
    InsertSnoc(map[], h0, f1);
    InsertSnoc(map[], h0 + [f1], f2);
    InsertSnoc(map[], h0 + [f1] + [f2], f3);
  }

  lemma NoInserts(v: map<string, string>)
    ensures InsertAll(v, []) == v
  {
  }

  lemma HeaderInserts(c: Config)
    ensures InsertAll(map[], Header(c)) == ValuesOf(c)
  {
    TopInserts(c);
    hide InsertAll, Quoted, HeaderTop, TopValues, Decimal;
    var h1 := if c.autorun == [] then HeaderTop(c) else HeaderTop(c) + [TextField("autorun", c.autorun)];
    var f2, f3 := Field("max_steps_per_frame", Decimal(c.maxSteps), Decimal(c.maxSteps)),
        Field("debug", FlagText(c.debug), FlagText(c.debug));
    if c.autorun != [] { InsertSnoc(map[], HeaderTop(c), TextField("autorun", c.autorun)); }
    InsertSnoc(map[], h1, f2);
    InsertSnoc(map[], h1 + [f2], f3);
    assert Header(c) == h1 + [f2] + [f3];
  }

  /** Two keys differ in length or in a character. */
  predicate Differ(a: string, b: string) {
    |a| != |b| || (a != [] && b != [] && a[0] != b[0])
  }

  lemma KeysDiffer()
    ensures var keys := ["name", "type", "build", "root", "present", "autorun", "max_steps_per_frame", "debug"];
            forall i, j :: 0 <= i < j < |keys| ==> keys[i] != keys[j]
  {
    var keys := ["name", "type", "build", "root", "present", "autorun", "max_steps_per_frame", "debug"];
    assert forall i, j :: 0 <= i < j < |keys| ==> Differ(keys[i], keys[j]);
  }

  /** What the parser finds under each key. */
  ghost predicate Found(v: map<string, string>, c: Config) {
    && ("name" in v <==> !c.nameFromManifest) && ("name" in v ==> v["name"] == c.name)
    && "type" in v && v["type"] == KindLabel(c.kind)
    && ("build" in v <==> c.build.Manifest?) && ("build" in v ==> v["build"] == PathText(c.build))
    && ("root" in v <==> !c.build.Manifest?) && ("root" in v ==> v["root"] == PathText(c.build))
    && "present" in v && v["present"] == PresentLabel(c.present)
    && Get(v, "autorun", "") == c.autorun
    && "max_steps_per_frame" in v && v["max_steps_per_frame"] == Decimal(c.maxSteps)
    && "debug" in v && v["debug"] == FlagText(c.debug)
  }

  /** The same when `type`, `present`, `max_steps_per_frame` or `debug` is absent and `c` has its default. */
  ghost predicate FoundOr(v: map<string, string>, c: Config) {
    && ("name" in v <==> !c.nameFromManifest) && ("name" in v ==> v["name"] == c.name)
    && (if "type" in v then v["type"] == KindLabel(c.kind) else c.kind == Hosted)
    && ("build" in v <==> c.build.Manifest?) && ("build" in v ==> v["build"] == PathText(c.build))
    && ("root" in v <==> !c.build.Manifest?) && ("root" in v ==> v["root"] == PathText(c.build))
    && (if "present" in v then v["present"] == PresentLabel(c.present) else c.present == Both)
    && Get(v, "autorun", "") == c.autorun
    && (if "max_steps_per_frame" in v then v["max_steps_per_frame"] == Decimal(c.maxSteps) else c.maxSteps == 200000)
    && (if "debug" in v then v["debug"] == FlagText(c.debug) else !c.debug)
  }

  lemma TopFound(c: Config)
    ensures var v := TopValues(c);
            && ("name" in v <==> !c.nameFromManifest) && ("name" in v ==> v["name"] == c.name)
            && "type" in v && v["type"] == KindLabel(c.kind)
            && ("build" in v <==> c.build.Manifest?) && ("build" in v ==> v["build"] == PathText(c.build))
            && ("root" in v <==> !c.build.Manifest?) && ("root" in v ==> v["root"] == PathText(c.build))
            && "present" in v && v["present"] == PresentLabel(c.present) && "autorun" !in v
  {
    var keys := ["name", "type", "build", "root", "present", "autorun", "max_steps_per_frame", "debug"];
    KeysDiffer();
    assert keys[0] == "name" && keys[1] == "type" && keys[2] == "build" && keys[3] == "root" && keys[4] == "present"
           && keys[5] == "autorun";
    hide KindLabel, PresentLabel;
  }

  lemma ValuesFound(c: Config)
    ensures Found(ValuesOf(c), c)
  {
    var keys := ["name", "type", "build", "root", "present", "autorun", "max_steps_per_frame", "debug"];
    KeysDiffer();
    assert keys[0] == "name" && keys[1] == "type" && keys[2] == "build" && keys[3] == "root";
    assert keys[4] == "present" && keys[5] == "autorun" && keys[6] == "max_steps_per_frame" && keys[7] == "debug";
    TopFound(c);
    hide KindLabel, PresentLabel, Decimal, FlagText, TopValues, PathText;
  }

  /** The path printed as text parses back to itself. */
  predicate Reparses(p: VPath) {
    ParsePath(p.text) == Some(p)
  }

  function PathOf(b: BuildRef): VPath {
    match b case Manifest(p) => p case SourceWithDefaults(r, _) => r
  }

  /** What the file format does not record is as the parser fills it in. */
  ghost predicate Faithful(c: Config) {
    && Reparses(PathOf(c.build)) && (forall i :: 0 <= i < |c.mounts| ==> Reparses(c.mounts[i].host))
    && (c.build.SourceWithDefaults? ==> c.build.target == TargetForKind(c.kind))
    && (c.nameFromManifest ==> c.name == "")
  }

  lemma {:induction false} MountsReread(ms: seq<Mount>, line: nat)
    ensures IntoMounts(MountMaps(ms), line) == Ok(ms) <==> forall i :: 0 <= i < |ms| ==> Reparses(ms[i].host)
  {
    hide ParsePath;
    if ms != [] {
      MountsReread(ms[1..], line);
      assert MountMaps(ms)[1..] == MountMaps(ms[1..]);
      assert "host" != "guest" by { assert "host"[0] != "guest"[0]; }
      assert ms == [ms[0]] + ms[1..];
    }
  }

  lemma LabelsParse(c: Config)
    ensures ParseKind(KindLabel(c.kind)) == Some(c.kind) && ParsePresent(PresentLabel(c.present)) == Some(c.present)
    ensures FlagText(c.debug) == "true" <==> c.debug
  {
  }

  /** The configuration as the parser fills it in. */
  function Rebuilt(c: Config, path: VPath, mounts: seq<Mount>): Config {
    c.(name := if c.nameFromManifest then "" else c.name, mounts := mounts,
       build := if c.build.Manifest? then Manifest(path) else SourceWithDefaults(path, TargetForKind(c.kind)))
  }

  lemma SectionRebuilds(raw: Raw, c: Config)
    requires FoundOr(raw.values, c) && raw.breakpoints == c.breakpoints && c.maxSteps < U64
    ensures var path, mounts := ParsePath(PathText(c.build)), IntoMounts(raw.mounts, raw.firstLine);
            if path.Some? && mounts.Ok? then IntoConfig(raw) == Ok(Rebuilt(c, path.value, mounts.value))
              else IntoConfig(raw).Err?
  {
    LabelsParse(c);
    ParseDecimal(c.maxSteps);
    hide ParsePath, ParseKind, ParsePresent, KindLabel, PresentLabel, FlagText, ParseU64, Decimal, IntoMounts;
  }

  /** A configuration's section is read back as the configuration exactly when it is faithful. */
  lemma SectionReread(raw: Raw, c: Config)
    requires FoundOr(raw.values, c) && raw.mounts == MountMaps(c.mounts) && raw.breakpoints == c.breakpoints
             && c.maxSteps < U64
    ensures IntoConfig(raw) == Ok(c) <==> Faithful(c)
  {
    hide FoundOr, ParsePath, IntoMounts, MountMaps, IntoConfig;
    SectionRebuilds(raw, c);
    MountsReread(c.mounts, raw.firstLine);
    assert PathText(c.build) == PathOf(c.build).text;
  }

  lemma FoundMeans(v: map<string, string>, c: Config)
    requires Found(v, c)
    ensures FoundOr(v, c)
  {
    hide KindLabel, PresentLabel, Decimal, FlagText, PathText, Get;
  }

  lemma RawReread(c: Config, n: nat)
    requires c.maxSteps < U64
    ensures IntoConfig(RawOf(c, n)) == Ok(c) <==> Faithful(c)
  {
    hide IntoConfig, Faithful, Found, FoundOr, ValuesOf, InsertAll, Header, MountMaps;
    HeaderInserts(c);
    ValuesFound(c);
    FoundMeans(ValuesOf(c), c);
    SectionReread(RawOf(c, n), c);
  }

  ghost predicate FaithfulStore(configs: seq<Config>) {
    forall i :: 0 <= i < |configs| ==> Faithful(configs[i])
  }

  lemma IntoCons(raw: Raw, raws: seq<Raw>, c: Config, configs: seq<Config>)
    ensures IntoConfigs([raw] + raws) == Ok([c] + configs) <==>
            IntoConfig(raw) == Ok(c) && IntoConfigs(raws) == Ok(configs)
  {
    hide IntoConfig;
    assert ([raw] + raws)[1..] == raws;
    var r := IntoConfigs(raws);
    if r.Ok? && [c] + r.value == [c] + configs {
      assert ([c] + r.value)[1..] == ([c] + configs)[1..];
    }
    if IntoConfig(raw).Ok? && r.Ok? {
      var all := [IntoConfig(raw).value] + r.value;
      assert all[0] == IntoConfig(raw).value && all[1..] == r.value && ([c] + configs)[1..] == configs;
    }
  }

  lemma FaithfulCons(configs: seq<Config>)
    requires configs != []
    ensures FaithfulStore(configs) <==> Faithful(configs[0]) && FaithfulStore(configs[1..])
  {
    hide Faithful;
    if FaithfulStore(configs[1..]) && Faithful(configs[0]) {
      forall i | 0 <= i < |configs| ensures Faithful(configs[i]) {
        if i > 0 { assert configs[i] == configs[1..][i - 1]; }
      }
    }
  }

  lemma {:induction false} RawsReread(configs: seq<Config>, n: nat)
    requires Bounded(configs)
    ensures IntoConfigs(RawsOf(configs, n)) == Ok(configs) <==> FaithfulStore(configs)
    decreases |configs|
  {
    hide RawOf, IntoConfig, Faithful, ConfigLines;
    if configs != [] {
      var m := n + |ConfigLines(configs[0])|;
      RawReread(configs[0], n);
      RawsReread(configs[1..], m);
      IntoCons(RawOf(configs[0], n), RawsOf(configs[1..], m), configs[0], configs[1..]);
      hide IntoConfigs, FaithfulStore;
      FaithfulCons(configs);
      assert configs == [configs[0]] + configs[1..];
    }
  }

  // ----- Printed lines stay lines -----

  ghost predicate AllOneLine(lines: seq<string>) {
    forall i :: 0 <= i < |lines| ==> OneLine(lines[i])
  }

  lemma OneLineJoin(a: seq<string>, b: seq<string>)
    requires AllOneLine(a) && AllOneLine(b)
    ensures AllOneLine(a + b)
  {
    hide OneLine;
  }

  lemma {:induction false} FieldsOneLine(fs: seq<Field>)
    requires AllRead(fs)
    ensures AllOneLine(FieldLines(fs))
  {
    hide Reads, OneLine, Clean, Tight, KeyLine;
    if fs != [] {
      LineTight(fs[0]);
      FieldsOneLine(fs[1..]);
    }
  }

  lemma {:induction false} BreakpointsOneLine(bs: seq<string>)
    requires forall i :: 0 <= i < |bs| ==> Clean(bs[i])
    ensures AllOneLine(BreakpointLines(bs))
  {
    hide Reads, OneLine, Clean, Tight, KeyLine, Quoted;
    if bs != [] {
      BreakpointReads(bs[0]);
      LineTight(TextField("breakpoint", bs[0]));
      BreakpointsOneLine(bs[1..]);
    }
  }

  lemma MountOneLine(m: Mount)
    requires CleanMount(m)
    ensures AllOneLine(OneMount(m))
  {
    hide Reads, OneLine, Clean, Tight, KeyLine, Quoted, Uncomment, CleanMount;
    MountKeysRead(m);
    LineTight(TextField("host", m.host.text));
    LineTight(TextField("guest", m.guest));
    FixedLine("");
    FixedLine("[[config.fs.mount]]");
  }

  lemma {:induction false} MountsOneLine(ms: seq<Mount>)
    requires forall i :: 0 <= i < |ms| ==> CleanMount(ms[i])
    ensures AllOneLine(MountLines(ms))
  {
    hide AllOneLine, CleanMount, OneMount;
    if ms == [] {
      NoLines();
    } else {
      MountOneLine(ms[0]);
      MountsOneLine(ms[1..]);
      OneLineJoin(OneMount(ms[0]), MountLines(ms[1..]));
    }
  }

  lemma NoLines()
    ensures AllOneLine([]) && AllOneLine([""]) && AllOneLine(Head())
  {
    hide OneLine, Uncomment;
    FixedLine("");
    FixedLine("[[config]]");
  }

  lemma ConfigOneLine(c: Config)
    requires CleanConfig(c) && c.maxSteps < U64
    ensures AllOneLine(ConfigLines(c))
  {
    HeaderReads(c);
    hide AllOneLine, Clean, CleanMount, AllRead, FieldLines, Header, BreakpointLines, MountLines, ConfigLines, Head;
    ConfigIsSection(c);
    LinesOf(SectionOf(c));
    FieldsOneLine(Header(c));
    BreakpointsOneLine(c.breakpoints);
    MountsOneLine(c.mounts);
    OneLineJoin(FieldLines(Header(c)), BreakpointLines(c.breakpoints));
    OneLineJoin(FieldLines(Header(c)) + BreakpointLines(c.breakpoints), MountLines(c.mounts));
    NoLines();
    OneLineJoin(Head(), Body(SectionOf(c)));
    OneLineJoin(Head() + Body(SectionOf(c)), [""]);
  }

  lemma {:induction false} StoreOneLine(configs: seq<Config>)
    requires CleanStore(configs) && Bounded(configs)
    ensures AllOneLine(StoreLines(configs))
  {
    hide AllOneLine, CleanConfig, ConfigLines;
    if configs == [] {
      NoLines();
    } else {
      ConfigOneLine(configs[0]);
      StoreOneLine(configs[1..]);
      OneLineJoin(ConfigLines(configs[0]), StoreLines(configs[1..]));
    }
  }

  /** What the parser makes of the printed store. */
  function Reread(configs: seq<Config>): Result<seq<Config>, ParseError> {
    ParseAll(Lines(Unlines(StoreLines(configs))))
  }

  /** A clean store comes back exactly when it is faithful. */
  lemma CleanRereads(configs: seq<Config>)
    requires CleanStore(configs) && Bounded(configs)
    ensures Reread(configs) == Ok(configs) <==> FaithfulStore(configs)
  {
    hide CleanStore, Bounded, StoreLines, ParseAll, IntoConfigs, RawsOf, FaithfulStore, Lines, Unlines, OneLine;
    StoreOneLine(configs);
    LinesUnlines(StoreLines(configs));
    ParsePrinted(configs);
    RawsReread(configs, 1);
  }
}
