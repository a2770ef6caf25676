/**
 The run-configuration store (`.fullstack/run.toml`): printing configurations as lines and parsing
 them back with a hand-written line parser.
 */
module RunConfig {
  import opened Common
  import opened Text

  // ----- Configurations -----

  datatype Kind = Hosted | KernelBoot | Freestanding

  datatype Target = HostedTarget | KernelTarget | FreestandingTarget

  datatype Present = Terminal | Framebuffer | Both

  /** A workspace path; only `ParsePath` makes one from text. */
  datatype VPath = VPath(text: string)

  datatype BuildRef = Manifest(path: VPath) | SourceWithDefaults(root: VPath, target: Target)

  datatype Mount = Mount(host: VPath, guest: string)

  datatype Config = Config(name: string, nameFromManifest: bool, kind: Kind, build: BuildRef, mounts: seq<Mount>,
                           present: Present, autorun: string, maxSteps: nat, debug: bool, breakpoints: seq<string>)

  function KindLabel(k: Kind): string {
    match k case Hosted => "hosted" case KernelBoot => "kernel" case Freestanding => "freestanding"
  }

  function PresentLabel(p: Present): string {
    match p case Terminal => "terminal" case Framebuffer => "framebuffer" case Both => "both"
  }

  function TargetForKind(k: Kind): Target {
    match k case Hosted => HostedTarget case KernelBoot => KernelTarget case Freestanding => FreestandingTarget
  }

  function ParseKind(s: string): Option<Kind> {
    if s == "hosted" then Some(Hosted) else if s == "kernel" then Some(KernelBoot)
    else if s == "freestanding" then Some(Freestanding) else None
  }

  function ParsePresent(s: string): Option<Present> {
    if s == "terminal" then Some(Terminal) else if s == "framebuffer" then Some(Framebuffer)
    else if s == "both" then Some(Both) else None
  }

  // ----- Workspace paths -----

  function Split(s: string, c: char): seq<string> {
    var k := Find(s, c);
    if k == |s| then [s] else [s[..k]] + Split(s[k + 1..], c)
  }

  function JoinParts(parts: seq<string>): string {
    if parts == [] then [] else if |parts| == 1 then parts[0] else parts[0] + ['/'] + JoinParts(parts[1..])
  }

  function Components(parts: seq<string>, kept: seq<string>): Option<seq<string>> {
    if parts == [] then Some(kept)
    else if parts[0] == "" then (if kept == [] then Components(parts[1..], kept) else None)
    else if parts[0] == "." then Components(parts[1..], kept)
    else if parts[0] == ".." then (if kept == [] then None else Components(parts[1..], kept[..|kept| - 1]))
    else Components(parts[1..], kept + [parts[0]])
  }

  /** `VPath::parse`; no error of it is told apart from another. */
  function ParsePath(input: string): Option<VPath> {
    var raw := Trim(input);
    if raw == "" || raw == "/" || raw == "\\" then Some(VPath(""))
    else if |raw| >= 2 && raw[0] < '\U{80}' && raw[1] == ':' then None
    else
      match Components(Split(ReplaceChar(raw, '\\', "/"), '/'), [])
      case None => None
      case Some(parts) => Some(VPath(JoinParts(parts)))
  }

  // ----- Printing -----

  function KeyLine(key: string, rendered: string): string {
    key + " = " + rendered
  }

  function Quoted(v: string): string {
    "\"" + Escape(v) + "\""
  }

  /** A printed key with the value reading it back should give. */
  datatype Field = Field(key: string, rendered: string, value: string)

  function TextField(key: string, v: string): Field {
    Field(key, Quoted(v), v)
  }

  function BuildField(b: BuildRef): Field {
    match b case Manifest(p) => TextField("build", p.text) case SourceWithDefaults(r, _) => TextField("root", r.text)
  }

  function HeaderTop(c: Config): seq<Field> {
    (if c.nameFromManifest then [] else [TextField("name", c.name)])
    + [TextField("type", KindLabel(c.kind))]
    + [BuildField(c.build)]
    + [TextField("present", PresentLabel(c.present))]
  }

  function FlagText(b: bool): string {
    if b then "true" else "false"
  }

  function Header(c: Config): seq<Field> {
    HeaderTop(c)
    + (if c.autorun == [] then [] else [TextField("autorun", c.autorun)])
    + [Field("max_steps_per_frame", Decimal(c.maxSteps), Decimal(c.maxSteps))]
    + [Field("debug", FlagText(c.debug), FlagText(c.debug))]
  }

  function FieldLines(fields: seq<Field>): seq<string> {
    if fields == [] then [] else [KeyLine(fields[0].key, fields[0].rendered)] + FieldLines(fields[1..])
  }

  function BreakpointLine(b: string): string {
    KeyLine("breakpoint", Quoted(b))
  }

  function BreakpointLines(bs: seq<string>): seq<string> {
    if bs == [] then [] else [BreakpointLine(bs[0])] + BreakpointLines(bs[1..])
  }

  function MountLines(ms: seq<Mount>): seq<string> {
    if ms == [] then []
    else OneMount(ms[0]) + MountLines(ms[1..])
  }

  function ConfigLines(c: Config): seq<string> {
    ["[[config]]"] + FieldLines(Header(c)) + BreakpointLines(c.breakpoints) + MountLines(c.mounts) + [""]
  }

  function StoreLines(configs: seq<Config>): seq<string> {
    if configs == [] then [] else ConfigLines(configs[0]) + StoreLines(configs[1..])
  }

  // ----- Parsing -----

  datatype ParseError = ParseError(line: nat, message: string)

  datatype Raw = Raw(values: map<string, string>, mounts: seq<map<string, string>>, breakpoints: seq<string>,
                     firstLine: nat)

  datatype Parser = Parser(sections: seq<Raw>, current: Option<Raw>, mount: Option<map<string, string>>)

  /** `flush_mount` */
  function Flush(p: Parser, line: nat): Result<Parser, ParseError> {
    if p.mount.None? then Ok(p)
    else if p.current.None? then Err(ParseError(line, "mount appears before [[config]]"))
    else Ok(p.(current := Some(p.current.value.(mounts := p.current.value.mounts + [p.mount.value])), mount := None))
  }

  function ParseValue(value: string, line: nat): Result<string, ParseError> {
    if |value| >= 2 && value[0] == '"' && value[|value| - 1] == '"' then Ok(Unescape(value[1..|value| - 1]))
    else if value == "true" || value == "false" || ParseU64(value).Some? then Ok(value)
    else Err(ParseError(line, "expected quoted string, bool, or number"))
  }

  function ParseKeyValue(line: string, n: nat): Result<(string, string), ParseError> {
    var k := Find(line, '=');
    if k == |line| then Err(ParseError(n, "expected key = value"))
    else match ParseValue(Trim(line[k + 1..]), n)
      case Err(e) => Err(e)
      case Ok(v) => Ok((Trim(line[..k]), v))
  }

  /** Everything from the first '#' on is a comment. */
  function Uncomment(line: string): string {
    Trim(line[..Find(line, '#')])
  }

  function Store(p: Parser, key: string, value: string, n: nat): Result<Parser, ParseError> {
    if p.mount.Some? then Ok(p.(mount := Some(p.mount.value[key := value])))
    else if p.current.Some? then
      var raw := p.current.value;
      Ok(p.(current := Some(if key == "breakpoint" then raw.(breakpoints := raw.breakpoints + [value])
        else raw.(values := raw.values[key := value]))))
    else Err(ParseError(n, "key appears before [[config]]"))
  }

  /** One line, already stripped of its comment and trimmed. */
  function ParseLine(p: Parser, line: string, n: nat): Result<Parser, ParseError> {
    if line == [] then Ok(p)
    else if line == "[[config]]" then
      match Flush(p, n)
      case Err(e) => Err(e)
      case Ok(q) => Ok(Parser(q.sections + Opt(q.current), Some(Raw(map[], [], [], n)), q.mount))
    else if line == "[[config.fs.mount]]" then
      if p.current.None? then Err(ParseError(n, "mount appears before [[config]]"))
      else match Flush(p, n)
        case Err(e) => Err(e)
        case Ok(q) => Ok(q.(mount := Some(map[])))
    else match ParseKeyValue(line, n)
      case Err(e) => Err(e)
      case Ok(kv) => Store(p, kv.0, kv.1, n)
  }

  function Opt<T>(o: Option<T>): seq<T> {
    if o.Some? then [o.value] else []
  }

  /** Lines `n`, `n + 1`, ... (1-based) */
  function ParseLines(p: Parser, lines: seq<string>, n: nat): Result<Parser, ParseError>
    decreases |lines|
  {
    if lines == [] then Ok(p)
    else match ParseLine(p, Uncomment(lines[0]), n)
      case Err(e) => Err(e)
      case Ok(q) => ParseLines(q, lines[1..], n + 1)
  }

  /** `into_config` */
  function IntoConfig(raw: Raw): Result<Config, ParseError> {
    var v, line := raw.values, raw.firstLine;
    var kind := ParseKind(Get(v, "type", "hosted"));
    if kind.None? then Err(ParseError(line, "unknown run config type"))
    else if "build" !in v && "root" !in v then Err(ParseError(line, "missing `build` or `root`"))
    else
      var path := ParsePath(if "build" in v then v["build"] else v["root"]);
      if path.None? then Err(ParseError(line, if "build" in v then "invalid build path" else "invalid root path"))
      else
        var present := ParsePresent(Get(v, "present", "both"));
        if present.None? then Err(ParseError(line, "unknown present mode"))
        else
          var steps := if "max_steps_per_frame" in v then ParseU64(v["max_steps_per_frame"]) else Some(200000);
          if steps.None? then Err(ParseError(line, "max_steps_per_frame must be a number"))
          else match IntoMounts(raw.mounts, line)
            case Err(e) => Err(e)
            case Ok(mounts) =>
              var build := if "build" in v then Manifest(path.value)
                  else SourceWithDefaults(path.value, TargetForKind(kind.value));
              Ok(Config(Get(v, "name", ""), "name" !in v, kind.value, build, mounts, present.value,
                Get(v, "autorun", ""),
                        steps.value, "debug" in v && v["debug"] == "true", raw.breakpoints))
  }

  function Get(v: map<string, string>, key: string, otherwise: string): string {
    if key in v then v[key] else otherwise
  }

  function IntoMounts(ms: seq<map<string, string>>, line: nat): Result<seq<Mount>, ParseError> {
    if ms == [] then Ok([])
    else if "host" !in ms[0] then Err(ParseError(line, "missing `host`"))
    else if "guest" !in ms[0] then Err(ParseError(line, "missing `guest`"))
    else
      var host := ParsePath(ms[0]["host"]);
      if host.None? then Err(ParseError(line, "invalid mount host"))
      else match IntoMounts(ms[1..], line)
        case Err(e) => Err(e)
        case Ok(rest) => Ok([Mount(host.value, ms[0]["guest"])] + rest)
  }

  function IntoConfigs(raws: seq<Raw>): Result<seq<Config>, ParseError> {
    if raws == [] then Ok([])
    else match IntoConfig(raws[0])
      case Err(e) => Err(e)
      case Ok(c) => match IntoConfigs(raws[1..])
        case Err(e) => Err(e)
        case Ok(rest) => Ok([c] + rest)
  }

  function ParseAll(lines: seq<string>): Result<seq<Config>, ParseError> {
    match ParseLines(Parser([], None, None), lines, 1)
    case Err(e) => Err(e)
    case Ok(p) => match Flush(p, Max(|lines|, 1))
      case Err(e) => Err(e)
      case Ok(q) => IntoConfigs(q.sections + Opt(q.current))
  }

  // ----- The printer and the parser as they run -----

  lemma {:induction false} FieldLinesJoin(a: seq<Field>, b: seq<Field>)
    ensures FieldLines(a + b) == FieldLines(a) + FieldLines(b)
  {
    if a == [] {
      assert a + b == b;
    } else {
      assert (a + b)[1..] == a[1..] + b;
      FieldLinesJoin(a[1..], b);
    }
  }

  lemma FieldLinesSnoc(fs: seq<Field>, f: Field)
    ensures FieldLines(fs + [f]) == FieldLines(fs) + [KeyLine(f.key, f.rendered)]
  {
    FieldLinesJoin(fs, [f]);
  }

  lemma {:induction false} BreakpointLinesSnoc(bs: seq<string>, i: nat)
    requires i < |bs|
    ensures BreakpointLines(bs[..i + 1]) == BreakpointLines(bs[..i]) + [BreakpointLine(bs[i])]
  {
    if i > 0 {
      assert bs[..i + 1][1..] == bs[1..][..i] && bs[..i][1..] == bs[1..][..i - 1];
      BreakpointLinesSnoc(bs[1..], i - 1);
    }
  }

  function OneMount(m: Mount): seq<string> {
    ["", "[[config.fs.mount]]", KeyLine("host", Quoted(m.host.text)), KeyLine("guest", Quoted(m.guest))]
  }

  lemma {:induction false} MountLinesSnoc(ms: seq<Mount>, i: nat)
    requires i < |ms|
    ensures MountLines(ms[..i + 1]) == MountLines(ms[..i]) + OneMount(ms[i])
  {
    hide OneMount;
    if i == 0 {
      assert ms[..1] == [ms[0]] && ms[..0] == [] && [ms[0]][1..] == [];
    } else {
      assert ms[..i + 1][1..] == ms[1..][..i];
      assert ms[..i][1..] == ms[1..][..i - 1];
      MountLinesSnoc(ms[1..], i - 1);
    }
  }

  /** `out.push_str` of one line */
  method Push(out: string, line: string, ghost lines: seq<string>) returns (r: string)
    requires out == Unlines(lines)
    ensures r == Unlines(lines + [line])
  {
    r := out + line + "\n";
    UnlinesJoin(lines, [line]);
    assert Unlines([line]) == line + "\n";
  }

  /** The opening line, then fields */
  function Opening(fs: seq<Field>): seq<string> {
    ["[[config]]"] + FieldLines(fs)
  }

  method PushField(out: string, f: Field, ghost fs: seq<Field>) returns (r: string)
    requires out == Unlines(Opening(fs))
    ensures r == Unlines(Opening(fs + [f]))
  {
    r := Push(out, KeyLine(f.key, f.rendered), Opening(fs));
    FieldLinesSnoc(fs, f);
    assert Opening(fs) + [KeyLine(f.key, f.rendered)] == Opening(fs + [f]);
  }

  method PrintHeaderTop(c: Config) returns (out: string)
    ensures out == Unlines(Opening(HeaderTop(c)))
  {
    EmptyText();
    out := Push("", "[[config]]", []);
    hide Unlines, FieldLines, Quoted, KeyLine, TextField;
    ghost var fs: seq<Field> := [];
    assert [] + ["[[config]]"] == Opening(fs);
    hide Opening;
    if !c.nameFromManifest {
      out := PushField(out, TextField("name", c.name), fs);
      fs := fs + [TextField("name", c.name)];
    }
    out := PushField(out, TextField("type", KindLabel(c.kind)), fs);
    fs := fs + [TextField("type", KindLabel(c.kind))];
    out := PushField(out, BuildField(c.build), fs);
    fs := fs + [BuildField(c.build)];
    out := PushField(out, TextField("present", PresentLabel(c.present)), fs);
    assert fs + [TextField("present", PresentLabel(c.present))] == HeaderTop(c);
  }

  method PrintHeader(c: Config) returns (out: string)
    ensures out == Unlines(Opening(Header(c)))
  {
    hide Unlines, Opening, Quoted, HeaderTop, TextField, Decimal;
    out := PrintHeaderTop(c);
    ghost var fs: seq<Field> := HeaderTop(c);
    if c.autorun != [] {
      out := PushField(out, TextField("autorun", c.autorun), fs);
      fs := fs + [TextField("autorun", c.autorun)];
    }
    var steps, debug := Field("max_steps_per_frame", Decimal(c.maxSteps), Decimal(c.maxSteps)),
        Field("debug", FlagText(c.debug), FlagText(c.debug));
    out := PushField(out, steps, fs);
    out := PushField(out, debug, fs + [steps]);
    assert fs + [steps] + [debug] == Header(c);
  }

  lemma EmptyText()
    ensures Unlines([]) == "" && FieldLines([]) == []
  {
  }

  method PrintConfig(c: Config) returns (out: string)
    ensures out == Unlines(ConfigLines(c))
  {
    hide Unlines, FieldLines, Quoted, KeyLine, Header;
    out := PrintHeader(c);
    ghost var head := Opening(Header(c));
    assert head + [] == head;
    for i := 0 to |c.breakpoints|
      invariant out == Unlines(head + BreakpointLines(c.breakpoints[..i]))
    {
      BreakpointLinesSnoc(c.breakpoints, i);
      ghost var lines := head + BreakpointLines(c.breakpoints[..i]);
      out := Push(out, BreakpointLine(c.breakpoints[i]), lines);
      assert lines + [BreakpointLine(c.breakpoints[i])] == head + BreakpointLines(c.breakpoints[..i + 1]);
    }
    assert c.breakpoints[..|c.breakpoints|] == c.breakpoints;
    hide BreakpointLines, Opening;
    ghost var body := head + BreakpointLines(c.breakpoints);
    assert body + [] == body;
    for i := 0 to |c.mounts|
      invariant out == Unlines(body + MountLines(c.mounts[..i]))
    {
      MountLinesSnoc(c.mounts, i);
      hide MountLines;
      var host, guest := KeyLine("host", Quoted(c.mounts[i].host.text)), KeyLine("guest", Quoted(c.mounts[i].guest));
      ghost var lines := body + MountLines(c.mounts[..i]);
      out := Push(out, "", lines);
      out := Push(out, "[[config.fs.mount]]", lines + [""]);
      out := Push(out, host, lines + [""] + ["[[config.fs.mount]]"]);
      out := Push(out, guest, lines + [""] + ["[[config.fs.mount]]"] + [host]);
      assert lines + [""] + ["[[config.fs.mount]]"] + [host] + [guest] == body + MountLines(c.mounts[..i + 1]);
    }
    assert c.mounts[..|c.mounts|] == c.mounts;
    out := Push(out, "", body + MountLines(c.mounts));
    assert body + MountLines(c.mounts) + [""] == ConfigLines(c) by { OpeningIs(Header(c)); }
  }

  lemma OpeningIs(fs: seq<Field>)
    ensures Opening(fs) == ["[[config]]"] + FieldLines(fs)
  {
  }

  lemma {:induction false} StoreLinesSnoc(cs: seq<Config>, i: nat)
    requires i < |cs|
    ensures StoreLines(cs[..i + 1]) == StoreLines(cs[..i]) + ConfigLines(cs[i])
  {
    hide ConfigLines;
    if i > 0 {
      assert cs[..i + 1][1..] == cs[1..][..i] && cs[..i][1..] == cs[1..][..i - 1];
      StoreLinesSnoc(cs[1..], i - 1);
    }
  }

  /** `to_toml` */
  method ToToml(configs: seq<Config>) returns (out: string)
    ensures out == Unlines(StoreLines(configs))
  {
    hide ConfigLines;
    out := "";
    for i := 0 to |configs|
      invariant out == Unlines(StoreLines(configs[..i]))
    {
      StoreLinesSnoc(configs, i);
      UnlinesJoin(StoreLines(configs[..i]), ConfigLines(configs[i]));
      var text := PrintConfig(configs[i]);
      out := out + text;
    }
    assert configs[..|configs|] == configs;
  }

  /** `parse`: one pass over the lines, then one over the sections. */
  method Parse(text: string) returns (r: Result<seq<Config>, ParseError>)
    ensures r == ParseAll(Lines(text))
  {
    hide ParseLine, Uncomment, IntoConfig, Lines;
    var lines := Lines(text);
    var p := Parser([], None, None);
    for i := 0 to |lines|
      invariant ParseLines(p, lines[i..], i + 1) == ParseLines(Parser([], None, None), lines, 1)
    {
      assert lines[i..][1..] == lines[i + 1..];
      match ParseLine(p, Uncomment(lines[i]), i + 1) {
        case Err(e) => return Err(e);
        case Ok(q) => p := q;
      }
    }
    var flushed := Flush(p, Max(|lines|, 1));
    if flushed.Err? {
      return Err(flushed.error);
    }
    var sections := flushed.value.sections + Opt(flushed.value.current);
    var configs: seq<Config> := [];
    assert sections[0..] == sections
           && (IntoConfigs(sections).Ok? ==> configs + IntoConfigs(sections).value == IntoConfigs(sections).value);
    for i := 0 to |sections|
      invariant IntoConfigs(sections) ==
                match IntoConfigs(sections[i..]) case Ok(rest) => Ok(configs + rest) case Err(e) => Err(e)
    {
      assert sections[i..][1..] == sections[i + 1..];
      match IntoConfig(sections[i]) {
        case Err(e) => return Err(e);
        case Ok(c) =>
          ghost var rest := IntoConfigs(sections[i + 1..]);
          assert rest.Ok? ==> configs + ([c] + rest.value) == configs + [c] + rest.value;
          configs := configs + [c];
      }
    }
    assert configs + [] == configs;
    r := Ok(configs);
  }
}
