/** The text the printer writes, spelled out. */
module RunConfigText {
  import opened Common
  import opened Text
  import opened RunConfig

  /** `key = "value"`, with quotes and backslashes of the value escaped. */
  lemma LineWritten(key: string, v: string)
    ensures KeyLine(key, Quoted(v)) == key + " = \"" + Escape(v) + "\""
  {
    hide Escape;
    assert " = " + "\"" == " = \"";
  }

  /** Escaping goes character by character. */
  lemma EscapeWritten(c: char, s: string)
    ensures Escape("") == ""
    ensures Escape([c] + s) == (if c == '\\' then "\\\\" else if c == '"' then "\\\"" else [c]) + Escape(s)
  {
    EscapeCons(c, s);
  }

  function Bare(key: string, v: string): string {
    key + " = " + v
  }

  function InQuotes(key: string, v: string): string {
    key + " = \"" + Escape(v) + "\""
  }

  lemma {:induction false} FieldsWritten(fs: seq<Field>, i: nat)
    requires i < |fs|
    ensures |FieldLines(fs)| == |fs| && FieldLines(fs)[i] == Bare(fs[i].key, fs[i].rendered)
  {
    FieldsCount(fs);
    if i > 0 { FieldsWritten(fs[1..], i - 1); }
  }

  lemma {:induction false} FieldsCount(fs: seq<Field>)
    ensures |FieldLines(fs)| == |fs|
  {
    if fs != [] { FieldsCount(fs[1..]); }
  }

  /** A configuration's name unless it comes from the manifest, its type, its build or root path and its
      presentation, in that order. */
  lemma TopWritten(c: Config)
    ensures FieldLines(HeaderTop(c)) ==
            (if c.nameFromManifest then [] else [InQuotes("name", c.name)])
            + [InQuotes("type", match c.kind
                                case Hosted => "hosted"
                                case KernelBoot => "kernel"
                                case Freestanding => "freestanding")]
            + [match c.build
               case Manifest(p) => InQuotes("build", p.text)
               case SourceWithDefaults(r, _) => InQuotes("root", r.text)]
            + [InQuotes("present", match c.present
                                   case Terminal => "terminal"
                                   case Framebuffer => "framebuffer"
                                   case Both => "both")]
  {
    LineWritten("name", c.name);
    LineWritten("type", KindLabel(c.kind));
    LineWritten("present", PresentLabel(c.present));
    var path := match c.build case Manifest(p) => p.text case SourceWithDefaults(r, _) => r.text;
    LineWritten("build", path);
    LineWritten("root", path);
    hide Escape, Quoted, KeyLine;
    var n, t, b, q := TextField("name", c.name), TextField("type", KindLabel(c.kind)), BuildField(c.build),
        TextField("present", PresentLabel(c.present));
    var first: seq<Field> := if c.nameFromManifest then [] else [n];
    assert HeaderTop(c) == first + [t] + [b] + [q];
    FieldLinesSnoc(first + [t] + [b], q);
    FieldLinesSnoc(first + [t], b);
    FieldLinesSnoc(first, t);
    EmptyText();
    if !c.nameFromManifest {
      FieldLinesSnoc([], n);
      assert [] + [n] == [n] && [] + [KeyLine(n.key, n.rendered)] == [KeyLine(n.key, n.rendered)];
    }
  }

  /** Then its autorun line if it has one, its step count and its debug flag. */
  lemma HeaderWritten(c: Config)
    ensures FieldLines(Header(c)) ==
            FieldLines(HeaderTop(c))
            + (if c.autorun == "" then [] else [InQuotes("autorun", c.autorun)])
            + [Bare("max_steps_per_frame", Decimal(c.maxSteps))] + [Bare("debug", if c.debug then "true" else "false")]
  {
    LineWritten("autorun", c.autorun);
    hide Escape, Quoted, Decimal, HeaderTop, FieldLines;
    var a := TextField("autorun", c.autorun);
    var s, d := Field("max_steps_per_frame", Decimal(c.maxSteps), Decimal(c.maxSteps)),
        Field("debug", FlagText(c.debug), FlagText(c.debug));
    var top := HeaderTop(c);
    var upto := if c.autorun == [] then top else top + [a];
    assert Header(c) == upto + [s] + [d];
    FieldLinesSnoc(upto + [s], d);
    FieldLinesSnoc(upto, s);
    if c.autorun != [] { FieldLinesSnoc(top, a); }
  }

  lemma {:induction false} BreakpointsWritten(bs: seq<string>, i: nat)
    requires i < |bs|
    ensures |BreakpointLines(bs)| == |bs| && BreakpointLines(bs)[i] == InQuotes("breakpoint", bs[i])
  {
    LineWritten("breakpoint", bs[i]);
    BreakpointsCount(bs);
    hide Escape, Quoted, KeyLine;
    if i > 0 { BreakpointsWritten(bs[1..], i - 1); }
  }

  lemma {:induction false} BreakpointsCount(bs: seq<string>)
    ensures |BreakpointLines(bs)| == |bs|
  {
    if bs != [] { BreakpointsCount(bs[1..]); }
  }

  /** Each mount is a blank line, its header, its host and its guest. */
  lemma {:induction false} MountsWritten(ms: seq<Mount>)
    ensures MountLines(ms) ==
            if ms == [] then []
            else ["", "[[config.fs.mount]]", InQuotes("host", ms[0].host.text),
              InQuotes("guest", ms[0].guest)] + MountLines(ms[1..])
  {
    if ms != [] {
      LineWritten("host", ms[0].host.text);
      LineWritten("guest", ms[0].guest);
      hide Escape, Quoted, KeyLine;
    }
  }
}
