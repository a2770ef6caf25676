/** Which workspace paths parse back to themselves, and which parsed paths do not. */
module PathReparse {
  import opened Common
  import opened Text
  import opened RunConfig
  import opened RunConfigRoundTrip

  predicate GoodPart(part: string) {
    part != "" && part != "." && part != ".." && '/' !in part && '\\' !in part
  }

  predicate GoodParts(parts: seq<string>) {
    forall i :: 0 <= i < |parts| ==> GoodPart(parts[i])
  }

  /** A drive letter, or any ASCII character, before a colon. */
  predicate Drive(t: string) {
    |t| >= 2 && t[0] < '\U{80}' && t[1] == ':'
  }

  /** The root, or trimmed, relative, without backslashes and with every component proper. */
  predicate Canonical(t: string) {
    t == "" || (Tight(t) && !Drive(t) && GoodParts(Split(t, '/')))
  }

  // ----- Splitting and joining -----

  lemma {:induction false} SplitParts(s: string, c: char, d: char)
    requires d !in s || d == c
    ensures Split(s, c) != [] && forall i :: 0 <= i < |Split(s, c)| ==> d !in Split(s, c)[i]
    decreases |s|
  {
    var k := Find(s, c);
    hide Find;
    if k < |s| {
      SplitParts(s[k + 1..], c, d);
      assert d !in s[..k];
    }
  }

  lemma {:induction false} JoinSplit(s: string)
    ensures JoinParts(Split(s, '/')) == s
    decreases |s|
  {
    var k := Find(s, '/');
    hide Find;
    if k < |s| {
      JoinSplit(s[k + 1..]);
      SplitParts(s[k + 1..], '/', '/');
      assert s == s[..k] + ['/'] + s[k + 1..];
    }
  }

  lemma {:induction false} SplitJoin(parts: seq<string>)
    requires parts != [] && forall i :: 0 <= i < |parts| ==> '/' !in parts[i]
    ensures Split(JoinParts(parts), '/') == parts
  {
    var t, k := JoinParts(parts), |parts[0]|;
    if |parts| == 1 {
      FindIs(t, '/', k);
      assert parts == [parts[0]];
    } else {
      assert t[..k] == parts[0] && t[k] == '/' && t[k + 1..] == JoinParts(parts[1..]);
      FindIs(t, '/', k);
      hide Find;
      SplitJoin(parts[1..]);
    }
  }

  lemma {:induction false} JoinLacks(parts: seq<string>, d: char)
    requires d != '/' && forall i :: 0 <= i < |parts| ==> d !in parts[i]
    ensures d !in JoinParts(parts)
  {
    if |parts| > 1 { JoinLacks(parts[1..], d); }
  }

  lemma {:induction false} SlashesReplaced(s: string)
    ensures '\\' !in ReplaceChar(s, '\\', "/") && |ReplaceChar(s, '\\', "/")| == |s|
    ensures '\\' !in s ==> ReplaceChar(s, '\\', "/") == s
  {
    if s != [] { SlashesReplaced(s[1..]); }
  }

  // ----- Components -----

  lemma {:induction false} ComponentsGood(parts: seq<string>, kept: seq<string>)
    requires GoodParts(kept) && forall i :: 0 <= i < |parts| ==> '/' !in parts[i] && '\\' !in parts[i]
    ensures Components(parts, kept).Some? ==> GoodParts(Components(parts, kept).value)
    decreases |parts|
  {
    if parts != [] {
      if parts[0] == "" || parts[0] == "." {
        ComponentsGood(parts[1..], kept);
      } else if parts[0] == ".." {
        if kept != [] { ComponentsGood(parts[1..], kept[..|kept| - 1]); }
      } else {
        ComponentsGood(parts[1..], kept + [parts[0]]);
      }
    }
  }

  lemma {:induction false} ComponentsKeep(parts: seq<string>, kept: seq<string>)
    requires GoodParts(parts)
    ensures Components(parts, kept) == Some(kept + parts)
    decreases |parts|
  {
    if parts == [] {
      assert kept + parts == kept;
    } else {
      ComponentsKeep(parts[1..], kept + [parts[0]]);
      assert kept + [parts[0]] + parts[1..] == kept + parts;
    }
  }

  /** Characters of the parts, with one separator after each. */
  function Weight(parts: seq<string>): nat {
    if parts == [] then 0 else Weight(parts[..|parts| - 1]) + |parts[|parts| - 1]| + 1
  }

  lemma {:induction false} WeightCons(parts: seq<string>)
    requires parts != []
    ensures Weight(parts) == |parts[0]| + 1 + Weight(parts[1..])
  {
    var n := |parts|;
    if n > 1 {
      WeightCons(parts[..n - 1]);
      assert parts[..n - 1][1..] == parts[1..][..n - 2];
    }
  }

  lemma {:induction false} JoinWeight(parts: seq<string>)
    requires parts != []
    ensures Weight(parts) == |JoinParts(parts)| + 1
  {
    WeightCons(parts);
    if |parts| > 1 { JoinWeight(parts[1..]); }
  }

  lemma {:induction false} ComponentsWeight(parts: seq<string>, kept: seq<string>)
    ensures Components(parts, kept).Some? ==> Weight(Components(parts, kept).value) <= Weight(kept) + Weight(parts)
    decreases |parts|
  {
    if parts != [] {
      WeightCons(parts);
      ComponentsWeight(parts[1..], kept);
      ComponentsWeight(parts[1..], kept + [parts[0]]);
      assert (kept + [parts[0]])[..|kept|] == kept;
      if kept != [] { ComponentsWeight(parts[1..], kept[..|kept| - 1]); }
    }
  }

  lemma {:induction false} TrimStartShrinks(s: string)
    ensures |TrimStart(s)| <= |s| && (TrimStart(s) != [] ==> !IsSpace(TrimStart(s)[0]))
    ensures |TrimStart(s)| == |s| ==> TrimStart(s) == s
  {
    if s != [] && IsSpace(s[0]) { TrimStartShrinks(s[1..]); }
  }

  lemma {:induction false} TrimEndShrinks(s: string)
    ensures |TrimEnd(s)| <= |s| && (TrimEnd(s) != [] ==> !IsSpace(TrimEnd(s)[|TrimEnd(s)| - 1]))
    ensures |TrimEnd(s)| == |s| ==> TrimEnd(s) == s
  {
    if s != [] && IsSpace(s[|s| - 1]) { TrimEndShrinks(s[..|s| - 1]); }
  }

  /** Trimming keeps the length only of a string with nothing to trim. */
  lemma TrimShrinks(s: string)
    ensures |Trim(s)| <= |s|
    ensures |Trim(s)| == |s| && s != [] ==> Tight(s) && Trim(s) == s
  {
    hide TrimStart, TrimEnd, IsSpace;
    TrimStartShrinks(s);
    TrimEndShrinks(TrimStart(s));
  }

  // ----- Paths -----

  /** A parsed path is the root or a join of proper components no longer than the trimmed input. */
  lemma ParsedParts(s: string)
    requires ParsePath(s).Some? && ParsePath(s).value.text != ""
    ensures var t := ParsePath(s).value.text; GoodParts(Split(t, '/')) && |t| <= |Trim(s)| && !Drive(Trim(s))
  {
    var raw := Trim(s);
    var u := ReplaceChar(raw, '\\', "/");
    var all := Split(u, '/');
    var parts := Components(all, []).value;
    hide Trim, Split, Components, JoinParts, ReplaceChar, GoodPart;
    SlashesReplaced(raw);
    SplitParts(u, '/', '/');
    SplitParts(u, '/', '\\');
    ComponentsGood(all, []);
    ComponentsWeight(all, []);
    JoinSplit(u);
    JoinWeight(all);
    assert parts != [] by { JoinNone(); }
    JoinWeight(parts);
    PartsSplit(parts);
  }

  lemma JoinNone()
    ensures JoinParts([]) == "" && Weight([]) == 0
  {
  }

  lemma PartsSplit(parts: seq<string>)
    requires GoodParts(parts) && parts != []
    ensures Split(JoinParts(parts), '/') == parts
  {
    SplitJoin(parts);
  }

  lemma CanonicalReparses(t: string)
    requires Canonical(t) && t != ""
    ensures ParsePath(t) == Some(VPath(t))
  {
    var parts := Split(t, '/');
    TightTrims(t);
    JoinSplit(t);
    ComponentsKeep(parts, []);
    JoinLacks(parts, '\\');
    SlashesReplaced(t);
    assert t != "/" by { if t == "/" { SlashSplits(); } }
    assert [] + parts == parts;
    hide Trim, Split, Components, JoinParts, ReplaceChar, GoodParts, Tight;
  }

  lemma SlashSplits()
    ensures !GoodParts(Split("/", '/'))
  {
    FindIs("/", '/', 0);
    assert Split("/", '/')[0] == "";
  }

  /** A path parses back to itself exactly when its text is canonical. */
  lemma ReparsesExactly(p: VPath)
    ensures Reparses(p) <==> Canonical(p.text)
  {
    var t := p.text;
    if t == "" {
      assert Trim(t) == "";
    } else if Canonical(t) {
      CanonicalReparses(t);
    } else if Reparses(p) {
      ParsedParts(t);
      TrimShrinks(t);
      assert false;
    }
  }

  /** A path the parser made parses back to itself exactly when its edges are not white space and it
      does not look like a drive. */
  lemma ParsedReparses(s: string)
    requires ParsePath(s).Some?
    ensures var p := ParsePath(s).value; Reparses(p) <==> p.text == "" || (Tight(p.text) && !Drive(p.text))
  {
    var p := ParsePath(s).value;
    ReparsesExactly(p);
    hide ParsePath, Split, Tight, Drive;
    if p.text != "" { ParsedParts(s); }
  }

  lemma DottedSplits()
    ensures Split("./c:", '/') == [".", "c:"]
  {
    FindIs("./c:", '/', 1);
    FindIs("c:", '/', 2);
    assert "./c:"[..1] == "." && "./c:"[2..] == "c:";
    assert Split("c:", '/') == ["c:"];
  }

  lemma DotDrops()
    ensures Components([".", "c:"], []) == Some(["c:"])
  {
    assert [".", "c:"][1..] == ["c:"] && ["c:"][1..] == [];
    assert Components([], ["c:"]) == Some(["c:"]);
    assert [] + ["c:"] == ["c:"];
  }

  lemma DriveRefused()
    ensures ParsePath("c:") == None
  {
    TightTrims("c:");
    hide Trim;
    assert |"c:"| == 2;
  }

  lemma DottedTrims()
    ensures Trim("./c:") == "./c:" && ReplaceChar("./c:", '\\', "/") == "./c:"
  {
    TightTrims("./c:");
    hide Trim, ReplaceChar;
    SlashesReplaced("./c:");
  }

  /** The parser accepts a path whose text it then refuses. */
  lemma DriveInside()
    ensures ParsePath("./c:") == Some(VPath("c:")) && ParsePath("c:") == None
  {
    DriveRefused();
    hide Trim, Split, Components, ReplaceChar;
    DottedTrims();
    DottedSplits();
    DotDrops();
    assert |"./c:"| == 4 && "./c:"[1] == '/';
    assert JoinParts(["c:"]) == "c:";
    hide JoinParts;
  }

  // ----- What a path's components come to -----

  /** A name followed by ".." comes to nothing, and so does "."; nothing lies above the root, and an empty
      component is only allowed in front. */
  lemma {:induction false} ComponentRules(name: string, rest: seq<string>, kept: seq<string>)
    requires GoodPart(name)
    ensures Components([name, ".."] + rest, kept) == Components(rest, kept)
    ensures Components(["."] + rest, kept) == Components(rest, kept)
    ensures Components([".."] + rest, []) == None
    ensures Components([""] + rest, kept) == if kept == [] then Components(rest, kept) else None
  {
    var up := [".."] + rest;
    assert ([name, ".."] + rest)[0] == name && ([name, ".."] + rest)[1..] == up && up[1..] == rest;
    assert (["."] + rest)[1..] == rest && ([""] + rest)[1..] == rest;
    assert (kept + [name])[..|kept|] == kept;
    assert |".."| == 2 && |"."| == 1 && |""| == 0;
  }

  /** A trimmed text that does not look like a drive is read component by component, whichever slash
      separates them. */
  lemma PathByParts(parts: seq<string>)
    requires parts != [] && forall i :: 0 <= i < |parts| ==> '/' !in parts[i] && '\\' !in parts[i]
    requires Tight(JoinParts(parts)) && !Drive(JoinParts(parts)) && JoinParts(parts) != "/"
    ensures var r := Components(parts, []);
            ParsePath(JoinParts(parts)) == if r.Some? then Some(VPath(JoinParts(r.value))) else None
  {
    var t := JoinParts(parts);
    TightTrims(t);
    SplitJoin(parts);
    JoinLacks(parts, '\\');
    SlashesReplaced(t);
    assert "\\"[0] == '\\';
    hide Trim, Split, Components, JoinParts, ReplaceChar, Tight;
  }

  lemma {:induction false} BackslashesReplaced(s: string, i: nat)
    requires i < |s|
    ensures |ReplaceChar(s, '\\', "/")| == |s|
    ensures ReplaceChar(s, '\\', "/")[i] == if s[i] == '\\' then '/' else s[i]
  {
    if i > 0 { BackslashesReplaced(s[1..], i - 1); } else { SlashesReplaced(s[1..]); }
  }

  lemma BackslashShape(t: string)
    requires Tight(t) && !Drive(t)
    ensures var u := ReplaceChar(t, '\\', "/");
            Tight(u) && !Drive(u) && (t == "/" || t == "\\" <==> u == "/" || u == "\\")
  {
    var u := ReplaceChar(t, '\\', "/");
    SlashesReplaced(t);
    BackslashesReplaced(t, 0);
    BackslashesReplaced(t, |t| - 1);
    if |t| >= 2 { BackslashesReplaced(t, 1); }
    hide ReplaceChar;
    assert |t| == 1 ==> t == [t[0]] && u == [u[0]];
  }

  /** Backslashes separate like slashes. */
  lemma BackslashPath(t: string)
    requires Tight(t) && !Drive(t)
    ensures ParsePath(t) == ParsePath(ReplaceChar(t, '\\', "/"))
  {
    var u := ReplaceChar(t, '\\', "/");
    assert t != [];
    SlashesReplaced(t);
    SlashesReplaced(u);
    hide Trim, Split, Components, JoinParts, ReplaceChar, Tight;
    BackslashShape(t);
    TightTrims(t);
    TightTrims(u);
  }
}
