/** The guide editor's tab key: which lines it edits, the edited text, and where the selection goes. */
module TabEdit {
  import opened Common

  const TAB: nat := 4

  // ----- Lines of the selection -----

  /** `lastIndexOf("\n", k)` for a position inside the text */
  function LastNewline(source: string, k: nat): (r: int)
    requires k < |source|
    ensures -1 <= r <= k
  {
    if source[k] == '\n' then k else if k == 0 then -1 else LastNewline(source, k - 1)
  }

  /** `lastIndexOf("\n", start - 1) + 1`; a negative position counts as 0. */
  function FirstStart(source: string, start: nat): nat
    requires start <= |source|
  {
    if source == "" then 0 else LastNewline(source, Max(start - 1, 0)) + 1
  }

  /** `indexOf("\n", k)` */
  function NextNewline(source: string, k: nat): (r: int)
    requires k <= |source|
    ensures r == -1 ==> '\n' !in source[k..]
    ensures r != -1 ==> k <= r < |source| && source[r] == '\n' && forall j :: k <= j < r ==> source[j] != '\n'
    decreases |source| - k
  {
    if k == |source| then -1 else if source[k] == '\n' then k else NextNewline(source, k + 1)
  }

  /** A selection that ends just after a newline does not reach the next line. */
  function Limit(source: string, start: nat, end: nat): nat
    requires start <= end <= |source|
  {
    if end > start && source[end - 1] == '\n' then end - 1 else end
  }

  /** Positions after the newlines in `[k, limit)` */
  function StartsFrom(source: string, k: nat, limit: nat): seq<nat>
    requires limit <= |source|
    decreases |source| - k
  {
    if k >= limit then [] else (if source[k] == '\n' then [k + 1] else []) + StartsFrom(source, k + 1, limit)
  }

  function Starts(source: string, start: nat, end: nat): seq<nat>
    requires start <= end <= |source|
  {
    var first := FirstStart(source, start);
    [first] + StartsFrom(source, first, Limit(source, start, end))
  }

  lemma {:induction false} StartsSkip(source: string, k: nat, j: nat, limit: nat)
    requires k <= j && limit <= |source| && forall i :: k <= i < j && i < limit ==> source[i] != '\n'
    ensures StartsFrom(source, k, limit) == StartsFrom(source, j, limit)
    decreases j - k
  {
    if k < j && k < limit { StartsSkip(source, k + 1, j, limit); }
  }

  lemma {:induction false} LastNewlineIs(source: string, k: nat)
    requires k < |source|
    ensures LastNewline(source, k) >= 0 ==> source[LastNewline(source, k)] == '\n'
    ensures forall j :: LastNewline(source, k) < j <= k ==> source[j] != '\n'
  {
    if source[k] != '\n' && k > 0 { LastNewlineIs(source, k - 1); }
  }

  lemma FirstStartFits(source: string, start: nat)
    requires start <= |source|
    ensures FirstStart(source, start) <= |source|
  {
    if source != "" { LastNewlineIs(source, Max(start - 1, 0)); }
  }

  /** `lineStarts` */
  method LineStarts(source: string, start: nat, end: nat) returns (starts: seq<nat>)
    requires start <= end <= |source|
    ensures starts == Starts(source, start, end)
  {
    FirstStartFits(source, start);
    var first := FirstStart(source, start);
    var limit := Limit(source, start, end);
    hide FirstStart, Limit;
    starts := [first];
    var newline := NextNewline(source, first);
    StartsSkip(source, first, if newline >= 0 then newline else |source|, limit);
    while newline >= 0 && newline < limit
      invariant -1 <= newline < |source| && (newline >= 0 ==> source[newline] == '\n')
      invariant starts + StartsFrom(source, if newline >= 0 then newline else |source|, limit) ==
                [first] + StartsFrom(source, first, limit)
      decreases if newline >= 0 then |source| - newline else 0
    {
      starts := starts + [newline + 1];
      var next := NextNewline(source, newline + 1);
      StartsSkip(source, newline + 1, if next >= 0 then next else |source|, limit);
      newline := next;
    }
  }

  // ----- The lines it should be -----

  /** Start of the line that offset `o` is on. */
  function LineOf(source: string, o: nat): nat
    requires o <= |source|
  {
    if o == 0 || source[o - 1] == '\n' then o else LineOf(source, o - 1)
  }

  /** `at` starts a line the selection touches: its end only counts if the selection is empty or does not
      end just after a newline. */
  ghost predicate Touched(source: string, start: nat, end: nat, at: nat)
    requires start <= end <= |source|
  {
    exists o :: start <= o <= end && (o == end && start < end ==> source[end - 1] != '\n') && LineOf(source, o) == at
  }

  /** The caret or selection starts at the very beginning, before a blank first line. */
  predicate BlankFirst(source: string, start: nat) {
    start == 0 && source != "" && source[0] == '\n'
  }

  lemma {:induction false} LineOfIs(source: string, o: nat)
    requires o <= |source|
    ensures var at := LineOf(source, o);
            at <= o && (at > 0 ==> source[at - 1] == '\n') && forall j :: at <= j < o ==> source[j] != '\n'
  {
    if o > 0 && source[o - 1] != '\n' { LineOfIs(source, o - 1); }
  }

  lemma FirstExact(source: string, start: nat)
    requires start <= |source|
    ensures FirstStart(source, start) == if BlankFirst(source, start) then 1 else LineOf(source, start)
  {
    LineOfIs(source, start);
    if start > 0 { LastNewlineIs(source, start - 1); }
    hide LineOf;
  }

  lemma {:induction false} StartsMember(source: string, k: nat, limit: nat, at: nat)
    requires limit <= |source|
    ensures at in StartsFrom(source, k, limit) <==> k < at <= limit && source[at - 1] == '\n'
    decreases |source| - k
  {
    if k < limit { StartsMember(source, k + 1, limit, at); }
  }

  lemma TouchedIs(source: string, start: nat, end: nat, at: nat)
    requires start <= end <= |source|
    ensures Touched(source, start, end, at) <==>
            at == LineOf(source, start) || (start < at <= Limit(source, start, end) && source[at - 1] == '\n')
  {
    var limit := Limit(source, start, end);
    LineOfIs(source, start);
    assert LineOf(source, start) == at ==> Touched(source, start, end, at);
    if start < at <= limit && source[at - 1] == '\n' { assert LineOf(source, at) == at; }
    if o :| start <= o <= end && (o == end && start < end ==> source[end - 1] != '\n') && LineOf(source, o) == at {
      LineOfIs(source, o);
      if at <= start { LineUnique(source, start, at); }
    }
  }

  lemma LineUnique(source: string, o: nat, at: nat)
    requires at <= o <= |source| && (at > 0 ==> source[at - 1] == '\n') && forall j :: at <= j < o ==> source[j] != '\n'
    ensures LineOf(source, o) == at
  {
    LineOfIs(source, o);
    hide LineOf;
  }

  lemma StartsTouched(source: string, start: nat, end: nat, at: nat)
    requires start <= end <= |source| && !BlankFirst(source, start)
    ensures at in Starts(source, start, end) <==> Touched(source, start, end, at)
  {
    var limit := Limit(source, start, end);
    FirstExact(source, start);
    var first := FirstStart(source, start);
    StartsMember(source, first, limit, at);
    TouchedIs(source, start, end, at);
    LineOfIs(source, start);
    hide LineOf, Touched, FirstStart, Limit, BlankFirst;
  }

  /** The lines edited are the lines touched, except before a blank first line. */
  lemma LinesExact(source: string, start: nat, end: nat)
    requires start <= end <= |source|
    ensures (forall at :: at in Starts(source, start, end) <==> Touched(source, start, end, at)) <==>
            !BlankFirst(source, start)
  {
    if BlankFirst(source, start) {
      FirstExact(source, start);
      TouchedIs(source, start, end, 0);
      StartsMember(source, 1, Limit(source, start, end), 0);
      assert Touched(source, start, end, 0) && 0 !in Starts(source, start, end);
    } else {
      forall at ensures at in Starts(source, start, end) <==> Touched(source, start, end, at) {
        StartsTouched(source, start, end, at);
      }
    }
  }

  /** One tab at a caret: spaces up to the next multiple of four, by the truncated remainder. */
  function TabSpaces(source: string, start: nat): int
    requires start <= |source|
  {
    var column := start - FirstStart(source, start);
    TAB - (if column >= 0 then column % TAB else -((-column) % TAB))
  }

  /** The caret lands on a tab stop of its line, one to four columns on, except before a blank first line. */
  lemma TabStopExact(source: string, start: nat)
    requires start <= |source|
    ensures var n, column := TabSpaces(source, start), start - LineOf(source, start);
            1 <= n <= TAB && (column + n) % TAB == 0 <==> !BlankFirst(source, start)
  {
    FirstExact(source, start);
    LineOfIs(source, start);
    hide LineOf, FirstStart;
  }

  // ----- Edits -----

  datatype Edit = Edit(at: nat, remove: nat, insert: string)

  function Spaces(n: nat): (s: string)
    ensures |s| == n && forall i :: 0 <= i < n ==> s[i] == ' '
  {
    seq(n, i => ' ')
  }

  function Leading(source: string, at: nat): (n: nat)
    requires at <= |source|
    ensures at + n <= |source| && (forall j :: at <= j < at + n ==> source[j] == ' ')
    ensures at + n < |source| ==> source[at + n] != ' '
    decreases |source| - at
  {
    if at < |source| && source[at] == ' ' then 1 + Leading(source, at + 1) else 0
  }

  /** Four columns in, or a tab or the spaces past the last tab stop out. */
  function EditFor(source: string, at: nat, outdent: bool): (r: Option<Edit>)
    requires at <= |source|
    ensures r.None? <==> outdent && (at == |source| || (source[at] != '\t' && source[at] != ' '))
    ensures r.Some? ==> r.value.at == at && at + r.value.remove <= |source|
    ensures !outdent ==> r.Some? && r.value.remove == 0 && r.value.insert == "    "
    ensures outdent && r.Some? ==>
            r.value.insert == "" && r.value.remove > 0 && (source[at] == '\t' ==> r.value.remove == 1)
    ensures outdent && r.Some? && source[at] == ' ' ==>
            Leading(source, at) - r.value.remove == (Leading(source, at) - 1) / TAB * TAB
  {
    if !outdent then Some(Edit(at, 0, Spaces(TAB)))
    else if at < |source| && source[at] == '\t' then Some(Edit(at, 1, ""))
    else
      var count := Leading(source, at);
      if count == 0 then None else Some(Edit(at, if count % TAB == 0 then Min(TAB, count) else count % TAB, ""))
  }

  ghost predicate InText(starts: seq<nat>, source: string) {
    forall i :: 0 <= i < |starts| ==> starts[i] <= |source|
  }

  function EditsFor(source: string, starts: seq<nat>, outdent: bool): seq<Edit>
    requires InText(starts, source)
  {
    if starts == [] then []
    else
      var e := EditFor(source, starts[0], outdent);
      (if e.Some? then [e.value] else []) + EditsFor(source, starts[1..], outdent)
  }

  /** The edits are those of the touched lines that need one, each once. */
  lemma {:induction false} EditsExact(source: string, starts: seq<nat>, outdent: bool, e: Edit)
    requires InText(starts, source)
    ensures e in EditsFor(source, starts, outdent) <==>
            exists i :: 0 <= i < |starts| && EditFor(source, starts[i], outdent) == Some(e)
  {
    hide EditFor;
    if starts != [] {
      EditsExact(source, starts[1..], outdent, e);
      if i :| 0 <= i < |starts| && EditFor(source, starts[i], outdent) == Some(e) {
        if i > 0 { assert starts[1..][i - 1] == starts[i]; }
      }
    }
  }

  /** Edits in order, inside `[from, n]`, with a character between one and the next. */
  ghost predicate Spaced(edits: seq<Edit>, from: nat, n: nat) {
    edits != [] ==>
      && from <= edits[0].at && edits[0].at + edits[0].remove <= n
      && Spaced(edits[1..], edits[0].at + edits[0].remove + 1, n)
  }

  // ----- The edited text -----

  function ApplyOne(text: string, e: Edit): string
    requires e.at + e.remove <= |text|
  {
    text[..e.at] + e.insert + text[e.at + e.remove..]
  }

  /** The text from `from` on, edits made in order. */
  function Edited(source: string, edits: seq<Edit>, from: nat): string
    requires from <= |source| && Spaced(edits, from, |source|)
    decreases |edits|
  {
    if edits == [] then source[from..]
    else
      var e := edits[0];
      SpacedWeaker(edits[1..], e.at + e.remove, e.at + e.remove + 1, |source|);
      source[from..e.at] + e.insert + Edited(source, edits[1..], e.at + e.remove)
  }

  lemma SpacedWeaker(edits: seq<Edit>, from: nat, more: nat, n: nat)
    requires Spaced(edits, more, n) && from <= more
    ensures Spaced(edits, from, n)
  {
  }

  // ----- Offsets -----

  function Remap(offset: int, edits: seq<Edit>, delta: int): int
    decreases |edits|
  {
    if edits == [] || offset < edits[0].at then offset + delta
    else
      var e := edits[0];
      if e.remove > 0 && offset <= e.at + e.remove then e.at + delta + |e.insert|
      else Remap(offset, edits[1..], delta + |e.insert| - e.remove)
  }

  /** `remapOffset` */
  method RemapOffset(offset: nat, edits: seq<Edit>) returns (r: int)
    ensures r == Remap(offset, edits, 0)
  {
    var delta := 0;
    for i := 0 to |edits|
      invariant Remap(offset, edits[i..], delta) == Remap(offset, edits, 0)
    {
      var edit := edits[i];
      assert edits[i..][0] == edit && edits[i..][1..] == edits[i + 1..];
      if offset < edit.at { break; }
      if edit.remove > 0 && offset <= edit.at + edit.remove {
        return edit.at + delta + |edit.insert|;
      }
      delta := delta + |edit.insert| - edit.remove;
    }
    return offset + delta;
  }

  /** `offset` is in no removed span. */
  ghost predicate Kept(offset: int, edits: seq<Edit>) {
    forall i :: 0 <= i < |edits| ==> !(edits[i].at <= offset < edits[i].at + edits[i].remove)
  }

  lemma {:induction false} RemapKeeps(source: string, edits: seq<Edit>, from: nat, o: nat, delta: int)
    requires from <= o < |source| && Spaced(edits, from, |source|) && Kept(o, edits)
    ensures var k := Remap(o, edits, delta) - delta - from; var text := Edited(source, edits, from);
            0 <= k < |text| && text[k] == source[o]
    decreases |edits|
  {
    if edits != [] && o >= edits[0].at {
      var e := edits[0];
      var next := e.at + e.remove;
      SpacedWeaker(edits[1..], next, next + 1, |source|);
      assert next <= o;
      RemapKeeps(source, edits[1..], next, o, delta + |e.insert| - e.remove);
    }
  }

  lemma {:induction false} RemapRange(source: string, edits: seq<Edit>, from: nat, o: nat, delta: int)
    requires from <= o <= |source| && Spaced(edits, from, |source|)
    ensures var k := Remap(o, edits, delta) - delta - from;
            0 <= k <= |Edited(source, edits, from)| && (o == |source| ==> k == |Edited(source, edits, from)|)
    decreases |edits|
  {
    if edits != [] && o >= edits[0].at {
      var e := edits[0];
      var next := e.at + e.remove;
      SpacedWeaker(edits[1..], next, next + 1, |source|);
      if o >= next { RemapRange(source, edits[1..], next, o, delta + |e.insert| - e.remove); }
      if o == next && e.remove > 0 { RemapBefore(edits[1..], next + 1, |source|, o, delta + |e.insert| - e.remove); }
    }
  }

  lemma RemapBefore(edits: seq<Edit>, from: nat, n: nat, o: nat, delta: int)
    requires Spaced(edits, from, n) && o < from
    ensures Remap(o, edits, delta) == o + delta
  {
  }

  lemma {:induction false} RemapAbove(edits: seq<Edit>, from: nat, n: nat, o: nat, delta: int)
    requires Spaced(edits, from, n) && from <= o
    ensures Remap(o, edits, delta) >= from + delta
    decreases |edits|
  {
    if edits != [] && o >= edits[0].at {
      var e := edits[0];
      var next := e.at + e.remove;
      SpacedWeaker(edits[1..], next, next + 1, n);
      if o >= next { RemapAbove(edits[1..], next, n, o, delta + |e.insert| - e.remove); }
    }
  }

  /** The selection's ends keep their order. */
  lemma {:induction false} RemapMonotone(edits: seq<Edit>, from: nat, n: nat, a: nat, b: nat, delta: int)
    requires Spaced(edits, from, n) && a <= b
    ensures Remap(a, edits, delta) <= Remap(b, edits, delta)
    decreases |edits|
  {
    if edits != [] && b >= edits[0].at {
      var e := edits[0];
      var next := e.at + e.remove;
      SpacedWeaker(edits[1..], next, next + 1, n);
      RemapMonotone(edits[1..], next, n, a, b, delta + |e.insert| - e.remove);
      if b >= next { RemapAbove(edits[1..], next, n, b, delta + |e.insert| - e.remove); }
    }
  }

  // ----- Edits made from the last to the first -----

  lemma {:induction false} EditedPrefix(source: string, edits: seq<Edit>, k: nat)
    requires k <= |source| && Spaced(edits, k, |source|)
    ensures Spaced(edits, 0, |source|) && Edited(source, edits, 0) == source[..k] + Edited(source, edits, k)
  {
    SpacedWeaker(edits, 0, k, |source|);
    if edits != [] {
      assert source[..edits[0].at] == source[..k] + source[k..edits[0].at];
    } else {
      assert source == source[..k] + source[k..];
    }
  }

  lemma ApplyCons(source: string, edits: seq<Edit>)
    requires edits != [] && Spaced(edits, 0, |source|)
    ensures Spaced(edits[1..], 0, |source|)
    ensures var text := Edited(source, edits[1..], 0); var e := edits[0];
            e.at + e.remove <= |text| && ApplyOne(text, e) == Edited(source, edits, 0)
  {
    var e := edits[0];
    var next := e.at + e.remove;
    SpacedWeaker(edits[1..], next, next + 1, |source|);
    EditedPrefix(source, edits[1..], next);
    var text, rest := Edited(source, edits[1..], 0), Edited(source, edits[1..], next);
    hide Edited;
    assert text[..e.at] == source[..e.at] && text[next..] == rest;
    assert Edited(source, edits, 0) == source[..e.at] + e.insert + rest by { EditedUnfolds(source, edits); }
  }

  lemma EditedUnfolds(source: string, edits: seq<Edit>)
    requires edits != [] && Spaced(edits, 0, |source|)
    ensures var e := edits[0]; var next := e.at + e.remove;
            Spaced(edits[1..], next, |source|)
              && Edited(source, edits, 0) == source[..e.at] + e.insert + Edited(source, edits[1..], next)
  {
    var e := edits[0];
    SpacedWeaker(edits[1..], e.at + e.remove, e.at + e.remove + 1, |source|);
  }

  lemma {:induction false} SpacedTail(edits: seq<Edit>, i: nat, n: nat)
    requires Spaced(edits, 0, n) && i <= |edits|
    ensures Spaced(edits[i..], 0, n)
  {
    if i > 0 {
      SpacedTail(edits, i - 1, n);
      var rest := edits[i - 1..];
      assert edits[i..] == rest[1..];
      SpacedWeaker(rest[1..], 0, rest[0].at + rest[0].remove + 1, n);
    } else {
      assert edits[0..] == edits;
    }
  }

  method ApplyEdits(source: string, edits: seq<Edit>) returns (updated: string)
    requires Spaced(edits, 0, |source|)
    ensures updated == Edited(source, edits, 0)
  {
    hide Edited, Spaced;
    updated := source;
    EditedNone(source);
    assert edits[|edits|..] == [];
    var i := |edits|;
    while i > 0
      invariant 0 <= i <= |edits| && Spaced(edits[i..], 0, |source|) && updated == Edited(source, edits[i..], 0)
    {
      i := i - 1;
      SpacedTail(edits, i, |source|);
      assert edits[i..][1..] == edits[i + 1..];
      ApplyCons(source, edits[i..]);
      updated := ApplyOne(updated, edits[i]);
    }
    assert edits[0..] == edits;
  }

  lemma EditedNone(source: string)
    ensures Spaced([], 0, |source|) && Edited(source, [], 0) == source
  {
  }

  // ----- The edits of the selected lines are spaced -----

  /** Line starts in order, each but the first after a newline. */
  ghost predicate LineSeq(source: string, starts: seq<nat>, from: nat) {
    starts != [] ==> from <= starts[0] <= |source| && AfterNewlines(source, starts)
  }

  ghost predicate AfterNewlines(source: string, starts: seq<nat>) {
    forall i :: 0 < i < |starts| ==> starts[i - 1] < starts[i] <= |source| && source[starts[i] - 1] == '\n'
  }

  lemma {:induction false} StartsOrdered(source: string, k: nat, limit: nat)
    requires limit <= |source|
    ensures var s := StartsFrom(source, k, limit);
            AfterNewlines(source, s) && (s != [] ==> k < s[0] <= |source| && source[s[0] - 1] == '\n')
    decreases |source| - k
  {
    if k < limit {
      StartsOrdered(source, k + 1, limit);
      var s, rest := StartsFrom(source, k, limit), StartsFrom(source, k + 1, limit);
      assert s == if source[k] == '\n' then [k + 1] + rest else rest;
      hide StartsFrom;
    }
  }

  lemma StartsLines(source: string, start: nat, end: nat)
    requires start <= end <= |source|
    ensures var s := Starts(source, start, end); LineSeq(source, s, 0) && InText(s, source)
  {
    FirstStartFits(source, start);
    hide FirstStart;
    StartsOrdered(source, FirstStart(source, start), Limit(source, start, end));
  }

  lemma EditFits(source: string, at: nat, outdent: bool)
    requires at <= |source|
    ensures var e := EditFor(source, at, outdent);
            e.Some? ==> && e.value.at == at && at + e.value.remove <= |source|
                        && forall j :: at <= j < at + e.value.remove ==> source[j] != '\n'
  {
  }

  lemma {:induction false} EditsSpaced(source: string, starts: seq<nat>, outdent: bool, from: nat)
    requires LineSeq(source, starts, from) && InText(starts, source)
    ensures Spaced(EditsFor(source, starts, outdent), from, |source|)
    decreases |starts|
  {
    if starts != [] {
      var e, rest := EditFor(source, starts[0], outdent), starts[1..];
      EditFits(source, starts[0], outdent);
      hide EditFor;
      var next := if e.Some? then starts[0] + e.value.remove + 1 else from;
      if rest != [] {
        assert source[rest[0] - 1] == '\n' && starts[0] < rest[0];
        assert rest[0] - 1 >= starts[0] + (if e.Some? then e.value.remove else 0);
      }
      EditsSpaced(source, rest, outdent, next);
      var edits := EditsFor(source, starts, outdent);
      assert e.Some? ==> edits[0] == e.value && edits[1..] == EditsFor(source, rest, outdent);
      assert e.None? ==> edits == EditsFor(source, rest, outdent);
    }
  }

  /** `applyTabEdit` when it edits lines: the new text and selection. */
  method TabLines(source: string, start: nat, end: nat, outdent: bool) returns (updated: string, s: int, e: int)
    requires start <= end <= |source|
    ensures InText(Starts(source, start, end), source)
    ensures var edits := EditsFor(source, Starts(source, start, end), outdent);
            && Spaced(edits, 0, |source|) && updated == Edited(source, edits, 0)
            && s == Remap(start, edits, 0) && e == Remap(end, edits, 0)
    ensures 0 <= s <= e <= |updated|
  {
    hide *;
    var starts := LineStarts(source, start, end);
    StartsLines(source, start, end);
    var edits := EditsFor(source, starts, outdent);
    EditsSpaced(source, starts, outdent, 0);
    updated := ApplyEdits(source, edits);
    s := RemapOffset(start, edits);
    e := RemapOffset(end, edits);
    RemapRange(source, edits, 0, start, 0);
    RemapRange(source, edits, 0, end, 0);
    RemapMonotone(edits, 0, |source|, start, end, 0);
  }
}
