/**
 Interface resolution by files: a module is its file when it has a path and its key otherwise, so a file met
 under several names is emitted once, and two files never stand in for one another.
 */
module InterfaceFiles {
  import opened Common
  import opened ImportInterface
  import opened InterfaceExact

  /** The module is file `s`, or has no file and is registered as `s`. */
  ghost predicate Carries(m: Module, s: string) {
    m.path == Some(s) || (m.path.None? && m.key == s)
  }

  /** Both modules are one file, or one registered module. */
  ghost predicate OneFile(a: Module, b: Module) {
    exists s :: Carries(a, s) && Carries(b, s)
  }

  lemma IdentityCarries(m: Module, s: string)
    ensures Carries(m, s) <==> Identity(m) == s
  {
  }

  lemma OneFileIs(a: Module, b: Module)
    ensures OneFile(a, b) <==> Identity(a) == Identity(b)
    ensures a.path.Some? && b.path.Some? ==> (OneFile(a, b) <==> a.path.value == b.path.value)
    ensures a.path.None? && b.path.None? ==> (OneFile(a, b) <==> a.key == b.key)
  {
    assert Carries(a, Identity(a)) && Carries(b, Identity(b));
  }

  /** A successful resolution emits no file twice, leaves out no file that is reachable and was not emitted
      beforehand, and has met no file twice on any walk. */
  lemma FilesOnce(g: Graph, mangle: bool, locals: set<string>, pre: set<string>, imports: seq<Import>)
    requires Closed(g) && TargetsIn(g, imports) && ResolveModules(g, mangle, locals, pre, imports).Done?
    ensures var prelude := ResolveModules(g, mangle, locals, pre, imports).st.prelude;
            && (forall i, j :: 0 <= i < j < |prelude| ==> !OneFile(prelude[i], prelude[j]))
            && (forall i, s :: 0 <= i < |prelude| && Carries(prelude[i], s) ==> s !in pre)
            && (forall w, s :: ImportWalk(g, imports, w) && Carries(w[|w| - 1], s) ==> s in pre || Listed(prelude, s))
    ensures forall w, i, j :: ImportWalk(g, imports, w) && 0 <= i < j < |w| ==> !OneFile(w[i], w[j])
  {
    var st := ResolveModules(g, mangle, locals, pre, imports).st;
    PreludeComplete(g, mangle, locals, pre, imports);
    hide ResolveAll, AfterImports, AllIn, ExportsApart, OneFile, Carries;
    forall i, j | 0 <= i < j < |st.prelude| ensures !OneFile(st.prelude[i], st.prelude[j]) {
      OneFileIs(st.prelude[i], st.prelude[j]);
    }
    forall i, s | 0 <= i < |st.prelude| && Carries(st.prelude[i], s) ensures s !in pre {
      IdentityCarries(st.prelude[i], s);
      InIdSet(st.prelude, i);
    }
    forall w, s | ImportWalk(g, imports, w) && Carries(w[|w| - 1], s) ensures s in pre || Listed(st.prelude, s) {
      SuccessCoversWalks(g, mangle, locals, pre, imports, w);
      IdentityCarries(w[|w| - 1], s);
      EmittedListed(pre, st, s);
    }
    forall w, i, j | ImportWalk(g, imports, w) && 0 <= i < j < |w| ensures !OneFile(w[i], w[j]) {
      SuccessCoversWalks(g, mangle, locals, pre, imports, w);
      OneFileIs(w[i], w[j]);
    }
  }

  ghost predicate Listed(prelude: seq<Module>, s: string) {
    exists i :: 0 <= i < |prelude| && Carries(prelude[i], s)
  }

  lemma EmittedListed(pre: set<string>, st: State, s: string)
    requires st.emitted == pre + IdSet(st.prelude) && s in st.emitted
    ensures s in pre || Listed(st.prelude, s)
  {
    if s !in pre {
      var i :| 0 <= i < |st.prelude| && Identity(st.prelude[i]) == s;
      IdentityCarries(st.prelude[i], s);
    }
  }

  /** A reported cycle is a walk of real imports from a file back to that file. */
  lemma CycleReturns(g: Graph, mangle: bool, locals: set<string>, pre: set<string>, imports: seq<Import>)
    requires Closed(g) && TargetsIn(g, imports) && ResolveModules(g, mangle, locals, pre, imports).Cycle?
    ensures exists w :: IsWalk(g, w) && |w| > 1 && OneFile(w[0], w[|w| - 1])
  {
    var start := State([], pre, map[]);
    ReportedCycleIsReal(g, mangle, locals, imports, map[], start);
    hide ResolveAll, IsWalk, OneFile, Ids;
    var ids := ResolveModules(g, mangle, locals, pre, imports).identities;
    var w :| IsWalk(g, w) && |w| > 1 && Identity(w[0]) == Identity(w[|w| - 1]) && ids == Ids(w);
    OneFileIs(w[0], w[|w| - 1]);
  }

  // ----- One file under two names, and two files under one -----

  const BY_NAME: Module := Module("util", "s", Some("p/util"), false)
  const BY_PATH: Module := Module("p/util", "s", Some("p/util"), false)
  const ELSEWHERE: Module := Module("util", "t", Some("q/util"), false)

  /** A module without imports that exports `name`. */
  function Plain(name: string): Info {
    Info(Ok([]), {name}, None, Ok("interface"), None)
  }

  lemma Alone(g: Graph, mangle: bool, locals: set<string>, m: Module, st: State)
    requires Closed(g) && m in g && g[m].imports == Ok([]) && g[m].unreadable.None? && g[m].undeclared.None?
    ensures Resolve(g, mangle, locals, m, [], st) == Emit(g, mangle, locals, m, st)
  {
    hide Emit;
    PushShrinks(g, [], m);
  }

  lemma Pair(g: Graph, mangle: bool, locals: set<string>, x: Import, y: Import, st: State)
    requires Closed(g) && x.target.Ok? && y.target.Ok? && x.target.value in g && y.target.value in g
    requires x.alias != y.alias
    ensures var r := Resolve(g, mangle, locals, x.target.value, [], st);
            ResolveAll(g, mangle, locals, [x, y], [], map[], st) ==
            if r.Done? then Resolve(g, mangle, locals, y.target.value, [], r.st) else r
  {
    hide Resolve, Identity;
    assert [x, y][1..] == [y] && [y][1..] == [];
    var r := Resolve(g, mangle, locals, x.target.value, [], st);
    if r.Done? {
      var next: map<string, string> := map[][x.alias := Identity(x.target.value)];
      var q := Resolve(g, mangle, locals, y.target.value, [], r.st);
      if q.Done? {
        assert ResolveAll(g, mangle, locals, [], [], next[y.alias := Identity(y.target.value)], q.st) == Done(q.st);
      }
      assert ResolveAll(g, mangle, locals, [y], [], next, r.st) == q;
    }
  }

  /** A file imported by its registry name and by its path is emitted once, mangled or not; two files with one
      registry name are both emitted. */
  lemma NamesAndFiles(mangle: bool)
    ensures var g := map[BY_NAME := Plain("f"), BY_PATH := Plain("f"), ELSEWHERE := Plain("h")];
            var once := [Import("a", Ok(BY_NAME)), Import("b", Ok(BY_PATH))];
            var both := [Import("a", Ok(BY_NAME)), Import("b", Ok(ELSEWHERE))];
            && Closed(g) && TargetsIn(g, once) && TargetsIn(g, both)
            && ResolveModules(g, mangle, {}, {}, once).Done?
            && ResolveModules(g, mangle, {}, {}, once).st.prelude == [BY_NAME]
            && ResolveModules(g, mangle, {}, {}, both).Done?
            && ResolveModules(g, mangle, {}, {}, both).st.prelude == [BY_NAME, ELSEWHERE]
  {
    var g := map[BY_NAME := Plain("f"), BY_PATH := Plain("f"), ELSEWHERE := Plain("h")];
    assert |"util"| == 4 && |"p/util"| == 6 && "p/util"[0] != "q/util"[0] && "a"[0] != "b"[0] && "f"[0] != "h"[0];
    var a, b, c := Import("a", Ok(BY_NAME)), Import("b", Ok(BY_PATH)), Import("b", Ok(ELSEWHERE));
    var start := State([], {}, map[]);
    Pair(g, mangle, {}, a, b, start);
    Pair(g, mangle, {}, a, c, start);
    Alone(g, mangle, {}, BY_NAME, start);
    var first := Emit(g, mangle, {}, BY_NAME, start).st;
    Alone(g, mangle, {}, BY_PATH, first);
    Alone(g, mangle, {}, ELSEWHERE, first);
    hide Resolve, ResolveAll;
  }
}
