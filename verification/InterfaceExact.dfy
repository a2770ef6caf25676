/** Exactly when interface resolution succeeds, as a condition on the import graph alone. */
module InterfaceExact {
  import opened Common
  import opened ImportInterface

  /** A walk of interface imports leads from the importer to `m`. */
  ghost predicate Reached(g: Graph, imports: seq<Import>, m: Module) {
    exists w :: ImportWalk(g, imports, w) && w[|w| - 1] == m
  }

  /** Every import is found, and no alias stands for two modules. */
  ghost predicate ItemsOk(items: seq<Import>) {
    && (forall x :: x in items ==> x.target.Ok?)
    && (forall x, y :: x in items && y in items && x.alias == y.alias && x.target.Ok? && y.target.Ok? ==>
          Identity(x.target.value) == Identity(y.target.value))
  }

  ghost predicate Reads(g: Graph, m: Module) {
    m in g && g[m].imports.Ok? && ItemsOk(g[m].imports.value) && g[m].unreadable.None? && g[m].undeclared.None?
  }

  /** Emitting `m` is possible as far as `m` alone is concerned. */
  ghost predicate Emits(g: Graph, mangle: bool, locals: set<string>, m: Module) {
    m in g && g[m].text.Ok? && (mangle || g[m].exports !! locals)
  }

  ghost predicate Apart(g: Graph, a: Module, b: Module) {
    a in g && b in g && (Identity(a) != Identity(b) ==> g[a].exports !! g[b].exports)
  }

  ghost predicate NoCycle(g: Graph, imports: seq<Import>) {
    forall w :: ImportWalk(g, imports, w) ==> DistinctIds(w)
  }

  /** Reached, and not emitted beforehand. */
  ghost predicate ToEmit(g: Graph, pre: set<string>, imports: seq<Import>, m: Module) {
    Reached(g, imports, m) && Identity(m) !in pre
  }

  /** No walk repeats an identity, everything reached reads, and what is emitted has an interface and,
      without mangling, exports no name of the importer or of another module. */
  ghost predicate Resolvable(g: Graph, mangle: bool, locals: set<string>, pre: set<string>, imports: seq<Import>) {
    && ItemsOk(imports) && NoCycle(g, imports)
    && (forall m :: Reached(g, imports, m) ==> Reads(g, m))
    && (forall m :: ToEmit(g, pre, imports, m) ==> Emits(g, mangle, locals, m))
    && (mangle || forall a, b :: ToEmit(g, pre, imports, a) && ToEmit(g, pre, imports, b) ==> Apart(g, a, b))
  }

  /** Modules with one identity are one file. */
  ghost predicate SameFile(g: Graph) {
    forall a, b :: a in g && b in g && Identity(a) == Identity(b) ==>
      g[a].exports == g[b].exports && (g[a].text.Ok? <==> g[b].text.Ok?)
  }

  // ----- The condition is enough -----

  /** What has been emitted was reached, and every name taken was exported by an emitted module. */
  ghost predicate FromReached(g: Graph, pre: set<string>, imports: seq<Import>, st: State) {
    && (forall i :: 0 <= i < |st.prelude| ==> ToEmit(g, pre, imports, st.prelude[i]) && st.prelude[i] in g)
    && pre + IdSet(st.prelude) <= st.emitted
    && (forall n :: n in st.exported ==>
       exists i :: 0 <= i < |st.prelude| && st.prelude[i] in g && n in g[st.prelude[i]].exports)
  }

  lemma EmitDone(g: Graph, mangle: bool, locals: set<string>, pre: set<string>, imports: seq<Import>, m: Module,
                 st: State)
    requires m in g && FromReached(g, pre, imports, st) && Resolvable(g, mangle, locals, pre, imports)
             && Reached(g, imports, m)
    ensures Emit(g, mangle, locals, m, st).Done?
  {
    hide Reached, Reads, NoCycle, ItemsOk, IdSet;
    if Identity(m) !in st.emitted {
      assert ToEmit(g, pre, imports, m) && Emits(g, mangle, locals, m);
      if !mangle {
        forall n | n in st.exported ensures n !in g[m].exports {
          var i :| 0 <= i < |st.prelude| && st.prelude[i] in g && n in g[st.prelude[i]].exports;
          assert Identity(st.prelude[i]) in st.emitted by { InIdSet(st.prelude, i); }
          assert Apart(g, m, st.prelude[i]);
        }
        assert g[m].exports * st.exported.Keys == {} && g[m].exports * locals == {};
      }
    }
  }

  lemma InIdSet(ms: seq<Module>, i: nat)
    requires i < |ms|
    ensures Identity(ms[i]) in IdSet(ms)
  {
  }

  lemma EmitKeeps(g: Graph, mangle: bool, locals: set<string>, pre: set<string>, imports: seq<Import>, m: Module,
                  st: State)
    requires m in g && FromReached(g, pre, imports, st) && Reached(g, imports, m)
             && Emit(g, mangle, locals, m, st).Done?
    ensures FromReached(g, pre, imports, Emit(g, mangle, locals, m, st).st)
  {
    hide Reached, Collides;
    var r := Emit(g, mangle, locals, m, st).st;
    if Identity(m) !in st.emitted {
      IdSetAppend(st.prelude, m);
      hide IdSet;
      forall n | n in r.exported
        ensures exists i :: 0 <= i < |r.prelude| && r.prelude[i] in g && n in g[r.prelude[i]].exports
      {
        if n in g[m].exports {
          assert r.prelude[|st.prelude|] == m;
        } else {
          var i :| 0 <= i < |st.prelude| && st.prelude[i] in g && n in g[st.prelude[i]].exports;
          assert r.prelude[i] == st.prelude[i];
        }
      }
    }
  }

  /** Each alias stands for one of the items that bear it. */
  ghost predicate Aliases(items: seq<Import>, targets: map<string, string>) {
    forall a :: a in targets ==>
      exists y :: y in items && y.alias == a && y.target.Ok? && targets[a] == Identity(y.target.value)
  }

  ghost predicate Leads(g: Graph, imports: seq<Import>, visiting: seq<Module>, items: seq<Import>) {
    forall x :: x in items && x.target.Ok? ==> ImportWalk(g, imports, visiting + [x.target.value])
  }

  lemma ReachedEnd(g: Graph, imports: seq<Import>, visiting: seq<Module>, m: Module)
    requires ImportWalk(g, imports, visiting + [m])
    ensures Reached(g, imports, m)
  {
    var w := visiting + [m];
    assert w[|w| - 1] == m;
  }

  lemma LeadsOn(g: Graph, imports: seq<Import>, visiting: seq<Module>, m: Module)
    requires ImportWalk(g, imports, visiting + [m]) && m in g && g[m].imports.Ok?
    ensures Leads(g, imports, visiting + [m], g[m].imports.value)
  {
    var w, items := visiting + [m], g[m].imports.value;
    forall x | x in items && x.target.Ok? ensures ImportWalk(g, imports, w + [x.target.value]) {
      WalkStep(g, w, x.target.value, x);
      assert (w + [x.target.value])[0] == w[0];
    }
  }

  lemma NotVisiting(visiting: seq<Module>, m: Module)
    requires DistinctIds(visiting + [m])
    ensures Position(visiting, Identity(m)) == |visiting|
  {
    hide Position;
    var w := visiting + [m];
    assert w[|visiting|] == m && forall i :: 0 <= i < |visiting| ==> w[i] == visiting[i];
  }

  lemma FinishDone(g: Graph, mangle: bool, locals: set<string>, pre: set<string>, imports: seq<Import>, m: Module,
                   st: State)
    requires m in g && FromReached(g, pre, imports, st) && Resolvable(g, mangle, locals, pre, imports)
             && Reached(g, imports, m)
    ensures Finish(g, mangle, locals, m, st).Done? && FromReached(g, pre, imports, Finish(g, mangle, locals, m, st).st)
  {
    assert Reads(g, m);
    hide Resolvable, FromReached, Reached, Emit, ItemsOk;
    EmitDone(g, mangle, locals, pre, imports, m, st);
    EmitKeeps(g, mangle, locals, pre, imports, m, st);
  }

  lemma {:induction false} Resolves(g: Graph, mangle: bool, locals: set<string>, pre: set<string>, imports: seq<Import>,
                                    m: Module, visiting: seq<Module>, st: State)
    requires Closed(g) && m in g && Resolvable(g, mangle, locals, pre, imports) && FromReached(g, pre, imports, st)
    requires ImportWalk(g, imports, visiting + [m])
    ensures var r := Resolve(g, mangle, locals, m, visiting, st); r.Done? && FromReached(g, pre, imports, r.st)
    decreases |Left(g, visiting)|, 0
  {
    ReachedEnd(g, imports, visiting, m);
    assert Reads(g, m) && DistinctIds(visiting + [m]);
    NotVisiting(visiting, m);
    var items := g[m].imports.value;
    LeadsOn(g, imports, visiting, m);
    PushShrinks(g, visiting, m);
    hide ImportWalk, Resolvable, FromReached, Reached, Position, Finish, Leads, ItemsOk, DistinctIds;
    NoAliases(items);
    ResolvesAll(g, mangle, locals, pre, imports, items, items, visiting + [m], map[], st);
    FinishDone(g, mangle, locals, pre, imports, m, ResolveAll(g, mangle, locals, items, visiting + [m], map[], st).st);
  }

  lemma NoAliases(items: seq<Import>)
    ensures Aliases(items, map[])
  {
  }

  lemma AliasKept(all: seq<Import>, x: Import, targets: map<string, string>)
    requires ItemsOk(all) && Aliases(all, targets) && x in all && x.target.Ok?
    ensures x.alias in targets ==> targets[x.alias] == Identity(x.target.value)
    ensures Aliases(all, targets[x.alias := Identity(x.target.value)])
  {
    hide Identity;
  }

  lemma {:induction false} ResolvesAll(g: Graph, mangle: bool, locals: set<string>, pre: set<string>,
                                       imports: seq<Import>,
                                       all: seq<Import>, items: seq<Import>, visiting: seq<Module>,
                                       targets: map<string, string>, st: State)
    requires Closed(g) && TargetsIn(g, items) && Resolvable(g, mangle, locals, pre, imports)
             && FromReached(g, pre, imports, st)
    requires ItemsOk(all) && Aliases(all, targets) && (forall x :: x in items ==> x in all)
             && Leads(g, imports, visiting, items)
    ensures var r := ResolveAll(g, mangle, locals, items, visiting, targets, st);
            r.Done? && FromReached(g, pre, imports, r.st)
    decreases |Left(g, visiting)|, |items| + 1
  {
    if items != [] {
      var x := items[0];
      assert x in items && x in all && x.target.Ok?;
      var t := x.target.value;
      assert ImportWalk(g, imports, visiting + [t]);
      AliasKept(all, x, targets);
      hide ItemsOk, Aliases, Resolvable, FromReached, Resolve, ImportWalk, Left;
      Resolves(g, mangle, locals, pre, imports, t, visiting, st);
      var r := Resolve(g, mangle, locals, t, visiting, st);
      ResolvesAll(g, mangle, locals, pre, imports, all, items[1..], visiting, targets[x.alias := Identity(t)], r.st);
    }
  }

  // ----- The condition is needed -----

  lemma {:induction false} ItemsResolved(g: Graph, mangle: bool, locals: set<string>, items: seq<Import>,
                                         visiting: seq<Module>,
                                         targets: map<string, string>, st: State)
    requires Closed(g) && TargetsIn(g, items) && ResolveAll(g, mangle, locals, items, visiting, targets, st).Done?
    ensures ItemsOk(items)
    ensures forall x :: x in items && x.alias in targets ==>
            x.target.Ok? && targets[x.alias] == Identity(x.target.value)
    decreases |items|
  {
    hide Resolve, Identity;
    if items != [] {
      var x := items[0];
      var t := x.target.value;
      var r := Resolve(g, mangle, locals, t, visiting, st);
      ItemsResolved(g, mangle, locals, items[1..], visiting, targets[x.alias := Identity(t)], r.st);
      assert forall y :: y in items ==> y == x || y in items[1..];
    }
  }

  lemma ResolvedReads(g: Graph, mangle: bool, locals: set<string>, m: Module, visiting: seq<Module>, st: State)
    requires Closed(g) && m in g && Resolve(g, mangle, locals, m, visiting, st).Done?
    ensures Reads(g, m) && ResolveAll(g, mangle, locals, g[m].imports.value, visiting + [m], map[], st).Done?
  {
    hide Position, ResolveAll, Emit, ItemsOk;
    ItemsResolved(g, mangle, locals, g[m].imports.value, visiting + [m], map[], st);
  }

  lemma {:induction false} WalkReads(g: Graph, mangle: bool, locals: set<string>, m: Module, visiting: seq<Module>,
                                     st: State,
                                     w: seq<Module>)
    requires Closed(g) && m in g && Resolve(g, mangle, locals, m, visiting, st).Done? && IsWalk(g, w) && w[0] == m
    ensures Reads(g, w[|w| - 1])
    decreases |w|
  {
    ResolvedReads(g, mangle, locals, m, visiting, st);
    if |w| > 1 {
      WalkRest(g, w);
      var items := g[m].imports.value;
      var x :| x in items && x.target == Ok(w[1]);
      hide Resolve, ResolveAll, IsWalk, Reads;
      var s := EachResolved(g, mangle, locals, items, visiting + [m], map[], st, x);
      WalkReads(g, mangle, locals, w[1], visiting + [m], s, w[1..]);
    }
  }

  lemma ReachedReads(g: Graph, mangle: bool, locals: set<string>, pre: set<string>, imports: seq<Import>, m: Module)
    requires Closed(g) && TargetsIn(g, imports) && ResolveModules(g, mangle, locals, pre, imports).Done?
             && Reached(g, imports, m)
    ensures Reads(g, m) && Identity(m) in ResolveModules(g, mangle, locals, pre, imports).st.emitted
  {
    hide Resolve, ResolveAll, Reads;
    var w :| ImportWalk(g, imports, w) && w[|w| - 1] == m;
    SuccessCoversWalks(g, mangle, locals, pre, imports, w);
    var x :| x in imports && x.target == Ok(w[0]);
    var s := EachResolved(g, mangle, locals, imports, [], map[], State([], pre, map[]), x);
    WalkReads(g, mangle, locals, w[0], [], s, w);
  }

  /** Every emitted module has an interface. */
  ghost predicate Texts(g: Graph, st: State) {
    forall i :: 0 <= i < |st.prelude| ==> st.prelude[i] in g && g[st.prelude[i]].text.Ok?
  }

  lemma {:induction false} ResolveTexts(g: Graph, mangle: bool, locals: set<string>, m: Module, visiting: seq<Module>,
                                        st: State)
    requires Closed(g) && m in g && Texts(g, st)
    ensures var r := Resolve(g, mangle, locals, m, visiting, st); r.Done? ==> Texts(g, r.st)
    decreases |Left(g, visiting)|, 0
  {
    hide Position, Collides, Left, Ids;
    if Position(visiting, Identity(m)) == |visiting| && g[m].imports.Ok? {
      PushShrinks(g, visiting, m);
      ResolveAllTexts(g, mangle, locals, g[m].imports.value, visiting + [m], map[], st);
    }
  }

  lemma {:induction false} ResolveAllTexts(g: Graph, mangle: bool, locals: set<string>, items: seq<Import>,
                                           visiting: seq<Module>,
                                           targets: map<string, string>, st: State)
    requires Closed(g) && TargetsIn(g, items) && Texts(g, st)
    ensures var r := ResolveAll(g, mangle, locals, items, visiting, targets, st); r.Done? ==> Texts(g, r.st)
    decreases |Left(g, visiting)|, |items| + 1
  {
    hide Resolve, Texts, Left;
    if items != [] && items[0].target.Ok? {
      var t := items[0].target.value;
      ResolveTexts(g, mangle, locals, t, visiting, st);
      var r := Resolve(g, mangle, locals, t, visiting, st);
      if r.Done? {
        ResolveAllTexts(g, mangle, locals, items[1..], visiting, targets[items[0].alias := Identity(t)], r.st);
      }
    }
  }

  /** The emitted module with the identity of `m`. */
  lemma Emitted(g: Graph, pre: set<string>, st: State, m: Module) returns (i: nat)
    requires PreludeOk(g, pre, st) && Identity(m) in st.emitted && Identity(m) !in pre
    ensures i < |st.prelude| && st.prelude[i] in g && Identity(st.prelude[i]) == Identity(m)
  {
    assert Identity(m) in IdSet(st.prelude);
    i :| 0 <= i < |st.prelude| && Identity(st.prelude[i]) == Identity(m);
    assert AfterImports(g, pre, st.prelude, i);
  }

  lemma EmittedEmits(g: Graph, mangle: bool, locals: set<string>, pre: set<string>, st: State, m: Module)
    requires SameFile(g) && PreludeOk(g, pre, st) && Texts(g, st) && (mangle || ExportsApart(g, locals, st))
    requires m in g && Identity(m) in st.emitted && Identity(m) !in pre
    ensures Emits(g, mangle, locals, m)
  {
    hide PreludeOk, Identity;
    var i := Emitted(g, pre, st, m);
  }

  lemma EmittedApart(g: Graph, locals: set<string>, pre: set<string>, st: State, a: Module, b: Module)
    requires SameFile(g) && PreludeOk(g, pre, st) && ExportsApart(g, locals, st)
    requires a in g && Identity(a) in st.emitted && Identity(a) !in pre && b in g && Identity(b) in st.emitted
             && Identity(b) !in pre
    ensures Apart(g, a, b)
  {
    hide PreludeOk, Identity;
    var i := Emitted(g, pre, st, a);
    var j := Emitted(g, pre, st, b);
    if Identity(a) != Identity(b) { assert i < j || j < i; }
  }

  lemma DoneResolvable(g: Graph, mangle: bool, locals: set<string>, pre: set<string>, imports: seq<Import>)
    requires Closed(g) && TargetsIn(g, imports) && SameFile(g) && ResolveModules(g, mangle, locals, pre, imports).Done?
    ensures Resolvable(g, mangle, locals, pre, imports)
  {
    var start := State([], pre, map[]);
    var st := ResolveModules(g, mangle, locals, pre, imports).st;
    ItemsResolved(g, mangle, locals, imports, [], map[], start);
    PreludeComplete(g, mangle, locals, pre, imports);
    ResolveAllTexts(g, mangle, locals, imports, [], map[], start);
    hide ResolveAll, PreludeOk, ExportsApart, Texts, SameFile, Reached, Reads, Emits, Apart, Identity, ItemsOk;
    forall w | ImportWalk(g, imports, w)
      ensures DistinctIds(w) { SuccessCoversWalks(g, mangle, locals, pre, imports, w); }
    hide ImportWalk, DistinctIds;
    forall m | Reached(g, imports, m) ensures Reads(g, m) && Identity(m) in st.emitted && m in g {
      ReachedReads(g, mangle, locals, pre, imports, m);
      ReadsIn(g, m);
    }
    forall m | ToEmit(g, pre, imports, m) ensures Emits(g, mangle, locals, m) {
      EmittedEmits(g, mangle, locals, pre, st, m);
    }
    if !mangle {
      forall a, b | ToEmit(g, pre, imports, a) && ToEmit(g, pre, imports, b) ensures Apart(g, a, b) {
        EmittedApart(g, locals, pre, st, a, b);
      }
    }
  }

  lemma ReadsIn(g: Graph, m: Module)
    requires Reads(g, m)
    ensures m in g
  {
  }

  /** Main theorem: resolution succeeds exactly when no walk from the importer repeats an identity, every
      reachable module reads with its imports found under unambiguous aliases, and what is emitted has an
      interface and, without mangling, shares no export with another module or with the importer. */
  lemma ResolutionExact(g: Graph, mangle: bool, locals: set<string>, pre: set<string>, imports: seq<Import>)
    requires Closed(g) && TargetsIn(g, imports) && SameFile(g)
    ensures ResolveModules(g, mangle, locals, pre, imports).Done? <==> Resolvable(g, mangle, locals, pre, imports)
  {
    if Resolvable(g, mangle, locals, pre, imports) {
      var start := State([], pre, map[]);
      assert FromReached(g, pre, imports, start) by { assert IdSet([]) == {}; }
      assert ItemsOk(imports);
      FirstLeads(g, imports);
      NoAliases(imports);
      hide Resolvable, FromReached, ResolveAll, Leads, ItemsOk, Aliases;
      ResolvesAll(g, mangle, locals, pre, imports, imports, imports, [], map[], start);
    }
    if ResolveModules(g, mangle, locals, pre, imports).Done? {
      hide Resolvable, ResolveAll, SameFile;
      DoneResolvable(g, mangle, locals, pre, imports);
    }
  }

  lemma FirstLeads(g: Graph, imports: seq<Import>)
    requires TargetsIn(g, imports)
    ensures Leads(g, imports, [], imports)
  {
    forall x | x in imports && x.target.Ok? ensures ImportWalk(g, imports, [] + [x.target.value]) {
      assert [] + [x.target.value] == [x.target.value];
    }
  }
}
