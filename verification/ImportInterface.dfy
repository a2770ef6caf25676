/**
 Interface resolution (`resolve_modules`, `resolve_import_interface`): the interfaces of the modules
 an importer needs are emitted once each into one prelude, dependencies first; a repeated identity on
 the way down is a cycle, and without name mangling two emitted modules may not export one name.

 Parsing and resolving are a finite map from a module to what the parser finds in it.
 */
module ImportInterface {
  import opened Common

  datatype Module = Module(key: string, source: string, path: Option<string>, isStdlib: bool)

  function Identity(m: Module): string {
    if m.path.Some? then m.path.value else m.key
  }

  /** One interface import: its alias, and the module found or why none was. */
  datatype Import = Import(alias: string, target: Result<Module, string>)

  /** What reading a module yields; `unreadable` and `undeclared` are the parse failures met before and
      after its interface is emitted. */
  datatype Info = Info(imports: Result<seq<Import>, string>, exports: set<string>, unreadable: Option<string>,
                       text: Result<string, string>, undeclared: Option<string>)

  type Graph = map<Module, Info>

  ghost predicate Closed(g: Graph) {
    forall m :: m in g && g[m].imports.Ok? ==> TargetsIn(g, g[m].imports.value)
  }

  ghost predicate TargetsIn(g: Graph, items: seq<Import>) {
    forall x :: x in items && x.target.Ok? ==> x.target.value in g
  }

  /** `prelude` lists the modules whose interfaces were emitted; `exported` maps each of their exports to
      the module it came from. */
  datatype State = State(prelude: seq<Module>, emitted: set<string>, exported: map<string, Module>)

  datatype Failure = Text(message: string) | DuplicateAlias(alias: string) | Collision(m: Module)

  datatype Outcome = Done(st: State) | Cycle(identities: seq<string>) | Failed(failure: Failure)

  function Ids(ms: seq<Module>): (ids: seq<string>)
    ensures |ids| == |ms| && forall i :: 0 <= i < |ms| ==> ids[i] == Identity(ms[i])
  {
    seq(|ms|, i requires 0 <= i < |ms| => Identity(ms[i]))
  }

  ghost function Left(g: Graph, visiting: seq<Module>): set<Module> {
    g.Keys - (set m | m in visiting)
  }

  /** First module on the way down with this identity, if any. */
  function Position(visiting: seq<Module>, id: string): (k: nat)
    ensures k <= |visiting| && (k < |visiting| ==> Identity(visiting[k]) == id)
    ensures forall i :: 0 <= i < k ==> Identity(visiting[i]) != id
  {
    if visiting == [] || Identity(visiting[0]) == id then 0 else 1 + Position(visiting[1..], id)
  }

  /** `check_import_export_collisions` */
  predicate Collides(exports: set<string>, locals: set<string>, exported: map<string, Module>) {
    exports * locals != {} || exports * exported.Keys != {}
  }

  /** Emission of one module's interface, at most once per identity. */
  function Emit(g: Graph, mangle: bool, locals: set<string>, m: Module, st: State): (r: Outcome)
    requires m in g
    ensures !r.Cycle?
    ensures r.Done? ==> Identity(m) in r.st.emitted
  {
    if Identity(m) in st.emitted then Done(st)
    else if !mangle && Collides(g[m].exports, locals, st.exported) then Failed(Collision(m))
    else if g[m].text.Err? then Failed(Text(g[m].text.error))
    else
      var exported := if mangle then st.exported else st.exported + (map x | x in g[m].exports :: m);
      Done(State(st.prelude + [m], st.emitted + {Identity(m)}, exported))
  }

  /** Reading the exports, emitting, and reading the declarations, once the imports are resolved. */
  function Finish(g: Graph, mangle: bool, locals: set<string>, m: Module, st: State): (r: Outcome)
    requires m in g
    ensures !r.Cycle?
    ensures r.Done? ==> r == Emit(g, mangle, locals, m, st)
  {
    if g[m].unreadable.Some? then Failed(Text(g[m].unreadable.value))
    else
      var e := Emit(g, mangle, locals, m, st);
      if e.Done? && g[m].undeclared.Some? then Failed(Text(g[m].undeclared.value)) else e
  }

  /** `resolve_import_interface` of module `m`, below the modules `visiting`. */
  ghost function Resolve(g: Graph, mangle: bool, locals: set<string>, m: Module, visiting: seq<Module>,
                         st: State): Outcome
    requires Closed(g) && m in g
    decreases |Left(g, visiting)|, 0
  {
    var k := Position(visiting, Identity(m));
    if k < |visiting| then Cycle(Ids(visiting[k..]) + [Identity(m)])
    else match g[m].imports
      case Err(message) => Failed(Text(message))
      case Ok(items) =>
        PushShrinks(g, visiting, m);
        match ResolveAll(g, mangle, locals, items, visiting + [m], map[], st)
        case Done(s) => Finish(g, mangle, locals, m, s)
        case Cycle(ids) => Cycle(ids)
        case Failed(f) => Failed(f)
  }

  /** The imports of one module in order; `targets` is what each alias stands for so far. */
  ghost function ResolveAll(g: Graph, mangle: bool, locals: set<string>, items: seq<Import>, visiting: seq<Module>,
                            targets: map<string, string>, st: State): Outcome
    requires Closed(g) && TargetsIn(g, items)
    decreases |Left(g, visiting)|, |items| + 1
  {
    if items == [] then Done(st)
    else match items[0].target
      case Err(message) => Failed(Text(message))
      case Ok(t) =>
        match Resolve(g, mangle, locals, t, visiting, st)
        case Done(s) =>
          if items[0].alias in targets && targets[items[0].alias] != Identity(t) then
            Failed(DuplicateAlias(items[0].alias))
          else ResolveAll(g, mangle, locals, items[1..], visiting, targets[items[0].alias := Identity(t)], s)
        case Cycle(ids) => Cycle(ids)
        case Failed(f) => Failed(f)
  }

  lemma PushShrinks(g: Graph, visiting: seq<Module>, m: Module)
    requires m in g && Position(visiting, Identity(m)) == |visiting|
    ensures |Left(g, visiting + [m])| < |Left(g, visiting)|
  {
    hide Position;
    assert forall i :: 0 <= i < |visiting| ==> Identity(visiting[i]) != Identity(m);
    assert m !in visiting;
    assert Left(g, visiting) == Left(g, visiting + [m]) + {m};
  }

  // ----- Walks -----

  ghost predicate Edge(g: Graph, a: Module, b: Module) {
    a in g && g[a].imports.Ok? && exists x :: x in g[a].imports.value && x.target == Ok(b)
  }

  ghost predicate IsWalk(g: Graph, w: seq<Module>) {
    w != [] && w[0] in g && forall i :: 0 < i < |w| ==> Edge(g, w[i - 1], w[i])
  }

  ghost predicate DistinctIds(ms: seq<Module>) {
    forall i, j :: 0 <= i < j < |ms| ==> Identity(ms[i]) != Identity(ms[j])
  }

  // ----- Cycles -----

  /** A resolved module is new on the way down, and its imports resolved below it. */
  lemma Opened(g: Graph, mangle: bool, locals: set<string>, m: Module, visiting: seq<Module>, st: State)
    requires Closed(g) && m in g && DistinctIds(visiting) && Resolve(g, mangle, locals, m, visiting, st).Done?
    ensures DistinctIds(visiting + [m]) && g[m].imports.Ok?
    ensures ResolveAll(g, mangle, locals, g[m].imports.value, visiting + [m], map[], st).Done?
  {
    hide Position, ResolveAll, Emit;
    assert Position(visiting, Identity(m)) == |visiting|;
  }

  lemma WalkRest(g: Graph, w: seq<Module>)
    requires Closed(g) && IsWalk(g, w) && |w| > 1
    ensures IsWalk(g, w[1..]) && Edge(g, w[0], w[1]) && w[1] in g
  {
    assert Edge(g, w[0], w[1]);
    var v := w[1..];
    forall i | 0 < i < |v| ensures Edge(g, v[i - 1], v[i]) { assert Edge(g, w[i], w[i + 1]); }
  }

  /** A successful resolution has met no identity twice on any walk down from the module. */
  lemma {:induction false} SuccessIsAcyclic(g: Graph, mangle: bool, locals: set<string>, m: Module,
                                            visiting: seq<Module>, st: State, w: seq<Module>)
    requires Closed(g) && m in g && DistinctIds(visiting) && Resolve(g, mangle, locals, m, visiting, st).Done?
    requires IsWalk(g, w) && w[0] == m
    ensures DistinctIds(visiting + w)
    decreases |w|
  {
    Opened(g, mangle, locals, m, visiting, st);
    var next := visiting + [m];
    if |w| == 1 {
      assert w == [m];
    } else {
      WalkRest(g, w);
      var items := g[m].imports.value;
      var x :| x in items && x.target == Ok(w[1]);
      hide DistinctIds, Resolve, ResolveAll, IsWalk;
      var s := EachResolved(g, mangle, locals, items, next, map[], st, x);
      SuccessIsAcyclic(g, mangle, locals, w[1], next, s, w[1..]);
      assert next + w[1..] == visiting + w;
    }
  }

  /** When a list of imports resolves, each of them resolved, from some state. */
  lemma {:induction false} EachResolved(g: Graph, mangle: bool, locals: set<string>, items: seq<Import>,
                                        visiting: seq<Module>,
                                        targets: map<string, string>, st: State, x: Import) returns (s: State)
    requires Closed(g) && TargetsIn(g, items) && ResolveAll(g, mangle, locals, items, visiting, targets, st).Done?
    requires x in items && x.target.Ok?
    ensures Resolve(g, mangle, locals, x.target.value, visiting, s).Done?
    decreases |items|
  {
    var t := items[0].target.value;
    if x == items[0] {
      s := st;
    } else {
      var r := Resolve(g, mangle, locals, t, visiting, st);
      assert x in items[1..];
      s := EachResolved(g, mangle, locals, items[1..], visiting, targets[items[0].alias := Identity(t)], r.st, x);
    }
  }

  /** A closed walk of real imports whose identities are `ids`. */
  ghost predicate CycleWalk(g: Graph, ids: seq<string>) {
    exists w :: IsWalk(g, w) && |w| > 1 && Identity(w[0]) == Identity(w[|w| - 1]) && ids == Ids(w)
  }

  lemma {:induction false} ReportedCycle(g: Graph, mangle: bool, locals: set<string>, m: Module, visiting: seq<Module>,
                                         st: State)
    requires Closed(g) && m in g && IsWalk(g, visiting + [m])
    ensures var r := Resolve(g, mangle, locals, m, visiting, st); r.Cycle? ==> CycleWalk(g, r.identities)
    decreases |Left(g, visiting)|, 0
  {
    hide IsWalk, CycleWalk, Position, Emit, Ids, TargetsIn, Left, Identity;
    var k := Position(visiting, Identity(m));
    if k < |visiting| {
      CycleHere(g, m, visiting, k);
    } else if g[m].imports.Ok? {
      PushShrinks(g, visiting, m);
      ReportedCycleAll(g, mangle, locals, m, g[m].imports.value, visiting + [m], map[], st);
    }
  }

  lemma CycleHere(g: Graph, m: Module, visiting: seq<Module>, k: nat)
    requires IsWalk(g, visiting + [m]) && k < |visiting| && Identity(visiting[k]) == Identity(m)
    ensures CycleWalk(g, Ids(visiting[k..]) + [Identity(m)])
  {
    var all := visiting + [m];
    var w := all[k..];
    forall i | 0 < i < |w| ensures Edge(g, w[i - 1], w[i]) { assert Edge(g, all[k + i - 1], all[k + i]); }
    assert Edge(g, all[k], all[k + 1]);
    assert IsWalk(g, w) && w[0] == visiting[k] && w[|w| - 1] == m;
    assert Ids(visiting[k..]) + [Identity(m)] == Ids(w);
  }

  lemma {:induction false} ReportedCycleAll(g: Graph, mangle: bool, locals: set<string>, m: Module, items: seq<Import>,
                                            visiting: seq<Module>,
                                            targets: map<string, string>, st: State)
    requires Closed(g) && TargetsIn(g, items) && m in g && g[m].imports.Ok?
             && (forall x :: x in items ==> x in g[m].imports.value)
    requires visiting != [] && IsWalk(g, visiting) && visiting[|visiting| - 1] == m
    ensures var r := ResolveAll(g, mangle, locals, items, visiting, targets, st);
            r.Cycle? ==> CycleWalk(g, r.identities)
    decreases |Left(g, visiting)|, |items| + 1
  {
    if items != [] && items[0].target.Ok? {
      var t := items[0].target.value;
      WalkStep(g, visiting, t, items[0]);
      hide IsWalk, CycleWalk;
      ReportedCycle(g, mangle, locals, t, visiting, st);
      var r := Resolve(g, mangle, locals, t, visiting, st);
      if r.Done? {
        assert forall x :: x in items[1..] ==> x in items;
        ReportedCycleAll(g, mangle, locals, m, items[1..], visiting, targets[items[0].alias := Identity(t)], r.st);
      }
    }
  }

  lemma WalkStep(g: Graph, visiting: seq<Module>, t: Module, x: Import)
    requires IsWalk(g, visiting)
    requires var m := visiting[|visiting| - 1];
             m in g && g[m].imports.Ok? && x in g[m].imports.value && x.target == Ok(t)
    ensures IsWalk(g, visiting + [t])
  {
    var w := visiting + [t];
    assert Edge(g, visiting[|visiting| - 1], t);
    forall i | 0 < i < |w| ensures Edge(g, w[i - 1], w[i]) {
      if i < |visiting| { assert Edge(g, visiting[i - 1], visiting[i]); }
    }
  }

  // ----- The prelude -----

  ghost function IdSet(ms: seq<Module>): set<string> {
    set i | 0 <= i < |ms| :: Identity(ms[i])
  }

  /** Every import of `items` resolves to an identity in `ids`. */
  ghost predicate AllIn(items: seq<Import>, ids: set<string>) {
    forall x :: x in items ==> x.target.Ok? && Identity(x.target.value) in ids
  }

  /** The interface of `prelude[i]` comes after those of everything it imports, or after what was
      emitted beforehand (`pre`). */
  ghost predicate AfterImports(g: Graph, pre: set<string>, prelude: seq<Module>, i: nat)
    requires i < |prelude|
  {
    var m := prelude[i];
    m in g && g[m].imports.Ok? && AllIn(g[m].imports.value, pre + IdSet(prelude[..i]))
  }

  ghost predicate PreludeOk(g: Graph, pre: set<string>, st: State) {
    && st.emitted == pre + IdSet(st.prelude) && pre !! IdSet(st.prelude) && DistinctIds(st.prelude)
    && forall i :: 0 <= i < |st.prelude| ==> AfterImports(g, pre, st.prelude, i)
  }

  /** No name is exported by two emitted modules or declared by the importer. */
  ghost predicate ExportsApart(g: Graph, locals: set<string>, st: State) {
    && (forall i :: 0 <= i < |st.prelude| ==>
       st.prelude[i] in g && g[st.prelude[i]].exports !! locals && g[st.prelude[i]].exports <= st.exported.Keys)
    && (forall i, j :: 0 <= i < j < |st.prelude| ==> g[st.prelude[i]].exports !! g[st.prelude[j]].exports)
  }

  ghost predicate Kept(g: Graph, mangle: bool, locals: set<string>, pre: set<string>, st: State) {
    PreludeOk(g, pre, st) && (!mangle ==> ExportsApart(g, locals, st))
  }

  lemma IdSetAppend(ms: seq<Module>, m: Module)
    ensures IdSet(ms + [m]) == IdSet(ms) + {Identity(m)}
  {
    var all := ms + [m];
    assert all[|ms|] == m;
    forall x | x in IdSet(ms) ensures x in IdSet(all) {
      var i :| 0 <= i < |ms| && Identity(ms[i]) == x;
      assert all[i] == ms[i];
    }
  }

  lemma EmitKeepsPrelude(g: Graph, mangle: bool, locals: set<string>, pre: set<string>, m: Module, st: State)
    requires m in g && g[m].imports.Ok? && PreludeOk(g, pre, st) && AllIn(g[m].imports.value, st.emitted)
    ensures var e := Emit(g, mangle, locals, m, st);
            e.Done? ==> PreludeOk(g, pre, e.st) && st.emitted <= e.st.emitted && st.prelude <= e.st.prelude
  {
    var e := Emit(g, mangle, locals, m, st);
    if e.Done? && Identity(m) !in st.emitted {
      IdSetAppend(st.prelude, m);
      var prelude := st.prelude + [m];
      forall i | 0 <= i < |prelude| ensures AfterImports(g, pre, prelude, i) {
        assert prelude[..i] == st.prelude[..i];
        if i < |st.prelude| {
          assert AfterImports(g, pre, st.prelude, i);
        } else {
          assert st.prelude[..i] == st.prelude;
        }
      }
    }
  }

  lemma EmitKeepsExports(g: Graph, locals: set<string>, m: Module, st: State)
    requires m in g && ExportsApart(g, locals, st)
    ensures var e := Emit(g, false, locals, m, st); e.Done? ==> ExportsApart(g, locals, e.st)
  {
    var e := Emit(g, false, locals, m, st);
    if e.Done? && Identity(m) !in st.emitted {
      var exports, n := g[m].exports, |st.prelude|;
      assert e.st.exported.Keys == st.exported.Keys + exports;
      assert exports !! locals && exports !! st.exported.Keys by { CollidesMeans(exports, locals, st.exported); }
      forall i | 0 <= i < n ensures e.st.prelude[i] == st.prelude[i] && g[st.prelude[i]].exports !! exports {
      }
    }
  }

  lemma CollidesMeans(exports: set<string>, locals: set<string>, exported: map<string, Module>)
    requires !Collides(exports, locals, exported)
    ensures exports !! locals && exports !! exported.Keys
  {
    assert forall x :: x in exports && x in locals ==> x in exports * locals;
    assert forall x :: x in exports && x in exported.Keys ==> x in exports * exported.Keys;
  }

  /** What a resolution leaves: everything kept, and every visited identity emitted. */
  lemma {:induction false} ResolveKeeps(g: Graph, mangle: bool, locals: set<string>, pre: set<string>, m: Module,
                                        visiting: seq<Module>, st: State)
    requires Closed(g) && m in g && Kept(g, mangle, locals, pre, st)
    ensures var r := Resolve(g, mangle, locals, m, visiting, st);
            r.Done? ==> Kept(g, mangle, locals, pre, r.st) && st.emitted <= r.st.emitted && Identity(m) in r.st.emitted
    decreases |Left(g, visiting)|, 0
  {
    hide Position, Ids, TargetsIn, Left;
    if Position(visiting, Identity(m)) == |visiting| && g[m].imports.Ok? {
      var items := g[m].imports.value;
      PushShrinks(g, visiting, m);
      ResolveAllKeeps(g, mangle, locals, pre, items, visiting + [m], map[], st);
      var r := ResolveAll(g, mangle, locals, items, visiting + [m], map[], st);
      hide ResolveAll, PreludeOk, ExportsApart;
      if r.Done? {
        EmitKeepsPrelude(g, mangle, locals, pre, m, r.st);
        if !mangle { EmitKeepsExports(g, locals, m, r.st); }
      }
    }
  }

  lemma {:induction false} ResolveAllKeeps(g: Graph, mangle: bool, locals: set<string>, pre: set<string>,
                                           items: seq<Import>, visiting: seq<Module>,
                                           targets: map<string, string>, st: State)
    requires Closed(g) && TargetsIn(g, items) && Kept(g, mangle, locals, pre, st)
    ensures var r := ResolveAll(g, mangle, locals, items, visiting, targets, st);
            r.Done? ==> Kept(g, mangle, locals, pre, r.st) && st.emitted <= r.st.emitted && AllIn(items, r.st.emitted)
    decreases |Left(g, visiting)|, |items| + 1
  {
    hide Kept, Resolve, Left;
    if items != [] && items[0].target.Ok? {
      var t := items[0].target.value;
      ResolveKeeps(g, mangle, locals, pre, t, visiting, st);
      var r := Resolve(g, mangle, locals, t, visiting, st);
      if r.Done? {
        assert forall x :: x in items ==> x == items[0] || x in items[1..];
        ResolveAllKeeps(g, mangle, locals, pre, items[1..], visiting, targets[items[0].alias := Identity(t)], r.st);
      }
    }
  }

  // ----- Every module on the way is emitted -----

  /** As a list of imports resolves, each import resolves from a sound state and what it emits stays. */
  lemma {:induction false} EachEmits(g: Graph, mangle: bool, locals: set<string>, pre: set<string>, items: seq<Import>,
                                     visiting: seq<Module>,
                                     targets: map<string, string>, st: State, x: Import) returns (s: State)
    requires Closed(g) && TargetsIn(g, items) && Kept(g, mangle, locals, pre, st)
    requires x in items && x.target.Ok? && ResolveAll(g, mangle, locals, items, visiting, targets, st).Done?
    ensures Kept(g, mangle, locals, pre, s)
    ensures var r := Resolve(g, mangle, locals, x.target.value, visiting, s);
            r.Done? && r.st.emitted <= ResolveAll(g, mangle, locals, items, visiting, targets, st).st.emitted
    decreases |items|
  {
    hide Kept, Resolve;
    var t := items[0].target.value;
    var r := Resolve(g, mangle, locals, t, visiting, st);
    var rest := targets[items[0].alias := Identity(t)];
    ResolveKeeps(g, mangle, locals, pre, t, visiting, st);
    ResolveAllKeeps(g, mangle, locals, pre, items[1..], visiting, rest, r.st);
    if x == items[0] {
      s := st;
    } else {
      assert x in items[1..];
      s := EachEmits(g, mangle, locals, pre, items[1..], visiting, rest, r.st, x);
    }
  }

  /** Resolving `m` emits its imports' results and then `m` itself. */
  lemma OpenedEmits(g: Graph, mangle: bool, locals: set<string>, pre: set<string>, m: Module, visiting: seq<Module>,
                    st: State)
    requires Closed(g) && m in g && Kept(g, mangle, locals, pre, st)
             && Resolve(g, mangle, locals, m, visiting, st).Done?
    ensures g[m].imports.Ok?
    ensures var all := ResolveAll(g, mangle, locals, g[m].imports.value, visiting + [m], map[], st);
            all.Done? && all.st.emitted <= Resolve(g, mangle, locals, m, visiting, st).st.emitted
  {
    hide Position, ResolveAll, Kept;
  }

  lemma {:induction false} WalkEmitted(g: Graph, mangle: bool, locals: set<string>, pre: set<string>, m: Module,
                                       visiting: seq<Module>, st: State, w: seq<Module>)
    requires Closed(g) && m in g && Kept(g, mangle, locals, pre, st)
             && Resolve(g, mangle, locals, m, visiting, st).Done?
    requires IsWalk(g, w) && w[0] == m
    ensures Identity(w[|w| - 1]) in Resolve(g, mangle, locals, m, visiting, st).st.emitted
    decreases |w|
  {
    if |w| == 1 {
      ResolveKeeps(g, mangle, locals, pre, m, visiting, st);
    } else {
      WalkRest(g, w);
      OpenedEmits(g, mangle, locals, pre, m, visiting, st);
      var items := g[m].imports.value;
      var x :| x in items && x.target == Ok(w[1]);
      hide Kept, Resolve, ResolveAll, IsWalk;
      var s := EachEmits(g, mangle, locals, pre, items, visiting + [m], map[], st, x);
      WalkEmitted(g, mangle, locals, pre, w[1], visiting + [m], s, w[1..]);
    }
  }

  // ----- The importer -----

  /** `resolve_modules`: the imports of the importing source in order, with the kernel ABI's identity, if
      any, emitted beforehand. */
  ghost function ResolveModules(g: Graph, mangle: bool, locals: set<string>, pre: set<string>,
                                imports: seq<Import>): Outcome
    requires Closed(g) && TargetsIn(g, imports)
  {
    ResolveAll(g, mangle, locals, imports, [], map[], State([], pre, map[]))
  }

  lemma StartKept(g: Graph, mangle: bool, locals: set<string>, pre: set<string>)
    ensures Kept(g, mangle, locals, pre, State([], pre, map[]))
  {
    assert IdSet([]) == {};
  }

  /** Main theorem: when resolution succeeds, each identity is emitted once and after all of its
      interface imports, nothing reachable is left out, and without mangling no two emitted modules
      export one name nor does any export a name of the importer. */
  lemma PreludeComplete(g: Graph, mangle: bool, locals: set<string>, pre: set<string>, imports: seq<Import>)
    requires Closed(g) && TargetsIn(g, imports) && ResolveModules(g, mangle, locals, pre, imports).Done?
    ensures var st := ResolveModules(g, mangle, locals, pre, imports).st;
            PreludeOk(g, pre, st) && AllIn(imports, st.emitted) && (!mangle ==> ExportsApart(g, locals, st))
  {
    StartKept(g, mangle, locals, pre);
    ResolveAllKeeps(g, mangle, locals, pre, imports, [], map[], State([], pre, map[]));
    hide PreludeOk, ExportsApart, ResolveAll;
  }

  /** A walk of interface imports that starts at one of the importer's imports. */
  ghost predicate ImportWalk(g: Graph, imports: seq<Import>, w: seq<Module>) {
    IsWalk(g, w) && exists x :: x in imports && x.target == Ok(w[0])
  }

  /** Success means no walk from the importer meets an identity twice, and everything met is emitted. */
  lemma SuccessCoversWalks(g: Graph, mangle: bool, locals: set<string>, pre: set<string>, imports: seq<Import>,
                           w: seq<Module>)
    requires Closed(g) && TargetsIn(g, imports) && ResolveModules(g, mangle, locals, pre, imports).Done?
             && ImportWalk(g, imports, w)
    ensures DistinctIds(w) && Identity(w[|w| - 1]) in ResolveModules(g, mangle, locals, pre, imports).st.emitted
  {
    var x :| x in imports && x.target == Ok(w[0]);
    StartKept(g, mangle, locals, pre);
    hide Kept, Resolve, ResolveAll;
    var s := EachEmits(g, mangle, locals, pre, imports, [], map[], State([], pre, map[]), x);
    WalkEmitted(g, mangle, locals, pre, w[0], [], s, w);
    SuccessIsAcyclic(g, mangle, locals, w[0], [], s, w);
    assert [] + w == w;
  }

  /** A reported cycle is a closed walk of real imports. */
  lemma {:induction false} ReportedCycleIsReal(g: Graph, mangle: bool, locals: set<string>, imports: seq<Import>,
                                               targets: map<string, string>, st: State)
    requires Closed(g) && TargetsIn(g, imports)
    ensures var r := ResolveAll(g, mangle, locals, imports, [], targets, st); r.Cycle? ==> CycleWalk(g, r.identities)
    decreases |imports|
  {
    if imports != [] && imports[0].target.Ok? {
      var t := imports[0].target.value;
      assert [] + [t] == [t] && IsWalk(g, [t]);
      hide CycleWalk, Resolve;
      ReportedCycle(g, mangle, locals, t, [], st);
      var r := Resolve(g, mangle, locals, t, [], st);
      if r.Done? {
        ReportedCycleIsReal(g, mangle, locals, imports[1..], targets[imports[0].alias := Identity(t)], r.st);
      }
    }
  }

  // ----- The resolver as it runs -----

  datatype Error = CyclicImport(identities: seq<string>) | Other(failure: Failure)

  method FindIdentity(visiting: seq<string>, id: string, ghost path: seq<Module>) returns (k: nat)
    requires visiting == Ids(path)
    ensures k == Position(path, id)
  {
    k := 0;
    while k < |visiting| && visiting[k] != id
      invariant k <= |visiting| && forall i :: 0 <= i < k ==> visiting[i] != id
    {
      k := k + 1;
    }
    hide Position;
  }

  /** The mutable state threaded through the recursion (`ImportInterfaceState`). */
  class InterfaceState {
    var prelude: seq<Module>
    var emitted: set<string>
    var exported: map<string, Module>
    var visiting: seq<string>
    const locals: set<string>

    ghost function St(): State
      reads this
    {
      State(prelude, emitted, exported)
    }

    /** The call leaves what `r` says: the new state and the same visiting list, or the error. */
    ghost predicate Leaves(r: Outcome, before: seq<string>, error: Option<Error>)
      reads this
    {
      match r
      case Done(st) => error == None && St() == st && visiting == before
      case Cycle(ids) => error == Some(CyclicImport(ids))
      case Failed(f) => error == Some(Other(f))
    }

    constructor (locals: set<string>, pre: set<string>)
      ensures St() == State([], pre, map[]) && visiting == [] && this.locals == locals
    {
      prelude, emitted, exported, visiting := [], pre, map[], [];
      this.locals := locals;
    }

    method EmitInterface(g: Graph, mangle: bool, m: Module) returns (error: Option<Error>)
      requires m in g
      modifies this
      ensures Leaves(Emit(g, mangle, locals, m, old(St())), old(visiting), error)
    {
      error := None;
      if Identity(m) in emitted {
        return;
      }
      if !mangle && Collides(g[m].exports, locals, exported) {
        return Some(Other(Collision(m)));
      }
      if g[m].text.Err? {
        return Some(Other(Text(g[m].text.error)));
      }
      emitted := emitted + {Identity(m)};
      if !mangle {
        exported := exported + (map x | x in g[m].exports :: m);
      }
      prelude := prelude + [m];
    }

    method FinishInterface(g: Graph, mangle: bool, m: Module) returns (error: Option<Error>)
      requires m in g
      modifies this
      ensures Leaves(Finish(g, mangle, locals, m, old(St())), old(visiting), error)
    {
      if g[m].unreadable.Some? {
        return Some(Other(Text(g[m].unreadable.value)));
      }
      hide Emit;
      error := EmitInterface(g, mangle, m);
      if error.None? && g[m].undeclared.Some? {
        return Some(Other(Text(g[m].undeclared.value)));
      }
    }

    method ResolveImportInterface(g: Graph, mangle: bool, m: Module, ghost path: seq<Module>)
      returns (error: Option<Error>)
      requires Closed(g) && m in g && visiting == Ids(path)
      modifies this
      ensures Leaves(Resolve(g, mangle, locals, m, path, old(St())), old(visiting), error)
      decreases |Left(g, path)|, 0
    {
      hide Position, TargetsIn, Left, ResolveAll, Finish, Identity;
      var k := FindIdentity(visiting, Identity(m), path);
      if k < |visiting| {
        assert visiting[k..] == Ids(path[k..]);
        return Some(CyclicImport(visiting[k..] + [Identity(m)]));
      }
      if g[m].imports.Err? {
        return Some(Other(Text(g[m].imports.error)));
      }
      PushShrinks(g, path, m);
      visiting := visiting + [Identity(m)];
      assert visiting == Ids(path + [m]);
      hide Ids;
      error := ResolveEach(g, mangle, g[m].imports.value, map[], path + [m]);
      if error.None? {
        visiting := visiting[..|visiting| - 1];
        error := FinishInterface(g, mangle, m);
      }
    }

    method ResolveEach(g: Graph, mangle: bool, items: seq<Import>, targets: map<string, string>,
                       ghost path: seq<Module>) returns (error: Option<Error>)
      requires Closed(g) && TargetsIn(g, items) && visiting == Ids(path)
      modifies this
      ensures Leaves(ResolveAll(g, mangle, locals, items, path, targets, old(St())), old(visiting), error)
      decreases |Left(g, path)|, |items| + 1
    {
      hide Resolve, Left, Ids;
      error := None;
      var aliases := targets;
      ghost var all := ResolveAll(g, mangle, locals, items, path, targets, St());
      for i := 0 to |items|
        invariant error == None && visiting == Ids(path)
        invariant TargetsIn(g, items[i..]) && ResolveAll(g, mangle, locals, items[i..], path, aliases, St()) == all
      {
        var x := items[i];
        assert x in items && items[i..][0] == x && items[i..][1..] == items[i + 1..];
        if x.target.Err? {
          return Some(Other(Text(x.target.error)));
        }
        error := ResolveImportInterface(g, mangle, x.target.value, path);
        if error.Some? {
          return;
        }
        if x.alias in aliases && aliases[x.alias] != Identity(x.target.value) {
          return Some(Other(DuplicateAlias(x.alias)));
        }
        aliases := aliases[x.alias := Identity(x.target.value)];
      }
    }
  }
}
