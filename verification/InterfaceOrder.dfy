/**
 Exactly when interface resolution succeeds, for any graph: of several modules with one identity the first
 one met emits its interface, so the condition is on the modules in the order they are met.
 */
module InterfaceOrder {
  import opened Common
  import opened ImportInterface
  import opened InterfaceExact

  // ----- The order of emission -----

  /** The modules listed once `m` is met: those listed before, those first met below it, then `m` itself
      unless its identity is listed or emitted beforehand. */
  ghost function Listing(g: Graph, pre: set<string>, m: Module, visiting: seq<Module>, before: seq<Module>): seq<Module>
    requires Closed(g) && m in g
    decreases |Left(g, visiting)|, 0
  {
    if Position(visiting, Identity(m)) < |visiting| || g[m].imports.Err? then before
    else
      PushShrinks(g, visiting, m);
      var below := ListingAll(g, pre, g[m].imports.value, visiting + [m], before);
      if Identity(m) in pre + IdSet(below) then below else below + [m]
  }

  ghost function ListingAll(g: Graph, pre: set<string>, items: seq<Import>, visiting: seq<Module>,
                            before: seq<Module>): seq<Module>
    requires Closed(g) && TargetsIn(g, items)
    decreases |Left(g, visiting)|, |items| + 1
  {
    if items == [] then before
    else if items[0].target.Err? then ListingAll(g, pre, items[1..], visiting, before)
    else ListingAll(g, pre, items[1..], visiting, Listing(g, pre, items[0].target.value, visiting, before))
  }

  /** The modules whose interfaces the importer needs, in the order they are first met. */
  ghost function FirstMet(g: Graph, pre: set<string>, imports: seq<Import>): seq<Module>
    requires Closed(g) && TargetsIn(g, imports)
  {
    ListingAll(g, pre, imports, [], [])
  }

  lemma {:induction false} ListingGrows(g: Graph, pre: set<string>, m: Module, visiting: seq<Module>,
                                        before: seq<Module>)
    requires Closed(g) && m in g
    ensures before <= Listing(g, pre, m, visiting, before)
    decreases |Left(g, visiting)|, 0
  {
    hide Position, Left, IdSet, TargetsIn;
    if !(Position(visiting, Identity(m)) < |visiting| || g[m].imports.Err?) {
      PushShrinks(g, visiting, m);
      ListingAllGrows(g, pre, g[m].imports.value, visiting + [m], before);
    }
  }

  lemma {:induction false} ListingAllGrows(g: Graph, pre: set<string>, items: seq<Import>, visiting: seq<Module>,
                                           before: seq<Module>)
    requires Closed(g) && TargetsIn(g, items)
    ensures before <= ListingAll(g, pre, items, visiting, before)
    decreases |Left(g, visiting)|, |items| + 1
  {
    hide Listing, Left;
    if items != [] {
      if items[0].target.Err? {
        ListingAllGrows(g, pre, items[1..], visiting, before);
      } else {
        var t := items[0].target.value;
        ListingGrows(g, pre, t, visiting, before);
        ListingAllGrows(g, pre, items[1..], visiting, Listing(g, pre, t, visiting, before));
      }
    }
  }

  // ----- What a successful resolution has emitted -----

  ghost predicate Tracked(pre: set<string>, st: State) {
    st.emitted == pre + IdSet(st.prelude)
  }

  lemma EmitTracked(g: Graph, mangle: bool, locals: set<string>, pre: set<string>, m: Module, st: State)
    requires m in g && Tracked(pre, st) && Emit(g, mangle, locals, m, st).Done?
    ensures var r := Emit(g, mangle, locals, m, st).st;
            && Tracked(pre, r)
            && r.prelude == if Identity(m) in pre + IdSet(st.prelude) then st.prelude else st.prelude + [m]
  {
    IdSetAppend(st.prelude, m);
    hide IdSet, Collides;
  }

  lemma {:induction false} ResolveFollows(g: Graph, mangle: bool, locals: set<string>, pre: set<string>, m: Module,
                                          visiting: seq<Module>, st: State)
    requires Closed(g) && m in g && Tracked(pre, st)
    ensures var r := Resolve(g, mangle, locals, m, visiting, st);
            r.Done? ==> Tracked(pre, r.st) && r.st.prelude == Listing(g, pre, m, visiting, st.prelude)
    decreases |Left(g, visiting)|, 0
  {
    hide Position, Left, Ids, TargetsIn, Emit, IdSet, Tracked;
    if Position(visiting, Identity(m)) == |visiting| && g[m].imports.Ok? {
      var items := g[m].imports.value;
      PushShrinks(g, visiting, m);
      ResolveAllFollows(g, mangle, locals, pre, items, visiting + [m], map[], st);
      var r := ResolveAll(g, mangle, locals, items, visiting + [m], map[], st);
      if r.Done? && Emit(g, mangle, locals, m, r.st).Done? { EmitTracked(g, mangle, locals, pre, m, r.st); }
    }
  }

  lemma {:induction false} ResolveAllFollows(g: Graph, mangle: bool, locals: set<string>, pre: set<string>,
                                             items: seq<Import>, visiting: seq<Module>, targets: map<string, string>,
                                             st: State)
    requires Closed(g) && TargetsIn(g, items) && Tracked(pre, st)
    ensures var r := ResolveAll(g, mangle, locals, items, visiting, targets, st);
            r.Done? ==> Tracked(pre, r.st) && r.st.prelude == ListingAll(g, pre, items, visiting, st.prelude)
    decreases |Left(g, visiting)|, |items| + 1
  {
    hide Resolve, Listing, Left, Tracked;
    if items != [] && items[0].target.Ok? {
      var t := items[0].target.value;
      ResolveFollows(g, mangle, locals, pre, t, visiting, st);
      var r := Resolve(g, mangle, locals, t, visiting, st);
      if r.Done? {
        var next := targets[items[0].alias := Identity(t)];
        ResolveAllFollows(g, mangle, locals, pre, items[1..], visiting, next, r.st);
      }
    }
  }

  // ----- The exact condition -----

  /** Each listed module can be emitted, and without mangling no two export one name. */
  ghost predicate Emittable(g: Graph, mangle: bool, locals: set<string>, list: seq<Module>) {
    && (forall i :: 0 <= i < |list| ==> Emits(g, mangle, locals, list[i]))
    && (mangle || forall i, j :: 0 <= i < j < |list| ==> Disjoint(g, list[i], list[j]))
  }

  ghost predicate Disjoint(g: Graph, a: Module, b: Module) {
    a in g && b in g && g[a].exports !! g[b].exports
  }

  /** No walk repeats an identity, and everything reached reads. */
  ghost predicate Readable(g: Graph, imports: seq<Import>) {
    ItemsOk(imports) && NoCycle(g, imports) && forall m :: Reached(g, imports, m) ==> Reads(g, m)
  }

  /** The names taken are exports of the modules emitted so far, which are the first of `list`. */
  ghost predicate Upto(g: Graph, pre: set<string>, list: seq<Module>, st: State) {
    && Tracked(pre, st) && st.prelude <= list
    && forall n :: n in st.exported ==> exists i :: 0 <= i < |st.prelude| && Exports(g, st.prelude[i], n)
  }

  ghost predicate Exports(g: Graph, m: Module, n: string) {
    m in g && n in g[m].exports
  }

  lemma NextEmits(g: Graph, mangle: bool, locals: set<string>, pre: set<string>, list: seq<Module>, m: Module,
                  st: State)
    requires m in g && Upto(g, pre, list, st) && Emittable(g, mangle, locals, list)
    requires Identity(m) !in st.emitted ==> st.prelude + [m] <= list
    ensures Emit(g, mangle, locals, m, st).Done?
  {
    hide IdSet;
    if Identity(m) !in st.emitted {
      var n := |st.prelude|;
      assert list[n] == (st.prelude + [m])[n] == m && Emits(g, mangle, locals, m);
      if !mangle {
        forall x | x in st.exported ensures x !in g[m].exports {
          var i :| 0 <= i < n && Exports(g, st.prelude[i], x);
          assert list[i] == st.prelude[i] && Disjoint(g, list[i], list[n]);
        }
        assert g[m].exports * st.exported.Keys == {} && g[m].exports * locals == {};
      }
    }
  }

  lemma NextUpto(g: Graph, mangle: bool, locals: set<string>, pre: set<string>, list: seq<Module>, m: Module, st: State)
    requires m in g && Upto(g, pre, list, st) && Emit(g, mangle, locals, m, st).Done?
    requires Identity(m) !in st.emitted ==> st.prelude + [m] <= list
    ensures Upto(g, pre, list, Emit(g, mangle, locals, m, st).st)
  {
    EmitTracked(g, mangle, locals, pre, m, st);
    hide IdSet, Collides;
    var r := Emit(g, mangle, locals, m, st).st;
    if Identity(m) !in st.emitted {
      forall n | n in r.exported ensures exists i :: 0 <= i < |r.prelude| && Exports(g, r.prelude[i], n) {
        if n in g[m].exports {
          assert Exports(g, r.prelude[|st.prelude|], n);
        } else {
          var i :| 0 <= i < |st.prelude| && Exports(g, st.prelude[i], n);
          assert Exports(g, r.prelude[i], n);
        }
      }
    }
  }

  lemma NextFinishes(g: Graph, mangle: bool, locals: set<string>, pre: set<string>, list: seq<Module>, m: Module,
                     st: State)
    requires Reads(g, m) && Upto(g, pre, list, st) && Emittable(g, mangle, locals, list)
    requires (if Identity(m) in pre + IdSet(st.prelude) then st.prelude else st.prelude + [m]) <= list
    ensures Finish(g, mangle, locals, m, st).Done? && Upto(g, pre, list, Finish(g, mangle, locals, m, st).st)
  {
    assert Tracked(pre, st);
    hide Upto, Emittable, Emit, ItemsOk, IdSet;
    NextEmits(g, mangle, locals, pre, list, m, st);
    NextUpto(g, mangle, locals, pre, list, m, st);
  }

  lemma {:induction false} ListedResolves(g: Graph, mangle: bool, locals: set<string>, pre: set<string>,
                                          imports: seq<Import>, list: seq<Module>, m: Module, visiting: seq<Module>,
                                          st: State)
    requires Closed(g) && m in g && Readable(g, imports) && Emittable(g, mangle, locals, list) && Upto(g, pre, list, st)
    requires ImportWalk(g, imports, visiting + [m]) && Listing(g, pre, m, visiting, st.prelude) <= list
    ensures var r := Resolve(g, mangle, locals, m, visiting, st);
            r.Done? && Upto(g, pre, list, r.st) && r.st.prelude == Listing(g, pre, m, visiting, st.prelude)
    decreases |Left(g, visiting)|, 0
  {
    ReachedEnd(g, imports, visiting, m);
    assert Reads(g, m) && DistinctIds(visiting + [m]) && Tracked(pre, st);
    NotVisiting(visiting, m);
    var items := g[m].imports.value;
    LeadsOn(g, imports, visiting, m);
    PushShrinks(g, visiting, m);
    ResolveFollows(g, mangle, locals, pre, m, visiting, st);
    hide ImportWalk, Readable, Emittable, Upto, Reached, Position, Finish, Leads, ItemsOk, DistinctIds, IdSet, Tracked;
    NoAliases(items);
    var below := ListingAll(g, pre, items, visiting + [m], st.prelude);
    assert below <= Listing(g, pre, m, visiting, st.prelude);
    AllListedResolve(g, mangle, locals, pre, imports, list, items, items, visiting + [m], map[], st);
    NextFinishes(g, mangle, locals, pre, list, m, ResolveAll(g, mangle, locals, items, visiting + [m], map[], st).st);
  }

  lemma {:induction false} AllListedResolve(g: Graph, mangle: bool, locals: set<string>, pre: set<string>,
                                            imports: seq<Import>, list: seq<Module>, all: seq<Import>,
                                            items: seq<Import>, visiting: seq<Module>, targets: map<string, string>,
                                            st: State)
    requires Closed(g) && TargetsIn(g, items) && Readable(g, imports) && Emittable(g, mangle, locals, list)
    requires Upto(g, pre, list, st) && ListingAll(g, pre, items, visiting, st.prelude) <= list
    requires ItemsOk(all) && Aliases(all, targets) && (forall x :: x in items ==> x in all)
    requires Leads(g, imports, visiting, items)
    ensures var r := ResolveAll(g, mangle, locals, items, visiting, targets, st);
            r.Done? && Upto(g, pre, list, r.st) && r.st.prelude == ListingAll(g, pre, items, visiting, st.prelude)
    decreases |Left(g, visiting)|, |items| + 1
  {
    if items != [] {
      var x := items[0];
      assert x in items && x in all && x.target.Ok?;
      var t := x.target.value;
      assert ImportWalk(g, imports, visiting + [t]);
      AliasKept(all, x, targets);
      var met := Listing(g, pre, t, visiting, st.prelude);
      ListingAllGrows(g, pre, items[1..], visiting, met);
      hide ItemsOk, Aliases, Readable, Emittable, Upto, Resolve, ImportWalk, Left, Listing;
      assert met <= list;
      ListedResolves(g, mangle, locals, pre, imports, list, t, visiting, st);
      var r := Resolve(g, mangle, locals, t, visiting, st);
      var next := targets[x.alias := Identity(t)];
      AllListedResolve(g, mangle, locals, pre, imports, list, all, items[1..], visiting, next, r.st);
    }
  }

  lemma DoneEmittable(g: Graph, mangle: bool, locals: set<string>, pre: set<string>, imports: seq<Import>)
    requires Closed(g) && TargetsIn(g, imports) && ResolveModules(g, mangle, locals, pre, imports).Done?
    ensures ResolveModules(g, mangle, locals, pre, imports).st.prelude == FirstMet(g, pre, imports)
    ensures Emittable(g, mangle, locals, FirstMet(g, pre, imports))
  {
    var start := State([], pre, map[]);
    assert Tracked(pre, start) by { assert IdSet([]) == {}; }
    ResolveAllFollows(g, mangle, locals, pre, imports, [], map[], start);
    PreludeComplete(g, mangle, locals, pre, imports);
    ResolveAllTexts(g, mangle, locals, imports, [], map[], start);
    hide ResolveAll, ListingAll, PreludeOk, AllIn;
  }

  lemma DoneReadable(g: Graph, mangle: bool, locals: set<string>, pre: set<string>, imports: seq<Import>)
    requires Closed(g) && TargetsIn(g, imports) && ResolveModules(g, mangle, locals, pre, imports).Done?
    ensures Readable(g, imports)
  {
    ItemsResolved(g, mangle, locals, imports, [], map[], State([], pre, map[]));
    hide ResolveAll, Reached, Reads, ItemsOk, DistinctIds;
    forall w | ImportWalk(g, imports, w) ensures DistinctIds(w) {
      SuccessCoversWalks(g, mangle, locals, pre, imports, w);
    }
    forall m | Reached(g, imports, m) ensures Reads(g, m) {
      ReachedReads(g, mangle, locals, pre, imports, m);
    }
  }

  /** Main theorem, over any graph: resolution succeeds exactly when no walk from the importer repeats an
      identity, every reachable module reads with its imports found under unambiguous aliases, and each module
      first met under its identity has an interface and, without mangling, shares no export with another or
      with the importer; and those modules, in that order, are what is emitted. */
  lemma ResolutionOrdered(g: Graph, mangle: bool, locals: set<string>, pre: set<string>, imports: seq<Import>)
    requires Closed(g) && TargetsIn(g, imports)
    ensures var r, list := ResolveModules(g, mangle, locals, pre, imports), FirstMet(g, pre, imports);
            && (r.Done? <==> Readable(g, imports) && Emittable(g, mangle, locals, list))
            && (r.Done? ==> r.st.prelude == list)
  {
    var list := FirstMet(g, pre, imports);
    if ResolveModules(g, mangle, locals, pre, imports).Done? {
      hide ResolveAll, ListingAll, Readable, Emittable;
      DoneEmittable(g, mangle, locals, pre, imports);
      DoneReadable(g, mangle, locals, pre, imports);
    }
    if Readable(g, imports) && Emittable(g, mangle, locals, list) {
      var start := State([], pre, map[]);
      assert Upto(g, pre, list, start) by { assert IdSet([]) == {}; }
      assert ItemsOk(imports);
      FirstLeads(g, imports);
      NoAliases(imports);
      hide Readable, Emittable, Upto, ResolveAll, ListingAll, Leads, ItemsOk, Aliases;
      AllListedResolve(g, mangle, locals, pre, imports, list, imports, imports, [], map[], start);
    }
  }
}
