/**
 The link closure of a program (`collect_import_closure`): a depth-first walk over the modules
 reachable through imports, listing each module after the modules it imports.

 The parser and the resolver are a finite map from a module to the outcome of each of its imports:
 unresolved, skipped (standard library or header-only), or a module to compile.
 */
module ImportClosure {
  import opened Common

  datatype Module = Module(name: string, source: string, path: Option<string>)

  /** `source_identity` */
  function Identity(m: Module): string {
    if m.path.Some? then m.path.value else m.name
  }

  datatype Import = Unresolved(message: string) | Skipped | Dep(target: Module)

  datatype Parse = Unparsed(message: string) | Imports(items: seq<Import>)

  type Graph = map<Module, Parse>

  /** The resolver only returns modules of the graph. */
  ghost predicate Closed(g: Graph) {
    forall m, t :: m in g && g[m].Imports? && Dep(t) in g[m].items ==> t in g
  }

  /** The tests that make the walk treat two modules as one: name, identity or text. */
  predicate Clash(a: Module, b: Module) {
    a.name == b.name || Identity(a) == Identity(b) || a.source == b.source
  }

  predicate Clashes(stack: seq<Module>, m: Module) {
    exists i :: 0 <= i < |stack| && Clash(stack[i], m)
  }

  datatype State = State(order: seq<Module>, visited: set<string>)

  datatype Outcome = Done(st: State) | Cycle(trace: seq<Module>) | Failed(message: string)

  ghost function Elems(stack: seq<Module>): set<Module> {
    set m | m in stack
  }

  ghost function Left(g: Graph, stack: seq<Module>): set<Module> {
    g.Keys - Elems(stack)
  }

  /** Visiting `m` below the modules on `stack`. */
  ghost function Visit(g: Graph, reject: bool, m: Module, stack: seq<Module>, st: State): Outcome
    requires Closed(g) && m in g
    decreases |Left(g, stack)|, 0
  {
    if m.name in st.visited then Done(st)
    else if Clashes(stack, m) then (if reject then Cycle(stack + [m]) else Done(st))
    else match g[m]
      case Unparsed(message) => Failed(message)
      case Imports(items) =>
        PushShrinks(g, stack, m);
        match VisitAll(g, reject, items, stack + [m], st)
        case Done(s) => Done(State(s.order + [m], s.visited + {m.name}))
        case Cycle(trace) => Cycle(trace)
        case Failed(message) => Failed(message)
  }

  ghost function VisitAll(g: Graph, reject: bool, items: seq<Import>, stack: seq<Module>, st: State): Outcome
    requires Closed(g) && forall t :: Dep(t) in items ==> t in g
    decreases |Left(g, stack)|, |items| + 1
  {
    if items == [] then Done(st)
    else match items[0]
      case Unresolved(message) => Failed(message)
      case Skipped => VisitAll(g, reject, items[1..], stack, st)
      case Dep(t) =>
        match Visit(g, reject, t, stack, st)
        case Done(s) => VisitAll(g, reject, items[1..], stack, s)
        case Cycle(trace) => Cycle(trace)
        case Failed(message) => Failed(message)
  }

  lemma PushShrinks(g: Graph, stack: seq<Module>, m: Module)
    requires m in g && !Clashes(stack, m)
    ensures |Left(g, stack + [m])| < |Left(g, stack)|
  {
    assert m !in stack;
    assert Left(g, stack) == Left(g, stack + [m]) + {m};
  }

  // ----- Walks -----

  ghost predicate Edge(g: Graph, a: Module, b: Module) {
    a in g && g[a].Imports? && Dep(b) in g[a].items
  }

  ghost predicate IsWalk(g: Graph, w: seq<Module>) {
    w != [] && w[0] in g && forall i :: 0 < i < |w| ==> Edge(g, w[i - 1], w[i])
  }

  ghost predicate Reaches(g: Graph, a: Module, b: Module) {
    exists w :: IsWalk(g, w) && w[0] == a && w[|w| - 1] == b
  }

  /** A module that cannot be parsed or has an import that cannot be resolved. */
  ghost predicate Bad(g: Graph, m: Module) {
    m in g && (g[m].Unparsed? || exists i :: 0 <= i < |g[m].items| && g[m].items[i].Unresolved?)
  }

  /** Some walk from `root` comes back to a module it passed. */
  ghost predicate Cyclic(g: Graph, root: Module) {
    exists w, i, j :: IsWalk(g, w) && w[0] == root && 0 <= i < j < |w| && w[i] == w[j]
  }

  // ----- What a finished walk has listed -----

  ghost function NamesOf(order: seq<Module>): set<string> {
    set i | 0 <= i < |order| :: order[i].name
  }

  /** Each name once, and `visited` is exactly the names listed. */
  ghost predicate Listing(st: State) {
    && st.visited == NamesOf(st.order)
    && forall i, j :: 0 <= i < j < |st.order| ==> st.order[i].name != st.order[j].name
  }

  /** Everything module `order[i]` imports is listed before it. */
  ghost predicate After(g: Graph, order: seq<Module>, i: nat)
    requires i < |order|
  {
    order[i] in g && g[order[i]].Imports? && DepsIn(g[order[i]].items, NamesOf(order[..i]))
  }

  /** Every import resolves, to a skipped module or to one of the named ones. */
  ghost predicate DepsIn(items: seq<Import>, names: set<string>) {
    forall x :: x in items ==> !x.Unresolved? && (x.Dep? ==> x.target.name in names)
  }

  ghost predicate DepsFirst(g: Graph, order: seq<Module>) {
    forall i :: 0 <= i < |order| ==> After(g, order, i)
  }

  /** What a visit adds, in the mode that rejects cycles. */
  ghost predicate Grows(g: Graph, a: State, b: State) {
    && Listing(b) && DepsFirst(g, b.order)
    && a.order <= b.order && a.visited <= b.visited
  }

  lemma AppendListed(g: Graph, st: State, m: Module)
    requires Listing(st) && DepsFirst(g, st.order) && m.name !in st.visited && m in g && g[m].Imports?
    requires DepsIn(g[m].items, st.visited)
    ensures Grows(g, st, State(st.order + [m], st.visited + {m.name}))
  {
    var order := st.order + [m];
    forall i | 0 <= i < |order| ensures After(g, order, i) {
      assert order[..i] == st.order[..i];
      if i < |st.order| { assert After(g, st.order, i); } else { assert st.order[..i] == st.order; }
    }
    assert NamesOf(order) == NamesOf(st.order) + {m.name} by {
      assert order[|st.order|] == m;
      forall n | n in NamesOf(st.order) ensures n in NamesOf(order) {
        var i :| 0 <= i < |st.order| && st.order[i].name == n;
        assert order[i] == st.order[i];
      }
    }
  }

  ghost predicate Fresh(stack: seq<Module>, st: State) {
    forall i :: 0 <= i < |stack| ==> stack[i].name !in st.visited
  }

  /** In the rejecting mode a finished visit lists each module once, after everything it imports,
      and ends with the visited module. */
  lemma {:induction false} VisitLists(g: Graph, m: Module, stack: seq<Module>, st: State)
    requires Closed(g) && m in g && Listing(st) && DepsFirst(g, st.order) && Fresh(stack, st)
    ensures var r := Visit(g, true, m, stack, st);
            r.Done? ==> && Grows(g, st, r.st) && Fresh(stack, r.st) && m.name in r.st.visited
                        && (m.name in st.visited || (r.st.order != [] && r.st.order[|r.st.order| - 1] == m))
    decreases |Left(g, stack)|, 0
  {
    if m.name !in st.visited && !Clashes(stack, m) && g[m].Imports? {
      PushShrinks(g, stack, m);
      VisitAllLists(g, g[m].items, stack + [m], st);
      var r := VisitAll(g, true, g[m].items, stack + [m], st);
      if r.Done? {
        assert (stack + [m])[|stack|] == m;
        AppendListed(g, r.st, m);
        StillFresh(stack, m, r.st);
      }
    }
  }

  lemma StillFresh(stack: seq<Module>, m: Module, st: State)
    requires Fresh(stack + [m], st) && !Clashes(stack, m)
    ensures Fresh(stack, State(st.order + [m], st.visited + {m.name}))
  {
    forall i | 0 <= i < |stack| ensures stack[i].name !in st.visited + {m.name} {
      assert (stack + [m])[i] == stack[i] && !Clash(stack[i], m);
    }
  }

  lemma {:induction false} VisitAllLists(g: Graph, items: seq<Import>, stack: seq<Module>, st: State)
    requires Closed(g) && (forall t :: Dep(t) in items ==> t in g)
    requires Listing(st) && DepsFirst(g, st.order) && Fresh(stack, st)
    ensures var r := VisitAll(g, true, items, stack, st);
            r.Done? ==> Grows(g, st, r.st) && Fresh(stack, r.st) && DepsIn(items, r.st.visited)
    decreases |Left(g, stack)|, |items| + 1
  {
    if items != [] {
      assert forall x :: x in items ==> x == items[0] || x in items[1..];
      match items[0]
      case Unresolved(_) =>
      case Skipped => VisitAllLists(g, items[1..], stack, st);
      case Dep(t) =>
        VisitLists(g, t, stack, st);
        var r := Visit(g, true, t, stack, st);
        if r.Done? { VisitAllLists(g, items[1..], stack, r.st); }
    }
  }

  // ----- Where the listed modules come from -----

  lemma ReachesSelf(g: Graph, m: Module)
    requires m in g
    ensures Reaches(g, m, m)
  {
    assert IsWalk(g, [m]);
  }

  lemma ReachesThrough(g: Graph, a: Module, b: Module, c: Module)
    requires Edge(g, a, b) && Reaches(g, b, c)
    ensures Reaches(g, a, c)
  {
    var w :| IsWalk(g, w) && w[0] == b && w[|w| - 1] == c;
    var v := [a] + w;
    forall i | 0 < i < |v| ensures Edge(g, v[i - 1], v[i]) {
      if i > 1 { assert Edge(g, w[i - 2], w[i - 1]); }
    }
    assert IsWalk(g, v) && v[0] == a && v[|v| - 1] == c;
  }

  /** Everything newly listed is reached from `m`. */
  ghost predicate NewReached(g: Graph, m: Module, a: State, b: State) {
    a.order <= b.order && forall i :: |a.order| <= i < |b.order| ==> Reaches(g, m, b.order[i])
  }

  lemma NewReachedJoin(g: Graph, m: Module, a: State, b: State, c: State)
    requires NewReached(g, m, a, b) && NewReached(g, m, b, c)
    ensures NewReached(g, m, a, c)
  {
    hide Reaches;
    forall i | |a.order| <= i < |c.order| ensures Reaches(g, m, c.order[i]) {
      if i < |b.order| { assert c.order[i] == b.order[i]; }
    }
  }

  lemma NewReachedSame(g: Graph, m: Module, st: State)
    ensures NewReached(g, m, st, st)
  {
  }

  lemma NewReachedAppend(g: Graph, m: Module, a: State, b: State)
    requires NewReached(g, m, a, b) && m in g
    ensures NewReached(g, m, a, State(b.order + [m], b.visited + {m.name}))
  {
    ReachesSelf(g, m);
    hide Reaches;
  }

  lemma NewReachedThrough(g: Graph, m: Module, t: Module, a: State, b: State)
    requires NewReached(g, t, a, b) && Edge(g, m, t)
    ensures NewReached(g, m, a, b)
  {
    forall i | |a.order| <= i < |b.order| ensures Reaches(g, m, b.order[i]) {
      ReachesThrough(g, m, t, b.order[i]);
    }
  }

  lemma {:induction false} VisitReaches(g: Graph, reject: bool, m: Module, stack: seq<Module>, st: State)
    requires Closed(g) && m in g
    ensures var r := Visit(g, reject, m, stack, st); r.Done? ==> NewReached(g, m, st, r.st)
    decreases |Left(g, stack)|, 0
  {
    if m.name !in st.visited && !Clashes(stack, m) && g[m].Imports? {
      PushShrinks(g, stack, m);
      hide NewReached, Clashes;
      VisitAllReaches(g, reject, m, g[m].items, stack + [m], st);
      var r := VisitAll(g, reject, g[m].items, stack + [m], st);
      if r.Done? { NewReachedAppend(g, m, st, r.st); }
    } else {
      NewReachedSame(g, m, st);
    }
  }

  lemma {:induction false} VisitAllReaches(g: Graph, reject: bool, m: Module, items: seq<Import>, stack: seq<Module>,
                                           st: State)
    requires Closed(g) && m in g && g[m].Imports? && (forall x :: x in items ==> x in g[m].items)
    ensures var r := VisitAll(g, reject, items, stack, st); r.Done? ==> NewReached(g, m, st, r.st)
    decreases |Left(g, stack)|, |items| + 1
  {
    hide Reaches;
    if items != [] {
      assert forall x :: x in items[1..] ==> x in items;
      match items[0]
      case Unresolved(_) =>
      case Skipped => VisitAllReaches(g, reject, m, items[1..], stack, st);
      case Dep(t) =>
        VisitReaches(g, reject, t, stack, st);
        var r := Visit(g, reject, t, stack, st);
        if r.Done? {
          NewReachedThrough(g, m, t, st, r.st);
          VisitAllReaches(g, reject, m, items[1..], stack, r.st);
          var q := VisitAll(g, reject, items[1..], stack, r.st);
          if q.Done? { NewReachedJoin(g, m, st, r.st, q.st); }
        }
    }
  }

  // ----- What an error means -----

  /** A reported cycle is a walk of real imports from the same start, whose last module has the
      name, identity or text of an earlier one. */
  ghost predicate Genuine(g: Graph, start: Module, trace: seq<Module>) {
    IsWalk(g, trace) && trace[0] == start && Clashes(trace[..|trace| - 1], trace[|trace| - 1])
  }

  ghost predicate ReachesBad(g: Graph, m: Module) {
    exists x :: Reaches(g, m, x) && Bad(g, x)
  }

  lemma BadThrough(g: Graph, a: Module, b: Module)
    requires Edge(g, a, b) && ReachesBad(g, b)
    ensures ReachesBad(g, a)
  {
    var x :| Reaches(g, b, x) && Bad(g, x);
    ReachesThrough(g, a, b, x);
  }

  lemma BadHere(g: Graph, m: Module)
    requires m in g && Bad(g, m)
    ensures ReachesBad(g, m)
  {
    ReachesSelf(g, m);
  }

  lemma WalkStep(g: Graph, stack: seq<Module>, t: Module)
    requires IsWalk(g, stack) && Edge(g, stack[|stack| - 1], t)
    ensures IsWalk(g, stack + [t])
  {
    var w := stack + [t];
    forall i | 0 < i < |w| ensures Edge(g, w[i - 1], w[i]) {
      if i < |stack| { assert Edge(g, stack[i - 1], stack[i]); }
    }
  }

  lemma {:induction false} VisitErrors(g: Graph, reject: bool, m: Module, stack: seq<Module>, st: State)
    requires Closed(g) && m in g && IsWalk(g, stack + [m])
    ensures var r := Visit(g, reject, m, stack, st);
            && (r.Cycle? ==> reject && Genuine(g, (stack + [m])[0], r.trace))
            && (r.Failed? ==> ReachesBad(g, m))
    decreases |Left(g, stack)|, 0
  {
    if m.name !in st.visited {
      if Clashes(stack, m) {
        assert (stack + [m])[..|stack|] == stack;
      } else if g[m].Unparsed? {
        BadHere(g, m);
      } else {
        PushShrinks(g, stack, m);
        hide IsWalk, ReachesBad, Genuine;
        VisitAllErrors(g, reject, m, g[m].items, stack + [m], st);
      }
    }
  }

  lemma {:induction false} VisitAllErrors(g: Graph, reject: bool, m: Module, items: seq<Import>, stack: seq<Module>,
                                          st: State)
    requires Closed(g) && m in g && g[m].Imports? && (forall x :: x in items ==> x in g[m].items)
    requires stack != [] && IsWalk(g, stack) && stack[|stack| - 1] == m
    ensures var r := VisitAll(g, reject, items, stack, st);
            && (r.Cycle? ==> reject && Genuine(g, stack[0], r.trace))
            && (r.Failed? ==> ReachesBad(g, m))
    decreases |Left(g, stack)|, |items| + 1
  {
    if items != [] {
      assert forall x :: x in items[1..] ==> x in items;
      match items[0]
      case Unresolved(_) =>
        assert items[0] in items;
        var i :| 0 <= i < |g[m].items| && g[m].items[i] == items[0];
        BadHere(g, m);
      case Skipped => VisitAllErrors(g, reject, m, items[1..], stack, st);
      case Dep(t) =>
        WalkStep(g, stack, t);
        hide IsWalk, ReachesBad, Genuine;
        VisitErrors(g, reject, t, stack, st);
        var r := Visit(g, reject, t, stack, st);
        if r.Failed? { BadThrough(g, m, t); }
        if r.Done? { VisitAllErrors(g, reject, m, items[1..], stack, r.st); }
    }
  }

  // ----- Nothing reachable is missed -----

  /** Every import is skipped, or taken for a module listed or still being visited. */
  ghost predicate Met(items: seq<Import>, order: seq<Module>, stack: seq<Module>) {
    forall x :: x in items ==> !x.Unresolved? && (x.Dep? ==> Clashes(order, x.target) || Clashes(stack, x.target))
  }

  ghost predicate Followed(g: Graph, x: Module, order: seq<Module>, stack: seq<Module>) {
    x in g && g[x].Imports? && Met(g[x].items, order, stack)
  }

  ghost predicate AllFollowed(g: Graph, st: State, stack: seq<Module>) {
    Listing(st) && Fresh(stack, st) && forall i :: 0 <= i < |st.order| ==> Followed(g, st.order[i], st.order, stack)
  }

  lemma ClashesMore(a: seq<Module>, b: seq<Module>, m: Module)
    ensures Clashes(a + b, m) <==> Clashes(a, m) || Clashes(b, m)
  {
    if Clashes(a, m) {
      var i :| 0 <= i < |a| && Clash(a[i], m);
      assert (a + b)[i] == a[i];
    }
    if Clashes(b, m) {
      var i :| 0 <= i < |b| && Clash(b[i], m);
      assert (a + b)[|a| + i] == b[i];
    }
  }

  /** Imports stay met when modules are listed and when the newest visit ends with its listing. */
  lemma MetMore(items: seq<Import>, order: seq<Module>, more: seq<Module>, stack: seq<Module>)
    requires Met(items, order, stack)
    ensures Met(items, order + more, stack) && Met(items, order, stack + more)
  {
    forall t: Module ensures Clashes(order, t) ==> Clashes(order + more, t)
                     ensures Clashes(stack, t) ==> Clashes(stack + more, t)
    {
      ClashesMore(order, more, t);
      ClashesMore(stack, more, t);
    }
    hide Clashes;
  }

  lemma MetPop(items: seq<Import>, order: seq<Module>, stack: seq<Module>, m: Module)
    requires Met(items, order, stack + [m])
    ensures Met(items, order + [m], stack)
  {
    forall t: Module ensures Clashes(order, t) || Clashes(stack + [m], t) ==>
      Clashes(order + [m], t) || Clashes(stack, t) {
      ClashesMore(order, [m], t);
      ClashesMore(stack, [m], t);
    }
    hide Clashes;
  }

  lemma AppendFollowed(g: Graph, st: State, stack: seq<Module>, m: Module)
    requires AllFollowed(g, st, stack + [m]) && Followed(g, m, st.order, stack + [m]) && !Clashes(stack, m)
    ensures AllFollowed(g, State(st.order + [m], st.visited + {m.name}), stack)
  {
    var next := State(st.order + [m], st.visited + {m.name});
    assert (stack + [m])[|stack|] == m;
    StillFresh(stack, m, st);
    NamesAppend(st.order, m);
    hide Met, Clashes;
    forall i | 0 <= i < |next.order| ensures Followed(g, next.order[i], next.order, stack) {
      assert Followed(g, next.order[i], st.order, stack + [m]);
      MetPop(g[next.order[i]].items, st.order, stack, m);
    }
  }

  lemma NamesAppend(order: seq<Module>, m: Module)
    ensures NamesOf(order + [m]) == NamesOf(order) + {m.name}
  {
    var all := order + [m];
    assert all[|order|] == m;
    forall n | n in NamesOf(order) ensures n in NamesOf(all) {
      var i :| 0 <= i < |order| && order[i].name == n;
      assert all[i] == order[i];
    }
  }

  lemma VisitedClashes(st: State, m: Module)
    requires Listing(st) && m.name in st.visited
    ensures Clashes(st.order, m)
  {
    var i :| 0 <= i < |st.order| && st.order[i].name == m.name;
    assert Clash(st.order[i], m);
  }

  lemma LastClashes(order: seq<Module>, m: Module)
    requires order != [] && order[|order| - 1] == m
    ensures Clashes(order, m)
  {
    assert Clash(order[|order| - 1], m);
  }

  /** In either mode and over any graph, a finished visit leaves every import of a listed module met. */
  lemma {:induction false} VisitFollows(g: Graph, reject: bool, m: Module, stack: seq<Module>, st: State)
    requires Closed(g) && m in g && AllFollowed(g, st, stack)
    ensures var r := Visit(g, reject, m, stack, st);
            r.Done? ==> && AllFollowed(g, r.st, stack) && st.order <= r.st.order
                        && (Clashes(r.st.order, m) || Clashes(stack, m))
                        && (m.name in st.visited || Clashes(stack, m)
                           || (r.st.order != [] && r.st.order[|r.st.order| - 1] == m))
    decreases |Left(g, stack)|, 0
  {
    if m.name in st.visited {
      VisitedClashes(st, m);
    } else if !Clashes(stack, m) && g[m].Imports? {
      PushShrinks(g, stack, m);
      DeeperFollowed(g, st, stack, m);
      hide AllFollowed, Clashes, Met;
      VisitAllFollows(g, reject, g[m].items, stack + [m], st);
      var r := VisitAll(g, reject, g[m].items, stack + [m], st);
      if r.Done? {
        AppendFollowed(g, r.st, stack, m);
        LastClashes(r.st.order + [m], m);
      }
    }
  }

  lemma DeeperFollowed(g: Graph, st: State, stack: seq<Module>, m: Module)
    requires AllFollowed(g, st, stack) && m.name !in st.visited
    ensures AllFollowed(g, st, stack + [m])
  {
    hide Met;
    forall i | 0 <= i < |st.order| ensures Followed(g, st.order[i], st.order, stack + [m]) {
      assert Followed(g, st.order[i], st.order, stack);
      MetMore(g[st.order[i]].items, st.order, [m], stack);
    }
  }

  lemma {:induction false} VisitAllFollows(g: Graph, reject: bool, items: seq<Import>, stack: seq<Module>, st: State)
    requires Closed(g) && AllFollowed(g, st, stack) && forall t :: Dep(t) in items ==> t in g
    ensures var r := VisitAll(g, reject, items, stack, st);
            r.Done? ==> AllFollowed(g, r.st, stack) && st.order <= r.st.order && Met(items, r.st.order, stack)
    decreases |Left(g, stack)|, |items| + 1
  {
    hide AllFollowed, Clashes;
    if items != [] {
      assert forall x :: x in items ==> x == items[0] || x in items[1..];
      match items[0]
      case Unresolved(_) =>
      case Skipped => VisitAllFollows(g, reject, items[1..], stack, st);
      case Dep(t) =>
        VisitFollows(g, reject, t, stack, st);
        var r := Visit(g, reject, t, stack, st);
        if r.Done? {
          VisitAllFollows(g, reject, items[1..], stack, r.st);
          var q := VisitAll(g, reject, items[1..], stack, r.st);
          if q.Done? && Clashes(r.st.order, t) { ClashesLater(r.st.order, q.st.order, t); }
        }
    }
  }

  lemma ClashesLater(a: seq<Module>, b: seq<Module>, m: Module)
    requires a <= b && Clashes(a, m)
    ensures Clashes(b, m)
  {
    var i :| 0 <= i < |a| && Clash(a[i], m);
    assert b[i] == a[i];
  }

  // ----- The closure of a program -----

  ghost function Closure(g: Graph, reject: bool, root: Module): Outcome
    requires Closed(g) && root in g
  {
    Visit(g, reject, root, [], State([], {}))
  }

  /** Names are keys among the modules the resolver returns: a registry name or a file's path. The root is
      named by its manifest, which may be the name of any of them. */
  ghost predicate Keyed(g: Graph, root: Module) {
    forall a, b :: a in g && b in g && a != root && b != root && a.name == b.name ==> a == b
  }

  /** Modules taken for one have the same imports, as a file met under two names has. */
  ghost predicate Alike(g: Graph) {
    forall a, b :: a in g && b in g && Clash(a, b) ==> g[a] == g[b]
  }

  /** No two modules of the graph are taken for one. */
  ghost predicate Distinct(g: Graph) {
    forall a, b :: a in g && b in g && Clash(a, b) ==> a == b
  }

  /** When every import of a listed module is met by the listing, and modules taken for one import the
      same, every module a walk from a listed module meets is taken for a listed one. */
  lemma {:induction false} WalkMet(g: Graph, st: State, w: seq<Module>, n: nat)
    requires Closed(g) && Alike(g) && AllFollowed(g, st, []) && IsWalk(g, w) && Clashes(st.order, w[0]) && n < |w|
    ensures w[n] in g && Clashes(st.order, w[n])
  {
    if n > 0 {
      WalkMet(g, st, w, n - 1);
      var i :| 0 <= i < |st.order| && Clash(st.order[i], w[n - 1]);
      assert Followed(g, st.order[i], st.order, []);
      assert Edge(g, w[n - 1], w[n]);
      assert g[st.order[i]] == g[w[n - 1]];
      assert Dep(w[n]) in g[st.order[i]].items;
    }
  }

  ghost predicate OnceEach(order: seq<Module>) {
    forall i, j :: 0 <= i < j < |order| ==> order[i].name != order[j].name && order[i] != order[j]
  }

  /** In either mode and over any graph, a finished closure lists modules reachable from the root, each
      name once, the root last, and leaves every import of a listed module met. */
  lemma ClosureLists(g: Graph, reject: bool, root: Module)
    requires Closed(g) && root in g && Closure(g, reject, root).Done?
    ensures var st := Closure(g, reject, root).st;
            && (forall m :: m in st.order ==> Reaches(g, root, m)) && OnceEach(st.order)
            && st.order != [] && st.order[|st.order| - 1] == root && AllFollowed(g, st, [])
  {
    var st := Closure(g, reject, root).st;
    VisitFollows(g, reject, root, [], State([], {}));
    VisitReaches(g, reject, root, [], State([], {}));
    hide Visit, Reaches;
    forall m | m in st.order ensures Reaches(g, root, m) {
      var i :| 0 <= i < |st.order| && st.order[i] == m;
    }
  }

  /** Among modules alike when taken for one, everything reachable is listed or taken for a listed
      module with the same imports; without modules taken for one, exactly the reachable is listed. */
  lemma ClosureComplete(g: Graph, reject: bool, root: Module)
    requires Closed(g) && Alike(g) && root in g && Closure(g, reject, root).Done?
    ensures var order := Closure(g, reject, root).st.order;
            && (forall m :: Reaches(g, root, m) ==> m in g && Clashes(order, m))
            && (Distinct(g) ==> forall m :: m in order <==> Reaches(g, root, m))
  {
    var st := Closure(g, reject, root).st;
    ClosureLists(g, reject, root);
    hide Visit;
    forall m | Reaches(g, root, m) ensures m in g && Clashes(st.order, m) {
      var w :| IsWalk(g, w) && w[0] == root && w[|w| - 1] == m;
      LastClashes(st.order, root);
      WalkMet(g, st, w, |w| - 1);
    }
    hide Reaches, Clashes;
    if Distinct(g) { OnlyListed(g, st, root); }
  }

  lemma OnlyListed(g: Graph, st: State, root: Module)
    requires Distinct(g) && AllFollowed(g, st, [])
    requires forall m :: Reaches(g, root, m) ==> m in g && Clashes(st.order, m)
    ensures forall m :: Reaches(g, root, m) ==> m in st.order
  {
    hide Reaches;
    forall m | Reaches(g, root, m) ensures m in st.order {
      var i :| 0 <= i < |st.order| && Clash(st.order[i], m);
      assert Followed(g, st.order[i], st.order, []);
    }
  }

  /** Dependencies come strictly before importers. */
  ghost predicate Topological(g: Graph, order: seq<Module>) {
    forall i, t :: 0 <= i < |order| && Edge(g, order[i], t) ==> Earlier(order, i, t)
  }

  ghost predicate Earlier(order: seq<Module>, i: nat, t: Module)
    requires i <= |order|
  {
    exists j :: 0 <= j < i && order[j] == t
  }

  lemma ListingTopological(g: Graph, st: State, root: Module)
    requires Closed(g) && Keyed(g, root) && Listing(st) && DepsFirst(g, st.order)
    requires st.order != [] && st.order[|st.order| - 1] == root
    ensures Topological(g, st.order)
  {
    forall i, t | 0 <= i < |st.order| && Edge(g, st.order[i], t) ensures Earlier(st.order, i, t) {
      assert After(g, st.order, i);
      assert t.name in NamesOf(st.order[..i]);
      var j :| 0 <= j < i && st.order[..i][j].name == t.name;
      assert After(g, st.order, j);
    }
  }

  /** Along a walk the positions in a topological listing fall. */
  lemma {:induction false} WalkDescends(g: Graph, order: seq<Module>, w: seq<Module>, p: nat, n: nat) returns (q: nat)
    requires Topological(g, order) && IsWalk(g, w) && p < |order| && w[0] == order[p] && n < |w|
    ensures q <= p && order[q] == w[n] && (n > 0 ==> q < p)
    decreases n
  {
    q := p;
    if n > 0 {
      var r := WalkDescends(g, order, w, p, n - 1);
      assert Edge(g, order[r], w[n]);
      assert Earlier(order, r, w[n]);
      q :| 0 <= q < r && order[q] == w[n];
    }
  }

  lemma WalkTail(g: Graph, w: seq<Module>, i: nat)
    requires IsWalk(g, w) && i < |w| && Closed(g)
    ensures IsWalk(g, w[i..])
  {
    var v := w[i..];
    forall k | 0 < k < |v| ensures Edge(g, v[k - 1], v[k]) { assert Edge(g, w[i + k - 1], w[i + k]); }
    if i > 0 { assert Edge(g, w[i - 1], w[i]); }
  }

  lemma TopologicalAcyclic(g: Graph, st: State, root: Module)
    requires Closed(g) && Topological(g, st.order) && root in st.order
    requires forall i, j :: 0 <= i < j < |st.order| ==> st.order[i] != st.order[j]
    ensures !Cyclic(g, root)
  {
    forall w, i, j | IsWalk(g, w) && w[0] == root && 0 <= i < j < |w| ensures w[i] != w[j] {
      var p :| 0 <= p < |st.order| && st.order[p] == root;
      var q := WalkDescends(g, st.order, w, p, i);
      WalkTail(g, w, i);
      var r := WalkDescends(g, st.order, w[i..], q, j - i);
    }
  }

  /** In the rejecting mode success means that nothing reachable is cyclic, unreadable or left out, and
      that dependencies come strictly before importers. */
  lemma ClosureSound(g: Graph, root: Module)
    requires Closed(g) && Keyed(g, root) && root in g && Closure(g, true, root).Done?
    ensures var order := Closure(g, true, root).st.order;
            && !Cyclic(g, root) && !ReachesBad(g, root) && Topological(g, order)
            && forall m :: m in order <==> Reaches(g, root, m)
  {
    var st := Closure(g, true, root).st;
    ClosureLists(g, true, root);
    VisitLists(g, root, [], State([], {}));
    hide Visit;
    ListingTopological(g, st, root);
    TopologicalAcyclic(g, st, root);
    TopologicalReaches(g, st.order, root);
    hide Topological, Cyclic, ReachesBad, Reaches;
    NothingBad(g, st, root);
  }

  lemma TopologicalReaches(g: Graph, order: seq<Module>, root: Module)
    requires Topological(g, order) && root in order
    ensures forall m :: Reaches(g, root, m) ==> m in order
  {
    forall m | Reaches(g, root, m) ensures m in order {
      var w :| IsWalk(g, w) && w[0] == root && w[|w| - 1] == m;
      var p :| 0 <= p < |order| && order[p] == root;
      var q := WalkDescends(g, order, w, p, |w| - 1);
    }
  }

  lemma NothingBad(g: Graph, st: State, root: Module)
    requires DepsFirst(g, st.order) && forall m :: m in st.order <==> Reaches(g, root, m)
    ensures !ReachesBad(g, root)
  {
    hide Reaches;
    forall x | Reaches(g, root, x) ensures !Bad(g, x) {
      var i :| 0 <= i < |st.order| && st.order[i] == x;
      assert After(g, st.order, i);
    }
  }

  /** A reported cycle is one: the last module imports what the module it is taken for imports, so the
      walk goes on to a module it passed. */
  lemma GenuineCycle(g: Graph, root: Module, trace: seq<Module>)
    requires Closed(g) && Alike(g) && Genuine(g, root, trace)
    ensures Cyclic(g, root)
  {
    var n := |trace| - 1;
    var i :| 0 <= i < n && Clash(trace[..n][i], trace[n]);
    var next := trace[i + 1];
    assert Edge(g, trace[n - 1], trace[n]);
    assert Edge(g, trace[i], next);
    assert g[trace[i]] == g[trace[n]];
    WalkStep(g, trace, next);
    var w := trace + [next];
    assert w[i + 1] == w[n + 1] && w[0] == root;
  }

  /** Main theorem, cycle-rejecting mode: the closure succeeds exactly when no cycle is reachable and
      every reachable module parses and resolves; then it lists the reachable modules once each,
      dependencies strictly before importers, the root last. A program imported back under its file's
      path is a second module with the text and identity of the root. */
  lemma ClosureExact(g: Graph, root: Module)
    requires Closed(g) && Keyed(g, root) && Alike(g) && root in g
    ensures Closure(g, true, root).Done? <==> !Cyclic(g, root) && !ReachesBad(g, root)
    ensures Closure(g, true, root).Done? ==>
              var order := Closure(g, true, root).st.order;
              && Topological(g, order) && OnceEach(order) && order != [] && order[|order| - 1] == root
              && forall m :: m in order <==> Reaches(g, root, m)
  {
    var r := Closure(g, true, root);
    if r.Done? {
      ClosureSound(g, root);
      ClosureLists(g, true, root);
    } else {
      assert [] + [root] == [root] && IsWalk(g, [root]);
      VisitErrors(g, true, root, [], State([], {}));
      hide Visit;
      if r.Cycle? { GenuineCycle(g, root, r.trace); }
    }
  }

  // ----- The mode that tolerates cycles -----

  /** Unless the rejecting mode reports a cycle, the modes do the same. */
  lemma {:induction false} ModesAgree(g: Graph, m: Module, stack: seq<Module>, st: State)
    requires Closed(g) && m in g
    ensures Visit(g, true, m, stack, st).Cycle? || Visit(g, false, m, stack, st) == Visit(g, true, m, stack, st)
    decreases |Left(g, stack)|, 0
  {
    if m.name !in st.visited && !Clashes(stack, m) && g[m].Imports? {
      PushShrinks(g, stack, m);
      ModesAgreeAll(g, g[m].items, stack + [m], st);
    }
  }

  lemma {:induction false} ModesAgreeAll(g: Graph, items: seq<Import>, stack: seq<Module>, st: State)
    requires Closed(g) && forall t :: Dep(t) in items ==> t in g
    ensures VisitAll(g, true, items, stack, st).Cycle?
            || VisitAll(g, false, items, stack, st) == VisitAll(g, true, items, stack, st)
    decreases |Left(g, stack)|, |items| + 1
  {
    if items != [] {
      match items[0]
      case Unresolved(_) =>
      case Skipped => ModesAgreeAll(g, items[1..], stack, st);
      case Dep(t) =>
        ModesAgree(g, t, stack, st);
        var r := Visit(g, true, t, stack, st);
        if r.Done? { ModesAgreeAll(g, items[1..], stack, r.st); }
    }
  }

  /** Over any graph the lenient mode never reports a cycle, and fails only on a module that does not
      parse or resolve. */
  lemma LenientTolerates(g: Graph, root: Module)
    requires Closed(g) && root in g
    ensures !Closure(g, false, root).Cycle?
    ensures Closure(g, false, root).Failed? ==> ReachesBad(g, root)
  {
    assert [] + [root] == [root] && IsWalk(g, [root]);
    VisitErrors(g, false, root, [], State([], {}));
  }

  lemma MetNothingBad(g: Graph, st: State, root: Module)
    requires Alike(g) && AllFollowed(g, st, [])
    requires forall m :: Reaches(g, root, m) ==> m in g && Clashes(st.order, m)
    ensures !ReachesBad(g, root)
  {
    hide Reaches;
    forall x | Reaches(g, root, x) ensures !Bad(g, x) {
      var i :| 0 <= i < |st.order| && Clash(st.order[i], x);
      assert Followed(g, st.order[i], st.order, []);
    }
  }

  /** The lenient mode succeeds exactly when every reachable module parses and resolves, and then lists
      dependencies before importers exactly when no cycle is reachable. */
  lemma LenientExact(g: Graph, root: Module)
    requires Closed(g) && Keyed(g, root) && Alike(g) && root in g
    ensures Closure(g, false, root).Done? <==> !ReachesBad(g, root)
    ensures Closure(g, false, root).Done? ==>
              (Topological(g, Closure(g, false, root).st.order) <==> !Cyclic(g, root))
  {
    LenientTolerates(g, root);
    var r := Closure(g, false, root);
    if r.Done? {
      ClosureLists(g, false, root);
      ClosureComplete(g, false, root);
      MetNothingBad(g, r.st, root);
      ModesAgree(g, root, [], State([], {}));
      ClosureExact(g, root);
      hide Visit, Topological, Cyclic, ReachesBad;
      if Topological(g, r.st.order) { TopologicalAcyclic(g, r.st, root); }
    }
  }

  // ----- The walk as it runs -----

  datatype Error = CyclicImport(names: seq<string>) | Message(text: string)

  function Names(stack: seq<Module>): seq<string> { seq(|stack|, i requires 0 <= i < |stack| => stack[i].name) }

  function Keys(stack: seq<Module>): seq<string> { seq(|stack|, i requires 0 <= i < |stack| => Identity(stack[i])) }

  function Sources(stack: seq<Module>): seq<string> { seq(|stack|, i requires 0 <= i < |stack| => stack[i].source) }

  /** What a call leaves behind: on success the new listing, on failure the error. */
  ghost predicate Reports(r: Outcome, error: Option<Error>, order: seq<Module>, visited: set<string>) {
    match r
    case Done(st) => error == None && order == st.order && visited == st.visited
    case Cycle(trace) => error == Some(CyclicImport(Names(trace)))
    case Failed(message) => error == Some(Message(message))
  }

  lemma StacksAgree(path: seq<Module>, m: Module)
    ensures Clashes(path, m) <==> m.name in Names(path) || Identity(m) in Keys(path) || m.source in Sources(path)
    ensures Names(path + [m]) == Names(path) + [m.name]
    ensures Keys(path + [m]) == Keys(path) + [Identity(m)]
    ensures Sources(path + [m]) == Sources(path) + [m.source]
  {
    if Clashes(path, m) {
      var i :| 0 <= i < |path| && Clash(path[i], m);
      assert Names(path)[i] == path[i].name && Keys(path)[i] == Identity(path[i]) && Sources(path)[i] == path[i].source;
    }
    if m.name in Names(path) {
      var i :| 0 <= i < |path| && Names(path)[i] == m.name;
      assert Clash(path[i], m);
    }
    if Identity(m) in Keys(path) {
      var i :| 0 <= i < |path| && Keys(path)[i] == Identity(m);
      assert Clash(path[i], m);
    }
    if m.source in Sources(path) {
      var i :| 0 <= i < |path| && Sources(path)[i] == m.source;
      assert Clash(path[i], m);
    }
  }

  /** `collect_import_closure`: three parallel stacks, the visited names and the growing order. */
  method CollectImportClosure(g: Graph, reject: bool, m: Module, order: seq<Module>, visited: set<string>,
                              names: seq<string>, keys: seq<string>, sources: seq<string>, ghost path: seq<Module>)
    returns (error: Option<Error>, order': seq<Module>, visited': set<string>)
    requires Closed(g) && m in g
    requires names == Names(path) && keys == Keys(path) && sources == Sources(path)
    ensures Reports(Visit(g, reject, m, path, State(order, visited)), error, order', visited')
    decreases |Left(g, path)|, 0
  {
    error, order', visited' := None, order, visited;
    if m.name in visited {
      return;
    }
    StacksAgree(path, m);
    var identity := Identity(m);
    if m.name in names || identity in keys || m.source in sources {
      if reject {
        error := Some(CyclicImport(names + [m.name]));
      }
      return;
    }
    PushShrinks(g, path, m);
    hide Clashes, Names, Keys, Sources, Left, VisitAll;
    match g[m] {
      case Unparsed(message) => error := Some(Message(message));
      case Imports(items) =>
        error, order', visited' :=
          CollectEach(g, reject, items, order, visited, names + [m.name], keys + [identity], sources + [m.source],
            path + [m]);
        if error.None? {
          order', visited' := order' + [m], visited' + {m.name};
        }
    }
  }

  /** Its loop over the imports of one module. */
  method CollectEach(g: Graph, reject: bool, items: seq<Import>, order: seq<Module>, visited: set<string>,
                     names: seq<string>, keys: seq<string>, sources: seq<string>, ghost path: seq<Module>)
    returns (error: Option<Error>, order': seq<Module>, visited': set<string>)
    requires Closed(g) && forall t :: Dep(t) in items ==> t in g
    requires names == Names(path) && keys == Keys(path) && sources == Sources(path)
    ensures Reports(VisitAll(g, reject, items, path, State(order, visited)), error, order', visited')
    decreases |Left(g, path)|, |items| + 1
  {
    hide Visit, Names, Keys, Sources, Left;
    error, order', visited' := None, order, visited;
    ghost var all := VisitAll(g, reject, items, path, State(order, visited));
    for i := 0 to |items|
      invariant error == None && VisitAll(g, reject, items[i..], path, State(order', visited')) == all
    {
      assert items[i] in items && items[i..][0] == items[i] && items[i..][1..] == items[i + 1..];
      match items[i] {
        case Unresolved(message) => return Some(Message(message)), order', visited';
        case Skipped =>
        case Dep(t) =>
          error, order', visited' := CollectImportClosure(g, reject, t, order', visited', names, keys, sources, path);
          if error.Some? {
            return;
          }
      }
    }
  }
}
