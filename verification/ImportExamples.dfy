/**
 Import graphs on which the closure is wrong: the condition of its theorems, that modules taken for one
 import the same, is needed.
 */
module ImportExamples {
  import opened Common
  import opened ImportClosure

  const A: Module := Module("a", "text", Some("p/m"))
  const B: Module := Module("p/x/m", "text", Some("p/x/m"))
  const R: Module := Module("r", "root", None)
  const N: Module := Module("n", "root", None)
  const M: Module := Module("n", "x", Some("p/n"))

  /** A registry module and a file below it with the same text: its import "./x/m" finds the file from the
      one and a header from the other. */
  function SameTextUnder(first: Module, second: Module): Graph {
    map[R := Imports([Dep(first), Dep(second)]), A := Imports([Dep(B)]), B := Imports([Skipped])]
  }

  /** A program named like a registry module it imports. */
  const SAME_NAME: Graph := map[N := Imports([Dep(M)]), M := Imports([])]

  /** Imports are read off the text, so modules with one text have equally many. */
  ghost predicate TextsParse(g: Graph) {
    forall a, b :: a in g && b in g && a.source == b.source ==>
      (g[a].Imports? <==> g[b].Imports?) && (g[a].Imports? && g[b].Imports? ==> |g[a].items| == |g[b].items|)
  }

  /** A graph the parser and the resolver can produce, without cycles and unreadable modules. */
  ghost predicate Sane(g: Graph, root: Module) {
    Closed(g) && Keyed(g, root) && TextsParse(g) && root in g && !Cyclic(g, root) && !ReachesBad(g, root)
  }

  lemma Names()
    ensures A.name != B.name && A.name != R.name && B.name != R.name && A.source != R.source
    ensures Identity(A) != Identity(B) && Identity(A) != Identity(R) && Identity(B) != Identity(R)
  {
    assert |"a"| == 1 && |"p/m"| == 3 && |"p/x/m"| == 5 && |"r"| == 1;
    assert "a"[0] != "r"[0] && "text"[0] != "root"[0];
  }

  lemma Acyclic(g: Graph, order: seq<Module>, root: Module)
    requires Closed(g) && root in order && OnceEach(order)
    requires forall i, t :: 0 <= i < |order| && Edge(g, order[i], t) ==> Earlier(order, i, t)
    requires forall m :: m in g ==> !Bad(g, m)
    ensures !Cyclic(g, root) && !ReachesBad(g, root)
  {
    TopologicalAcyclic(g, State(order, {}), root);
  }

  // ----- The walk, one step at a time -----

  function Closing(r: Outcome, m: Module): Outcome {
    match r
    case Done(st) => Done(State(st.order + [m], st.visited + {m.name}))
    case Cycle(trace) => Cycle(trace)
    case Failed(message) => Failed(message)
  }

  lemma Opens(g: Graph, reject: bool, m: Module, stack: seq<Module>, st: State)
    requires Closed(g) && m in g && m.name !in st.visited && !Clashes(stack, m) && g[m].Imports?
    ensures Visit(g, reject, m, stack, st) == Closing(VisitAll(g, reject, g[m].items, stack + [m], st), m)
  {
    hide Clashes, VisitAll;
    PushShrinks(g, stack, m);
  }

  lemma Clashing(g: Graph, reject: bool, m: Module, stack: seq<Module>, st: State)
    requires Closed(g) && m in g && m.name !in st.visited && Clashes(stack, m)
    ensures Visit(g, reject, m, stack, st) == if reject then Cycle(stack + [m]) else Done(st)
  {
    hide Clashes, VisitAll;
  }

  lemma Next(g: Graph, reject: bool, t: Module, rest: seq<Import>, stack: seq<Module>, st: State)
    requires Closed(g) && t in g && forall x :: Dep(x) in rest ==> x in g
    ensures var r := Visit(g, reject, t, stack, st);
            VisitAll(g, reject, [Dep(t)] + rest, stack, st) == if r.Done? then VisitAll(g, reject, rest, stack, r.st)
              else r
  {
    assert ([Dep(t)] + rest)[1..] == rest;
    hide Visit;
  }

  lemma Only(g: Graph, reject: bool, t: Module, stack: seq<Module>, st: State)
    requires Closed(g) && t in g
    ensures VisitAll(g, reject, [Dep(t)], stack, st) == Visit(g, reject, t, stack, st)
  {
    assert [Dep(t)] + [] == [Dep(t)];
    Next(g, reject, t, [], stack, st);
    hide Visit;
  }

  lemma Header(g: Graph, reject: bool, stack: seq<Module>, st: State)
    requires Closed(g)
    ensures VisitAll(g, reject, [Skipped], stack, st) == Done(st) == VisitAll(g, reject, [], stack, st)
  {
    assert [Skipped][1..] == [];
  }

  lemma ClashLast(stack: seq<Module>, a: Module, m: Module)
    ensures Clash(a, m) ==> Clashes(stack + [a], m)
    ensures Clashes([a], m) <==> Clash(a, m)
    ensures !Clashes([], m)
  {
    assert (stack + [a])[|stack|] == a && [a][0] == a;
  }

  // ----- Equal texts -----

  lemma SameTextSecond(g: Graph, reject: bool, stack: seq<Module>)
    requires Closed(g) && A in g && B in g && g[A] == Imports([Dep(B)]) && !Clashes(stack, A)
    ensures Visit(g, reject, A, stack, State([], {})) ==
            if reject then Cycle(stack + [A] + [B]) else Done(State([A], {"a"}))
  {
    var st := State([], {});
    ClashLast(stack, A, B);
    hide Visit, VisitAll, Clashes;
    Opens(g, reject, A, stack, st);
    Only(g, reject, B, stack + [A], st);
    Clashing(g, reject, B, stack + [A], st);
    assert [] + [A] == [A];
  }

  ghost predicate EitherOrder(first: Module, second: Module) {
    (first == A && second == B) || (first == B && second == A)
  }

  lemma UnderEntries(first: Module, second: Module)
    ensures var g := SameTextUnder(first, second);
            && (forall m :: m in g <==> m == R || m == A || m == B)
            && g[R] == Imports([Dep(first), Dep(second)]) && g[A] == Imports([Dep(B)]) && g[B] == Imports([Skipped])
  {
    Names();
  }

  lemma UnderKeyed(first: Module, second: Module)
    ensures var g := SameTextUnder(first, second); Keyed(g, R) && Keyed(g, A) && TextsParse(g)
  {
    Names();
    UnderEntries(first, second);
    hide SameTextUnder;
  }

  lemma UnderClosed(first: Module, second: Module)
    requires EitherOrder(first, second)
    ensures Closed(SameTextUnder(first, second))
  {
    UnderEntries(first, second);
    hide SameTextUnder;
  }

  lemma UnderReads(first: Module, second: Module, m: Module)
    requires m in SameTextUnder(first, second)
    ensures !Bad(SameTextUnder(first, second), m)
  {
    UnderEntries(first, second);
    hide SameTextUnder;
  }

  lemma UnderEdges(first: Module, second: Module, i: nat, t: Module)
    requires EitherOrder(first, second) && i < 3 && Edge(SameTextUnder(first, second), [B, A, R][i], t)
    ensures Earlier([B, A, R], i, t)
  {
    Names();
    var order := [B, A, R];
    assert order[0] == B && order[1] == A && order[2] == R;
    if i == 0 {
      assert false;
    } else if i == 1 {
      assert t == B;
    }
  }

  lemma UnderSane(first: Module, second: Module)
    requires EitherOrder(first, second)
    ensures Sane(SameTextUnder(first, second), R) && Sane(SameTextUnder(first, second), A)
  {
    var g, order := SameTextUnder(first, second), [B, A, R];
    UnderEntries(first, second);
    UnderKeyed(first, second);
    UnderClosed(first, second);
    Names();
    assert OnceEach(order) && order[1] == A && order[2] == R;
    hide Closed, Keyed, TextsParse, Bad, Cyclic, ReachesBad, Edge, Earlier, SameTextUnder, EitherOrder;
    forall i, t | 0 <= i < |order| && Edge(g, order[i], t) ensures Earlier(order, i, t) {
      UnderEdges(first, second, i, t);
    }
    forall m | m in g ensures !Bad(g, m) { UnderReads(first, second, m); }
    Acyclic(g, order, R);
    Acyclic(g, order, A);
  }

  /** A module imports another file with the same text: there is no cycle, yet the rejecting mode reports
      one and the lenient mode drops the file. */
  lemma SameTextMisjudged()
    ensures Sane(SameTextUnder(A, B), A)
    ensures Closure(SameTextUnder(A, B), true, A) == Cycle([A, B])
    ensures Closure(SameTextUnder(A, B), false, A) == Done(State([A], {"a"}))
  {
    var g := SameTextUnder(A, B);
    UnderSane(A, B);
    UnderEntries(A, B);
    ClashLast([], A, A);
    assert [] + [A] + [B] == [A, B];
    hide Visit, Clashes, Cyclic, ReachesBad, SameTextUnder;
    SameTextSecond(g, true, []);
    SameTextSecond(g, false, []);
  }

  lemma RootApart()
    ensures !Clashes([R], A) && !Clashes([R], B) && !Clashes([], R)
  {
    Names();
    ClashLast([], R, A);
    ClashLast([], R, B);
    ClashLast([], R, R);
    assert B.source == A.source;
  }

  lemma SecondFirst()
    ensures Closed(SameTextUnder(B, A)) && Closure(SameTextUnder(B, A), true, R).Done?
  {
    var g, st := SameTextUnder(B, A), State([], {});
    UnderSane(B, A);
    RootApart();
    Names();
    hide Visit, VisitAll, Clashes, Cyclic, ReachesBad;
    Opens(g, true, R, [], st);
    assert [] + [R] == [R] && [Dep(B)] + [Dep(A)] == [Dep(B), Dep(A)];
    Next(g, true, B, [Dep(A)], [R], st);
    Opens(g, true, B, [R], st);
    Header(g, true, [R] + [B], st);
    var b := State([] + [B], {} + {B.name});
    Only(g, true, A, [R], b);
    Opens(g, true, A, [R], b);
    Only(g, true, B, [R] + [A], b);
    Skips(g, B, [R] + [A], b);
  }

  lemma Skips(g: Graph, m: Module, stack: seq<Module>, st: State)
    requires Closed(g) && m in g && m.name in st.visited
    ensures Visit(g, true, m, stack, st) == Done(st)
  {
  }

  lemma FirstFirst()
    ensures Closed(SameTextUnder(A, B)) && Closure(SameTextUnder(A, B), true, R) == Cycle([R, A, B])
  {
    var g, st := SameTextUnder(A, B), State([], {});
    UnderSane(A, B);
    RootApart();
    hide Visit, VisitAll, Clashes, Cyclic, ReachesBad;
    Opens(g, true, R, [], st);
    assert [] + [R] == [R] && [Dep(A)] + [Dep(B)] == [Dep(A), Dep(B)];
    Next(g, true, A, [Dep(B)], [R], st);
    SameTextSecond(g, true, [R]);
    assert [R] + [A] + [B] == [R, A, B];
  }

  /** With equal texts that import differently, success depends on the order of the root's imports, and so
      on no condition of the graph's edges alone. */
  lemma ImportOrderDecides()
    ensures Sane(SameTextUnder(B, A), R) && Sane(SameTextUnder(A, B), R)
    ensures Closure(SameTextUnder(B, A), true, R).Done? && Closure(SameTextUnder(A, B), true, R).Cycle?
  {
    hide Visit, Sane;
    UnderSane(B, A);
    UnderSane(A, B);
    SecondFirst();
    FirstFirst();
  }

  // ----- Equal names -----

  lemma SameNameEntries()
    ensures N != M && N.source != M.source
    ensures forall m :: m in SAME_NAME <==> m == N || m == M
    ensures SAME_NAME[N] == Imports([Dep(M)]) && SAME_NAME[M] == Imports([])
  {
    assert |"root"| == 4 && |"x"| == 1;
  }

  lemma SameNameSane()
    ensures Sane(SAME_NAME, N)
  {
    SameNameEntries();
    var g, order := SAME_NAME, [M, N];
    assert order[0] == M && order[1] == N;
    forall i, t | 0 <= i < |order| && Edge(g, order[i], t) ensures Earlier(order, i, t) {
      assert i == 1 && t == M;
    }
    TopologicalAcyclic(g, State(order, {}), N);
  }

  /** A program named like a registry module it imports: there is no cycle, yet the rejecting mode reports
      one and the lenient mode drops the module. */
  lemma SameNameMisjudged()
    ensures Sane(SAME_NAME, N)
    ensures Closure(SAME_NAME, true, N) == Cycle([N, M])
    ensures Closure(SAME_NAME, false, N) == Done(State([N], {"n"}))
  {
    var g, st := SAME_NAME, State([], {});
    SameNameSane();
    SameNameEntries();
    ClashLast([], N, M);
    ClashLast([], N, N);
    hide Visit, VisitAll, Clashes, Cyclic, ReachesBad;
    assert [] + [N] == [N] && [N] + [M] == [N, M];
    Opens(g, true, N, [], st);
    Opens(g, false, N, [], st);
    Only(g, true, M, [N], st);
    Only(g, false, M, [N], st);
    Clashing(g, true, M, [N], st);
    Clashing(g, false, M, [N], st);
  }

  // ----- Equal files -----

  const OLD: Module := Module("r", "root", Some("p/r"))
  const NEW: Module := Module("p/r", "new", Some("p/r"))
  const RENAMED: Graph := map[OLD := Imports([Dep(NEW)]), NEW := Imports([])]

  lemma RenamedEntries()
    ensures OLD.name != NEW.name && OLD.source != NEW.source && Closed(RENAMED)
    ensures OLD in RENAMED && NEW in RENAMED && RENAMED[OLD] == Imports([Dep(NEW)])
  {
    assert |"r"| == 1 && |"p/r"| == 3 && |"root"| == 4 && |"new"| == 3;
  }

  /** A program whose own file is imported back by path, with another text: the file's path alone makes the
      rejecting mode report the cycle. */
  lemma SameFileMet()
    ensures Closed(RENAMED) && OLD.name != NEW.name && OLD.source != NEW.source
    ensures Closure(RENAMED, true, OLD) == Cycle([OLD, NEW])
  {
    var g, st := RENAMED, State([], {});
    RenamedEntries();
    ClashLast([], OLD, NEW);
    ClashLast([], OLD, OLD);
    hide Visit, VisitAll, Clashes;
    assert [] + [OLD] == [OLD] && [OLD] + [NEW] == [OLD, NEW];
    Opens(g, true, OLD, [], st);
    Only(g, true, NEW, [OLD], st);
    Clashing(g, true, NEW, [OLD], st);
  }
}
