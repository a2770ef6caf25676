/**
 Dropping standard-library objects that nothing references (`prune_unreferenced_stdlib`). An
 assembled object is its global symbols and the symbols it leaves undefined.
 */
module Prune {
  import opened Common

  datatype Unit = Unit(name: string, globals: set<string>, undefined: set<string>)

  /** Program and extra objects, and objects that define an entry symbol, are always kept. */
  predicate IsRoot(u: Unit, prunable: set<string>, entry: Option<string>) {
    || u.name !in prunable
    || "_start" in u.globals || "_kernel_start" in u.globals
    || (entry.Some? && entry.value in u.globals)
  }

  /** `b` globally defines a symbol that `a` leaves undefined. */
  predicate Needs(a: Unit, b: Unit) {
    exists s :: s in b.globals && s in a.undefined
  }

  // ----- What should be kept -----

  /** A chain of references from a root to unit `w[|w| - 1]`. */
  ghost predicate Chain(units: seq<Unit>, prunable: set<string>, entry: Option<string>, w: seq<nat>) {
    && w != [] && (forall i :: 0 <= i < |w| ==> w[i] < |units|)
    && IsRoot(units[w[0]], prunable, entry)
    && forall i :: 0 < i < |w| ==> Needs(units[w[i - 1]], units[w[i]])
  }

  ghost predicate Referenced(units: seq<Unit>, prunable: set<string>, entry: Option<string>, k: nat) {
    exists w :: Chain(units, prunable, entry, w) && w[|w| - 1] == k
  }

  /** The units whose flag is set, in their original order. */
  function Select(units: seq<Unit>, kept: seq<bool>): (r: seq<Unit>)
    requires |units| == |kept|
  {
    if units == [] then [] else (if kept[0] then [units[0]] else []) + Select(units[1..], kept[1..])
  }

  /** The flags that mark exactly the referenced units. */
  ghost function ReferencedFlags(units: seq<Unit>, prunable: set<string>, entry: Option<string>): (f: seq<bool>)
    ensures |f| == |units| && forall i :: 0 <= i < |f| ==> (f[i] <==> Referenced(units, prunable, entry, i))
  {
    seq(|units|, i requires 0 <= i < |units| => Referenced(units, prunable, entry, i))
  }

  /** Contains the roots and everything a member needs. */
  ghost predicate ClosedFlags(units: seq<Unit>, prunable: set<string>, entry: Option<string>, f: seq<bool>) {
    && |f| == |units|
    && (forall i :: 0 <= i < |f| && IsRoot(units[i], prunable, entry) ==> f[i])
    && (forall i, j :: 0 <= i < |f| && 0 <= j < |f| && f[i] && Needs(units[i], units[j]) ==> f[j])
  }

  lemma RootReferenced(units: seq<Unit>, prunable: set<string>, entry: Option<string>, k: nat)
    requires k < |units| && IsRoot(units[k], prunable, entry)
    ensures Referenced(units, prunable, entry, k)
  {
    assert Chain(units, prunable, entry, [k]);
  }

  lemma NeededReferenced(units: seq<Unit>, prunable: set<string>, entry: Option<string>, i: nat, j: nat)
    requires i < |units| && j < |units| && Referenced(units, prunable, entry, i) && Needs(units[i], units[j])
    ensures Referenced(units, prunable, entry, j)
  {
    var w :| Chain(units, prunable, entry, w) && w[|w| - 1] == i;
    var v := w + [j];
    hide IsRoot;
    forall k | 0 < k < |v| ensures Needs(units[v[k - 1]], units[v[k]]) {
      if k < |w| { assert Needs(units[w[k - 1]], units[w[k]]); }
    }
    assert Chain(units, prunable, entry, v);
  }

  lemma {:induction false} ChainInside(units: seq<Unit>, prunable: set<string>, entry: Option<string>, f: seq<bool>,
                                       w: seq<nat>, n: nat)
    requires ClosedFlags(units, prunable, entry, f) && Chain(units, prunable, entry, w) && n < |w|
    ensures f[w[n]]
  {
    if n > 0 {
      ChainInside(units, prunable, entry, f, w, n - 1);
      assert Needs(units[w[n - 1]], units[w[n]]);
    }
  }

  /** The referenced units are the least set that contains the roots and is closed under need. */
  lemma ReferencedIsLeast(units: seq<Unit>, prunable: set<string>, entry: Option<string>, f: seq<bool>)
    ensures ClosedFlags(units, prunable, entry, ReferencedFlags(units, prunable, entry))
    ensures ClosedFlags(units, prunable, entry, f) ==>
              forall i :: 0 <= i < |units| && ReferencedFlags(units, prunable, entry)[i] ==> f[i]
  {
    var r := ReferencedFlags(units, prunable, entry);
    hide IsRoot, Needs, ReferencedFlags;
    forall i | 0 <= i < |r| && IsRoot(units[i], prunable, entry) ensures r[i] {
      RootReferenced(units, prunable, entry, i);
    }
    forall i, j | 0 <= i < |r| && 0 <= j < |r| && r[i] && Needs(units[i], units[j]) ensures r[j] {
      NeededReferenced(units, prunable, entry, i, j);
    }
    if ClosedFlags(units, prunable, entry, f) {
      forall i | 0 <= i < |units| && r[i] ensures f[i] {
        var w :| Chain(units, prunable, entry, w) && w[|w| - 1] == i;
        ChainInside(units, prunable, entry, f, w, |w| - 1);
      }
    }
  }

  lemma {:induction false} SelectMembers(units: seq<Unit>, kept: seq<bool>, k: nat)
    requires |units| == |kept| && k < |units| && kept[k]
    ensures units[k] in Select(units, kept)
  {
    if k > 0 { SelectMembers(units[1..], kept[1..], k - 1); }
  }

  lemma {:induction false} SelectOnly(units: seq<Unit>, kept: seq<bool>, u: Unit) returns (k: nat)
    requires |units| == |kept| && u in Select(units, kept)
    ensures k < |units| && kept[k] && units[k] == u
  {
    if kept[0] && units[0] == u {
      k := 0;
    } else {
      k := SelectOnly(units[1..], kept[1..], u);
      k := k + 1;
    }
  }

  /** `r` lists the units at positions `ks`, in order. */
  ghost predicate Picks(units: seq<Unit>, ks: seq<nat>, r: seq<Unit>) {
    && |ks| == |r| && (forall i, j :: 0 <= i < j < |ks| ==> ks[i] < ks[j])
    && forall i :: 0 <= i < |ks| ==> ks[i] < |units| && r[i] == units[ks[i]]
  }

  /** Positions one further on. */
  function Moved(ks: seq<nat>): (r: seq<nat>)
    ensures |r| == |ks| && forall i :: 0 <= i < |ks| ==> r[i] == ks[i] + 1
  {
    seq(|ks|, i requires 0 <= i < |ks| => ks[i] + 1)
  }

  lemma MovedMember(ks: seq<nat>, k: nat)
    ensures k + 1 in Moved(ks) <==> k in ks
    ensures 0 !in Moved(ks)
  {
    if k in ks {
      var i :| 0 <= i < |ks| && ks[i] == k;
      assert Moved(ks)[i] == k + 1;
    }
    if k + 1 in Moved(ks) {
      var i :| 0 <= i < |ks| && Moved(ks)[i] == k + 1;
      assert ks[i] in ks;
    }
  }

  lemma MovedPicks(units: seq<Unit>, ks: seq<nat>, r: seq<Unit>)
    requires units != [] && Picks(units[1..], ks, r)
    ensures Picks(units, Moved(ks), r) && Picks(units, [0] + Moved(ks), [units[0]] + r)
  {
    var m := Moved(ks);
    assert forall i :: 0 <= i < |m| ==> units[m[i]] == units[1..][ks[i]];
  }

  /** The positions selected, in increasing order. */
  lemma {:induction false} SelectPicks(units: seq<Unit>, kept: seq<bool>) returns (ks: seq<nat>)
    requires |units| == |kept|
    ensures Picks(units, ks, Select(units, kept))
    ensures forall k: nat :: k in ks <==> k < |units| && kept[k]
  {
    if units == [] {
      ks := [];
    } else {
      var rest := SelectPicks(units[1..], kept[1..]);
      MovedPicks(units, rest, Select(units[1..], kept[1..]));
      ks := if kept[0] then [0] + Moved(rest) else Moved(rest);
      hide Picks, Moved;
      assert kept[0] || [] + Select(units[1..], kept[1..]) == Select(units[1..], kept[1..]);
      forall k: nat ensures k in ks <==> k < |units| && kept[k] {
        var j: nat := if k == 0 then 0 else k - 1;
        MovedMember(rest, j);
        assert k > 0 && k < |units| ==> kept[1..][j] == kept[k];
        assert j in rest <==> j < |units| - 1 && kept[1..][j];
      }
    }
  }

  /** A chain of references, written out: a unit that is not prunable or defines an entry symbol, then units
      each of which globally defines a symbol the one before leaves undefined. */
  ghost predicate Reaches(units: seq<Unit>, prunable: set<string>, entry: Option<string>, w: seq<nat>, k: nat) {
    && w != [] && w[|w| - 1] == k && (forall i :: 0 <= i < |w| ==> w[i] < |units|)
    && (var root := units[w[0]];
        || root.name !in prunable || "_start" in root.globals || "_kernel_start" in root.globals
        || (entry.Some? && entry.value in root.globals))
    && forall i :: 0 < i < |w| ==> units[w[i - 1]].undefined * units[w[i]].globals != {}
  }

  lemma ReachesIsChain(units: seq<Unit>, prunable: set<string>, entry: Option<string>, w: seq<nat>, k: nat)
    ensures Reaches(units, prunable, entry, w, k) <==> Chain(units, prunable, entry, w) && w[|w| - 1] == k
  {
    if w != [] && forall i :: 0 <= i < |w| ==> w[i] < |units| {
      forall i | 0 < i < |w|
        ensures Needs(units[w[i - 1]], units[w[i]]) <==> units[w[i - 1]].undefined * units[w[i]].globals != {}
      {
        NeedsMeets(units[w[i - 1]], units[w[i]]);
      }
      hide Needs;
    }
  }

  lemma NeedsMeets(a: Unit, b: Unit)
    ensures Needs(a, b) <==> a.undefined * b.globals != {}
  {
    if Needs(a, b) {
      var s :| s in b.globals && s in a.undefined;
      assert s in a.undefined * b.globals;
    }
    if a.undefined * b.globals != {} {
      var s :| s in a.undefined * b.globals;
    }
  }

  /** What pruning keeps: the units to which a chain of references leads, in their original order. */
  ghost predicate PrunedTo(units: seq<Unit>, prunable: set<string>, entry: Option<string>, r: seq<Unit>) {
    exists ks ::
      && Picks(units, ks, r)
      && forall k: nat :: k in ks <==> k < |units| && exists w :: Reaches(units, prunable, entry, w, k)
  }

  lemma ReachedReferenced(units: seq<Unit>, prunable: set<string>, entry: Option<string>, k: nat)
    ensures (exists w :: Reaches(units, prunable, entry, w, k)) <==> Referenced(units, prunable, entry, k)
  {
    if w :| Reaches(units, prunable, entry, w, k) { ReachesIsChain(units, prunable, entry, w, k); }
    if Referenced(units, prunable, entry, k) {
      var w :| Chain(units, prunable, entry, w) && w[|w| - 1] == k;
      ReachesIsChain(units, prunable, entry, w, k);
    }
  }

  lemma SelectedPruned(units: seq<Unit>, prunable: set<string>, entry: Option<string>)
    ensures PrunedTo(units, prunable, entry, Select(units, ReferencedFlags(units, prunable, entry)))
  {
    var f := ReferencedFlags(units, prunable, entry);
    hide Reaches, Select, Picks, Referenced, ReferencedFlags;
    var ks := SelectPicks(units, f);
    forall k: nat ensures k in ks <==> k < |units| && exists w :: Reaches(units, prunable, entry, w, k) {
      ReachedReferenced(units, prunable, entry, k);
    }
  }

  /** Linking is unaffected: every symbol a kept unit leaves undefined has the same defining units
      after pruning as before. */
  lemma DefinersKept(units: seq<Unit>, prunable: set<string>, entry: Option<string>, u: Unit, s: string, d: Unit)
    requires u in Select(units, ReferencedFlags(units, prunable, entry)) && s in u.undefined && s in d.globals
    ensures d in units <==> d in Select(units, ReferencedFlags(units, prunable, entry))
  {
    var f := ReferencedFlags(units, prunable, entry);
    ReferencedIsLeast(units, prunable, entry, f);
    hide ReferencedFlags, IsRoot;
    var k := SelectOnly(units, f, u);
    if d in units {
      var j :| 0 <= j < |units| && units[j] == d;
      assert Needs(units[k], units[j]);
      SelectMembers(units, f, j);
    }
    if d in Select(units, f) {
      var j := SelectOnly(units, f, d);
    }
  }

  // ----- The loop -----

  ghost function NeededBy(units: seq<Unit>, kept: seq<bool>): set<string>
    requires |units| == |kept|
  {
    set i, s | 0 <= i < |units| && kept[i] && s in units[i].undefined :: s
  }

  ghost predicate Sound(units: seq<Unit>, prunable: set<string>, entry: Option<string>, kept: seq<bool>,
                        needed: set<string>) {
    && |kept| == |units| && needed == NeededBy(units, kept)
    && (forall i :: 0 <= i < |units| && IsRoot(units[i], prunable, entry) ==> kept[i])
    && (forall i :: 0 <= i < |units| && kept[i] ==> Referenced(units, prunable, entry, i))
  }

  function Unkept(kept: seq<bool>): nat {
    if kept == [] then 0 else (if kept[0] then 0 else 1) + Unkept(kept[1..])
  }

  lemma {:induction false} KeepShrinks(kept: seq<bool>, k: nat)
    requires k < |kept| && !kept[k]
    ensures Unkept(kept[k := true]) == Unkept(kept) - 1
  {
    if k > 0 {
      assert kept[k := true][1..] == kept[1..][k - 1 := true];
      KeepShrinks(kept[1..], k - 1);
    } else {
      assert kept[k := true][1..] == kept[1..];
    }
  }

  lemma KeepSound(units: seq<Unit>, prunable: set<string>, entry: Option<string>, kept: seq<bool>, needed: set<string>,
                  k: nat, s: string)
    requires Sound(units, prunable, entry, kept, needed) && k < |units| && s in units[k].globals && s in needed
    ensures Sound(units, prunable, entry, kept[k := true], needed + units[k].undefined)
  {
    hide IsRoot, Referenced;
    var i :| 0 <= i < |units| && kept[i] && s in units[i].undefined;
    assert Needs(units[i], units[k]);
    NeededReferenced(units, prunable, entry, i, k);
    var next := kept[k := true];
    assert needed + units[k].undefined == NeededBy(units, next) by {
      forall x | x in NeededBy(units, next) ensures x in needed + units[k].undefined {
        var j :| 0 <= j < |units| && next[j] && x in units[j].undefined;
      }
      forall x | x in needed ensures x in NeededBy(units, next) {
        var j :| 0 <= j < |units| && kept[j] && x in units[j].undefined;
        assert next[j];
      }
      assert next[k];
    }
  }

  /** At a fixpoint exactly the referenced units are kept. */
  lemma FixpointExact(units: seq<Unit>, prunable: set<string>, entry: Option<string>, kept: seq<bool>,
                      needed: set<string>)
    requires Sound(units, prunable, entry, kept, needed)
    requires forall j, s :: 0 <= j < |units| && !kept[j] && s in units[j].globals ==> s !in needed
    ensures kept == ReferencedFlags(units, prunable, entry)
  {
    hide IsRoot, Referenced, ReferencedFlags;
    forall i, j | 0 <= i < |units| && 0 <= j < |units| && kept[i] && Needs(units[i], units[j]) ensures kept[j] {
      var s :| s in units[j].globals && s in units[i].undefined;
      assert s in NeededBy(units, kept);
    }
    assert ClosedFlags(units, prunable, entry, kept);
    ReferencedIsLeast(units, prunable, entry, kept);
  }

  method RootFlags(units: seq<Unit>, prunable: set<string>, entry: Option<string>)
    returns (kept: seq<bool>, needed: set<string>)
    ensures Sound(units, prunable, entry, kept, needed)
  {
    kept, needed := [], {};
    for i := 0 to |units|
      invariant |kept| == i && forall j :: 0 <= j < i ==> kept[j] == IsRoot(units[j], prunable, entry)
      invariant needed == NeededBy(units[..i], kept)
    {
      ghost var before := kept;
      kept := kept + [IsRoot(units[i], prunable, entry)];
      if kept[i] {
        needed := needed + units[i].undefined;
      }
      hide IsRoot;
      NeededSnoc(units, before, i, kept[i]);
    }
    assert units[..|units|] == units;
    forall i | 0 <= i < |units| && kept[i] ensures Referenced(units, prunable, entry, i) {
      RootReferenced(units, prunable, entry, i);
    }
  }

  lemma NeededSnoc(units: seq<Unit>, kept: seq<bool>, i: nat, b: bool)
    requires i < |units| && |kept| == i
    ensures NeededBy(units[..i + 1], kept + [b]) == NeededBy(units[..i], kept) + if b then units[i].undefined else {}
  {
    var us, ks := units[..i + 1], kept + [b];
    forall x | x in NeededBy(us, ks) ensures x in NeededBy(units[..i], kept) + if b then units[i].undefined else {} {
      var j :| 0 <= j < |us| && ks[j] && x in us[j].undefined;
      if j < i { assert units[..i][j] == us[j] && kept[j]; }
    }
    forall x | x in NeededBy(units[..i], kept) ensures x in NeededBy(us, ks) {
      var j :| 0 <= j < i && kept[j] && x in units[..i][j].undefined;
      assert us[j] == units[..i][j] && ks[j];
    }
    if b { assert us[i] == units[i] && ks[i]; }
  }

  /** `prune_unreferenced_stdlib`: passes over the units until one changes nothing. */
  method PruneUnreferencedStdlib(units: seq<Unit>, prunable: set<string>, entry: Option<string>) returns (r: seq<Unit>)
    ensures r == Select(units, ReferencedFlags(units, prunable, entry)) && PrunedTo(units, prunable, entry, r)
  {
    hide IsRoot, Referenced, ReferencedFlags, PrunedTo;
    var kept, needed := RootFlags(units, prunable, entry);
    var changed := true;
    while changed
      invariant Sound(units, prunable, entry, kept, needed)
      invariant changed || forall j, s :: 0 <= j < |units| && !kept[j] && s in units[j].globals ==> s !in needed
      decreases Unkept(kept), changed
    {
      kept, needed, changed := Pass(units, prunable, entry, kept, needed);
    }
    FixpointExact(units, prunable, entry, kept, needed);
    r := Select(units, kept);
    SelectedPruned(units, prunable, entry);
  }

  /** One pass over the units. */
  method Pass(units: seq<Unit>, prunable: set<string>, entry: Option<string>, kept: seq<bool>, needed: set<string>)
    returns (kept': seq<bool>, needed': set<string>, changed: bool)
    requires Sound(units, prunable, entry, kept, needed)
    ensures Sound(units, prunable, entry, kept', needed')
    ensures if changed then Unkept(kept') < Unkept(kept)
            else kept' == kept && forall j, s :: 0 <= j < |units| && !kept'[j] && s in units[j].globals ==>
              s !in needed'
  {
    hide IsRoot, Referenced;
    kept', needed', changed := kept, needed, false;
    for k := 0 to |units|
      invariant Sound(units, prunable, entry, kept', needed')
      invariant if changed then Unkept(kept') < Unkept(kept)
                else kept' == kept && needed' == needed && forall j, s ::
                  0 <= j < k && !kept'[j] && s in units[j].globals ==> s !in needed'
    {
      if !kept'[k] && exists s :: s in units[k].globals && s in needed' {
        ghost var s :| s in units[k].globals && s in needed';
        KeepSound(units, prunable, entry, kept', needed', k, s);
        KeepShrinks(kept', k);
        kept', needed', changed := kept'[k := true], needed' + units[k].undefined, true;
      }
    }
  }
}
