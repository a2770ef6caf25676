/**
 The tree a list of entries describes, by paths alone, and the proof that the builder's plan has
 exactly that tree: every parent is found because directories come first and shorter paths first.
 */
module FsDescribe {
  import opened Common
  import opened FsLayout
  import opened FsImage
  import opened FsBuild
  import opened FsDecode
  import V = FsView

  const ROOT: Path := [SLASH]

  /** The entries that become inodes: all but a listed "/". */
  function Listed(es: seq<FsEntry>): seq<FsEntry> {
    if es == [] then []
    else Listed(es[..|es| - 1]) + (if IsRoot(es[|es| - 1]) then [] else [es[|es| - 1]])
  }

  /** Entries in inode order: inode `k` is `Order(entries)[k - 1]`. */
  function Order(entries: seq<FsEntry>): seq<FsEntry> {
    Listed(Sorted(entries))
  }

  function PathOf(es: seq<FsEntry>, k: nat): Path
    requires k <= |es|
  {
    if k == 0 then ROOT else es[k - 1].path
  }

  /** The directory an entry belongs in: its parent path if that is a listed directory, else "/". */
  function HomePath(es: seq<FsEntry>, path: Path): Path {
    if Dir(ParentPath(path)) in es then ParentPath(path) else ROOT
  }

  /** The entries among the first `n` inodes that belong in directory `p`. */
  function ChildEntries(es: seq<FsEntry>, n: nat, p: Path): seq<Dirent>
    requires n <= |es| + 1
  {
    if n <= 1 then []
    else ChildEntries(es, n - 1, p) +
         (if HomePath(es, es[n - 2].path) == p then [Dirent(Clip(BaseName(es[n - 2].path)), n - 1)] else [])
  }

  function IsDirAt(es: seq<FsEntry>, k: nat): bool
    requires k <= |es|
  {
    k == 0 || es[k - 1].Dir?
  }

  function SizeAt(es: seq<FsEntry>, k: nat): nat
    requires k <= |es|
  {
    if IsDirAt(es, k) then |ChildEntries(es, |es| + 1, PathOf(es, k))| else |Data(es[k - 1])|
  }

  /** The described node for inode `k`: its kind, size and, for a directory above the sixteenth level, the
      nodes of the entries that belong in it. */
  function Described(es: seq<FsEntry>, k: nat, name: seq<Byte>, depth: nat, fds: map<nat, nat>): V.FsNode
    requires k <= |es|
    decreases Max(V.MAX_DEPTH - depth, 0), 1, 0
  {
    V.FsNode(k, name, IsDirAt(es, k), SizeAt(es, k), V.OpenCount(fds, k),
             if IsDirAt(es, k) && depth < 16 then
               DescribedAll(es, ChildEntries(es, |es| + 1, PathOf(es, k)), depth, fds) else [])
  }

  function DescribedAll(es: seq<FsEntry>, ds: seq<Dirent>, depth: nat, fds: map<nat, nat>): seq<V.FsNode>
    requires depth < V.MAX_DEPTH
    decreases V.MAX_DEPTH - depth, 0, |ds|
  {
    if ds == [] then []
    else
      var shown := V.UntilNul(ds[0].name);
      (if shown == [] || ds[0].inode > |es| then [] else [Described(es, ds[0].inode, shown, depth + 1, fds)]) +
      DescribedAll(es, ds[1..], depth, fds)
  }

  // ----- Well-formed entries -----

  predicate Apart(a: FsEntry, b: FsEntry) {
    IsRoot(a) || IsRoot(b) || a.path != b.path
  }

  /** Paths are distinct, nothing is placed inside a file, and the inode table suffices. */
  ghost predicate Tidy(entries: seq<FsEntry>) {
    && (forall i, j :: 0 <= i < j < |entries| ==> Apart(entries[i], entries[j]))
    && (forall e, f :: e in entries && f in entries && f.File? ==> ParentPath(e.path) != f.path)
    && |Order(entries)| < INODE_COUNT
  }

  /** No directory has more entries than its block holds. */
  ghost predicate Roomy(entries: seq<FsEntry>) {
    forall p :: p == ROOT || Dir(p) in entries ==> HasRoom(entries, p)
  }

  ghost predicate HasRoom(entries: seq<FsEntry>, p: Path) {
    |ChildEntries(Order(entries), |Order(entries)| + 1, p)| <= DIRENTS_PER_BLOCK
  }

  ghost predicate WellFormed(entries: seq<FsEntry>) {
    Tidy(entries) && Roomy(entries)
  }

  // ----- Sorting -----

  predicate RankLe(a: FsEntry, b: FsEntry) {
    Kind(a) < Kind(b) || (Kind(a) == Kind(b) && |a.path| <= |b.path|)
  }

  ghost predicate Ranked(es: seq<FsEntry>) {
    forall i, j :: 0 <= i < j < |es| ==> RankLe(es[i], es[j])
  }

  ghost predicate AllApart(es: seq<FsEntry>) {
    forall i, j :: 0 <= i < j < |es| ==> Apart(es[i], es[j])
  }

  lemma {:induction false} InsertKeeps(e: FsEntry, es: seq<FsEntry>)
    requires Ranked(es)
    ensures Ranked(Insert(e, es))
    ensures forall x :: x in Insert(e, es) <==> x == e || x in es
  {
    hide LexLe;
    if es != [] && !KeyLe(e, es[0]) {
      InsertKeeps(e, es[1..]);
      assert es == [es[0]] + es[1..];
      var rest := Insert(e, es[1..]);
      assert Insert(e, es) == [es[0]] + rest;
      assert forall x :: x in rest ==> RankLe(es[0], x);
    }
  }

  lemma {:induction false} InsertApart(e: FsEntry, es: seq<FsEntry>)
    requires AllApart(es) && forall x :: x in es ==> Apart(e, x)
    ensures AllApart(Insert(e, es))
    ensures forall x :: x in Insert(e, es) <==> x == e || x in es
  {
    hide KeyLe;
    if es != [] && !KeyLe(e, es[0]) {
      InsertApart(e, es[1..]);
      var rest := Insert(e, es[1..]);
      assert es == [es[0]] + es[1..] && Insert(e, es) == [es[0]] + rest;
      forall x | x in rest ensures Apart(es[0], x) {
        if x == e {
          assert es[0] in es && Apart(e, es[0]);
        } else {
          var i :| 0 <= i < |es[1..]| && es[1..][i] == x;
          assert Apart(es[0], es[i + 1]);
        }
      }
    }
  }

  lemma {:induction false} SortedKeeps(es: seq<FsEntry>)
    ensures Ranked(Sorted(es))
    ensures forall x :: x in Sorted(es) <==> x in es
    ensures AllApart(es) ==> AllApart(Sorted(es))
  {
    if es != [] {
      SortedKeeps(es[1..]);
      InsertKeeps(es[0], Sorted(es[1..]));
      assert es == [es[0]] + es[1..];
      if AllApart(es) {
        assert AllApart(es[1..]);
        forall x | x in Sorted(es[1..]) ensures Apart(es[0], x) {
          var i :| 0 <= i < |es[1..]| && es[1..][i] == x;
          assert Apart(es[0], es[i + 1]);
        }
        InsertApart(es[0], Sorted(es[1..]));
      }
    }
  }

  lemma {:induction false} ListedMembers(es: seq<FsEntry>)
    ensures forall x :: x in Listed(es) <==> x in es && !IsRoot(x)
  {
    if es != [] {
      ListedMembers(es[..|es| - 1]);
      assert es == es[..|es| - 1] + [es[|es| - 1]];
    }
  }

  lemma {:induction false} ListedRanked(es: seq<FsEntry>)
    requires Ranked(es)
    ensures Ranked(Listed(es))
  {
    if es != [] {
      var init, last := es[..|es| - 1], es[|es| - 1];
      ListedRanked(init);
      ListedMembers(init);
      forall x | x in Listed(init) ensures RankLe(x, last) {
        var i :| 0 <= i < |init| && init[i] == x;
        assert RankLe(es[i], last);
      }
      hide RankLe;
    }
  }

  lemma {:induction false} ListedApart(es: seq<FsEntry>)
    requires AllApart(es)
    ensures AllApart(Listed(es))
  {
    if es != [] {
      var init, last := es[..|es| - 1], es[|es| - 1];
      ListedApart(init);
      ListedMembers(init);
      forall x | x in Listed(init) ensures Apart(x, last) {
        var i :| 0 <= i < |init| && init[i] == x;
        assert Apart(es[i], last);
      }
      hide Apart;
    }
  }

  /** A listed "/" changes nothing. */
  lemma {:induction false} ListedPlan(es: seq<FsEntry>)
    ensures PlanOf(Listed(es)) == PlanOf(es)
  {
    if es != [] {
      var init, last := es[..|es| - 1], es[|es| - 1];
      ListedPlan(init);
      if !IsRoot(last) {
        var l := Listed(es);
        assert l[..|l| - 1] == Listed(init) && l[|l| - 1] == last;
      } else {
        assert Listed(es) == Listed(init);
      }
    }
  }

  // ----- The plan finds every parent -----

  /** What processing relies on: distinct non-root paths, directories and short paths first, and
      no entry inside a file. */
  ghost predicate Orderly(es: seq<FsEntry>) {
    && Ranked(es)
    && (forall i, j :: 0 <= i < j < |es| ==> es[i].path != es[j].path)
    && (forall i :: 0 <= i < |es| ==> es[i].path != ROOT)
    && (forall i, j :: 0 <= i < |es| && 0 <= j < |es| && es[j].File? ==> ParentPath(es[i].path) != es[j].path)
  }

  lemma OrderOrderly(entries: seq<FsEntry>)
    requires Tidy(entries)
    ensures Orderly(Order(entries))
    ensures forall x :: x in Order(entries) <==> x in entries && !IsRoot(x)
  {
    SortedKeeps(entries);
    ListedMembers(Sorted(entries));
    ListedRanked(Sorted(entries));
    ListedApart(Sorted(entries));
    var es := Order(entries);
    assert ParentPath(ROOT) == ROOT;
    forall i | 0 <= i < |es| ensures es[i].path != ROOT {
      assert es[i] in es;
    }
    forall i, j | 0 <= i < j < |es| ensures es[i].path != es[j].path {
      assert es[i] in es && es[j] in es;
    }
    forall i, j | 0 <= i < |es| && 0 <= j < |es| && es[j].File? ensures ParentPath(es[i].path) != es[j].path {
      assert es[i] in es && es[j] in es;
    }
  }

  ghost predicate NodeDescribes(es: seq<FsEntry>, nodes: seq<INode>, k: nat)
    requires 0 < k < |nodes| && k <= |es|
  {
    var x, e := nodes[k], es[k - 1];
    && x.isDir == e.Dir? && x.name == BaseName(e.path) && x.data == Data(e)
    && x.parent < k && PathOf(es, x.parent) == HomePath(es, e.path)
  }

  /** The plan after the first `n` entries. */
  ghost predicate Describes(es: seq<FsEntry>, n: nat, plan: Plan)
    requires n <= |es|
  {
    && |plan.nodes| == n + 1 && plan.nodes[0] == ROOT_NODE
    && (forall k :: 0 < k <= n ==> NodeDescribes(es, plan.nodes, k))
    && (forall p :: p in plan.inodeOf ==> plan.inodeOf[p] <= n && PathOf(es, plan.inodeOf[p]) == p)
    && (forall k :: 0 <= k <= n ==> PathOf(es, k) in plan.inodeOf)
  }

  lemma ParentShorter(path: Path)
    ensures ParentPath(path) == ROOT || |ParentPath(path)| < |path|
  {
  }

  /** A listed parent directory comes before the entry. */
  lemma ParentEarlier(es: seq<FsEntry>, i: nat, n: nat)
    requires Ranked(es) && i < |es| && n < |es| && es[i] == Dir(ParentPath(es[n].path)) && es[i].path != ROOT
    ensures i < n
  {
    ParentShorter(es[n].path);
    hide ParentPath;
    assert !RankLe(es[n], es[i]);
  }

  lemma ParentFound(es: seq<FsEntry>, n: nat, plan: Plan)
    requires Orderly(es) && n < |es| && Describes(es, n, plan)
    ensures var k := ParentInode(plan.inodeOf, es[n].path);
            k <= n && PathOf(es, k) == HomePath(es, es[n].path)
  {
    var p := ParentPath(es[n].path);
    hide ParentPath;
    if Dir(p) in es {
      var i :| 0 <= i < |es| && es[i] == Dir(p);
      ParentEarlier(es, i, n);
      assert PathOf(es, i + 1) == p;
    }
    assert PathOf(es, 0) == ROOT;
  }

  lemma PlaceNodes(es: seq<FsEntry>, n: nat, plan: Plan, k: nat)
    requires n < |es| && |plan.nodes| == n + 1 && !IsRoot(es[n]) && 0 < k <= n + 1
    requires var h := ParentInode(plan.inodeOf, es[n].path); h <= n && PathOf(es, h) == HomePath(es, es[n].path)
    requires k <= n ==> NodeDescribes(es, plan.nodes, k)
    ensures NodeDescribes(es, Place(plan, es[n]).nodes, k)
  {
    hide ParentPath, BaseName, EndBlock, HomePath, ParentInode;
  }

  lemma PlacePaths(es: seq<FsEntry>, n: nat, plan: Plan)
    requires Orderly(es) && n < |es| && Describes(es, n, plan)
    ensures var next := Place(plan, es[n]).inodeOf;
            && (forall p :: p in next ==> next[p] <= n + 1 && PathOf(es, next[p]) == p)
            && (forall k :: 0 <= k <= n + 1 ==> PathOf(es, k) in next)
  {
    hide ParentPath, BaseName, EndBlock, Ranked, HomePath, NodeDescribes;
    assert PathOf(es, n + 1) == es[n].path;
  }

  lemma PlaceDescribes(es: seq<FsEntry>, n: nat, plan: Plan)
    requires Orderly(es) && n < |es| && Describes(es, n, plan)
    ensures Describes(es, n + 1, Place(plan, es[n]))
  {
    ParentFound(es, n, plan);
    PlacePaths(es, n, plan);
    var next := Place(plan, es[n]);
    assert es[n].path != ROOT;
    forall k | 0 < k <= n + 1 ensures NodeDescribes(es, next.nodes, k) {
      PlaceNodes(es, n, plan, k);
    }
    hide Orderly, NodeDescribes, PathOf, EndBlock, NewNode;
  }

  /** The plan of orderly entries has one inode per entry, each under the inode of its home. */
  lemma {:induction false} PlanDescribes(es: seq<FsEntry>, n: nat)
    requires Orderly(es) && n <= |es|
    ensures Describes(es, n, PlanOf(es[..n]))
  {
    if n == 0 {
      assert PathOf(es, 0) == ROOT;
    } else {
      PlanDescribes(es, n - 1);
      assert es[..n][..n - 1] == es[..n - 1];
      PlaceDescribes(es, n - 1, PlanOf(es[..n - 1]));
    }
  }

  ghost predicate AllDescribed(es: seq<FsEntry>, nodes: seq<INode>) {
    && |nodes| == |es| + 1 && nodes[0] == ROOT_NODE
    && forall k :: 0 < k <= |es| ==> NodeDescribes(es, nodes, k)
  }

  lemma PathsInjective(es: seq<FsEntry>, a: nat, b: nat)
    requires Orderly(es) && a <= |es| && b <= |es|
    ensures PathOf(es, a) == PathOf(es, b) <==> a == b
  {
    hide Ranked, ParentPath;
    if 0 < a < b { assert es[a - 1].path != es[b - 1].path; }
    if 0 < b < a { assert es[b - 1].path != es[a - 1].path; }
  }

  lemma {:induction false} DirentsDescribed(es: seq<FsEntry>, nodes: seq<INode>, n: nat, k: nat)
    requires Orderly(es) && AllDescribed(es, nodes) && n <= |nodes| && k < |nodes|
    ensures Dirents(nodes, n, k) == ChildEntries(es, n, PathOf(es, k))
  {
    if n > 1 {
      DirentsDescribed(es, nodes, n - 1, k);
      assert NodeDescribes(es, nodes, n - 1);
      hide Orderly, AllDescribed, HomePath, BaseName, Clip, PathOf;
      PathsInjective(es, nodes[n - 1].parent, k);
    }
  }

  lemma {:induction false} TreeDescribed(es: seq<FsEntry>, nodes: seq<INode>, k: nat, name: seq<Byte>, depth: nat,
                                         fds: map<nat, nat>)
    requires Orderly(es) && AllDescribed(es, nodes) && k < |nodes|
    ensures TreeOf(nodes, k, name, depth, fds) == Described(es, k, name, depth, fds)
    decreases Max(V.MAX_DEPTH - depth, 0), 1, 0
  {
    hide Orderly, AllDescribed, TreeOf, Forest, DescribedAll, Dirents, ChildEntries, PathOf, IsDirAt, Data;
    TreeShape(nodes, k, name, depth, fds);
    DirentsDescribed(es, nodes, |nodes|, k);
    KindDescribed(es, nodes, k);
    DataDescribed(es, nodes, k);
    if nodes[k].isDir && depth < V.MAX_DEPTH {
      ForestDescribed(es, nodes, Dirents(nodes, |nodes|, k), depth, fds);
    }
  }

  lemma {:induction false} ForestDescribed(es: seq<FsEntry>, nodes: seq<INode>, ds: seq<Dirent>, depth: nat,
                                           fds: map<nat, nat>)
    requires Orderly(es) && AllDescribed(es, nodes) && depth < V.MAX_DEPTH
    ensures Forest(nodes, ds, depth, fds) == DescribedAll(es, ds, depth, fds)
    decreases V.MAX_DEPTH - depth, 0, |ds|
  {
    hide Orderly, TreeOf, Described, V.UntilNul;
    if ds != [] {
      ForestDescribed(es, nodes, ds[1..], depth, fds);
      var shown := V.UntilNul(ds[0].name);
      if shown != [] && ds[0].inode < |nodes| {
        TreeDescribed(es, nodes, ds[0].inode, shown, depth + 1, fds);
      }
    }
  }

  lemma PlanShape(entries: seq<FsEntry>)
    requires Tidy(entries)
    ensures Orderly(Order(entries)) && AllDescribed(Order(entries), NodesOf(entries))
  {
    var es := Order(entries);
    OrderOrderly(entries);
    ListedPlan(Sorted(entries));
    hide Orderly, Sorted, PlanOf, Listed, Tidy;
    PlanDescribes(es, |es|);
    assert es[..|es|] == es;
  }

  lemma EntryLimit(entries: seq<FsEntry>, k: nat)
    requires WellFormed(entries) && k <= |Order(entries)| && IsDirAt(Order(entries), k)
    ensures var es := Order(entries); |ChildEntries(es, |es| + 1, PathOf(es, k))| <= DIRENTS_PER_BLOCK
  {
    OrderOrderly(entries);
    if k > 0 { assert Order(entries)[k - 1] in Order(entries); }
    hide Orderly, Order, ChildEntries;
  }

  /** Well-formed entries respect the limits of the format. */
  lemma PlanProper(entries: seq<FsEntry>)
    requires WellFormed(entries)
    ensures Orderly(Order(entries)) && AllDescribed(Order(entries), NodesOf(entries)) && Proper(NodesOf(entries))
  {
    var es, nodes := Order(entries), NodesOf(entries);
    PlanShape(entries);
    assert |nodes| == |es| + 1 <= INODE_COUNT;
    hide Orderly, WellFormed, AllDescribed, InDirectory, Order, NodesOf;
    forall k | 0 < k < |nodes| ensures InDirectory(nodes, k) {
      HomeIsDir(es, nodes, k);
    }
    forall k | 0 <= k < |nodes| && nodes[k].isDir ensures |Dirents(nodes, |nodes|, k)| <= DIRENTS_PER_BLOCK {
      KindDescribed(es, nodes, k);
      DirentsDescribed(es, nodes, |nodes|, k);
      EntryLimit(entries, k);
    }
  }

  lemma DataDescribed(es: seq<FsEntry>, nodes: seq<INode>, k: nat)
    requires AllDescribed(es, nodes) && k < |nodes|
    ensures nodes[k].isDir || (0 < k <= |es| && nodes[k].data == Data(es[k - 1]))
  {
    if k > 0 { assert NodeDescribes(es, nodes, k); }
  }

  lemma KindDescribed(es: seq<FsEntry>, nodes: seq<INode>, k: nat)
    requires AllDescribed(es, nodes) && k < |nodes|
    ensures |nodes| == |es| + 1 && (nodes[k].isDir <==> IsDirAt(es, k))
  {
    if k > 0 { assert NodeDescribes(es, nodes, k); }
  }

  lemma HomeIsDir(es: seq<FsEntry>, nodes: seq<INode>, k: nat)
    requires Orderly(es) && AllDescribed(es, nodes) && 0 < k <= |es|
    ensures k < |nodes| && InDirectory(nodes, k)
  {
    assert NodeDescribes(es, nodes, k);
    var p := nodes[k].parent;
    if p > 0 {
      assert NodeDescribes(es, nodes, p);
      var home := HomePath(es, es[k - 1].path);
      PathsInjective(es, p, 0);
      assert Dir(home) in es;
      var i :| 0 <= i < |es| && es[i] == Dir(home);
      PathsInjective(es, i + 1, p);
    }
  }
}
