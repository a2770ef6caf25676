/**
 The builder does not check that a directory's block has room: the entry after the 113th is written past
 its end, and the inspector reads no more than 113. So the tree comes back exactly when no directory has
 more.
 */
module FsLimit {
  import opened Common
  import opened FsLayout
  import opened FsImage
  import opened FsBuild
  import opened FsDecode
  import opened FsDescribe
  import opened FsRoundTrip
  import opened FsPaths
  import opened GuestPaths
  import opened FsBoot
  import opened FsOnce
  import V = FsView

  // ----- What the inspector can show of a directory with one block -----

  lemma {:induction false} EntriesBound(mem: V.Memory, base: nat, ipa: nat, ent: nat, depth: nat, fds: map<nat, nat>,
                                        budget: nat)
    requires V.BlockAt(mem, ipa, 1) == 0 && depth < V.MAX_DEPTH && ent <= V.DIRENTS_PER_BLOCK
    ensures |V.EntriesFrom(mem, base, ipa, 0, ent, depth, fds, budget).0| <= V.DIRENTS_PER_BLOCK - ent
    decreases V.DIRENTS_PER_BLOCK - ent
  {
    hide V.NodeAt, V.BlockAt, V.ReadName, V.Rd16, V.EntryPa;
    if ent < V.DIRENTS_PER_BLOCK {
      EntriesBound(mem, base, ipa, ent + 1, depth, fds, budget);
      var de := V.EntryPa(base, V.BlockAt(mem, ipa, 0), ent);
      if budget > 0 {
        var left := V.NodeAt(mem, base, V.Rd16(mem, de + 32), V.ReadName(mem, de), depth + 1, fds, budget - 1).1;
        EntriesBound(mem, base, ipa, ent + 1, depth, fds, left);
      }
    }
  }

  lemma ChildrenBound(mem: V.Memory, base: nat, idx: nat, name: seq<Byte>, depth: nat, fds: map<nat, nat>, budget: nat)
    requires V.BlockAt(mem, V.InodePa(base, idx), 1) == 0
    ensures |V.NodeAt(mem, base, idx, name, depth, fds, budget).0.children| <= V.DIRENTS_PER_BLOCK
  {
    hide V.EntriesFrom, V.BlockAt, V.Rd16, V.Rd32;
    if depth < V.MAX_DEPTH { EntriesBound(mem, base, V.InodePa(base, idx), 0, depth, fds, budget); }
  }

  /** The node is what the walk decodes for its inode, somewhere. */
  ghost predicate Decoded(mem: V.Memory, base: nat, fds: map<nat, nat>, node: V.FsNode) {
    exists name: seq<Byte>, depth: nat, budget: nat ::
      node == V.NodeAt(mem, base, node.inode, name, depth, fds, budget).0
  }

  ghost predicate AllDecoded(mem: V.Memory, base: nat, fds: map<nat, nat>, nodes: seq<V.FsNode>) {
    forall i :: 0 <= i < |nodes| ==> Decoded(mem, base, fds, nodes[i])
  }

  lemma NodeDecoded(mem: V.Memory, base: nat, idx: nat, name: seq<Byte>, depth: nat, fds: map<nat, nat>, budget: nat)
    ensures var node := V.NodeAt(mem, base, idx, name, depth, fds, budget).0;
            node.inode == idx && Decoded(mem, base, fds, node)
  {
    hide V.EntriesFrom, V.Rd16, V.Rd32;
  }

  lemma {:induction false} EntriesDecoded(mem: V.Memory, base: nat, ipa: nat, slot: nat, ent: nat, depth: nat,
                                          fds: map<nat, nat>, budget: nat)
    requires depth < V.MAX_DEPTH && slot <= V.INODE_BLOCKS && ent <= V.DIRENTS_PER_BLOCK
    ensures AllDecoded(mem, base, fds, V.EntriesFrom(mem, base, ipa, slot, ent, depth, fds, budget).0)
    decreases V.INODE_BLOCKS - slot, V.DIRENTS_PER_BLOCK - ent
  {
    hide V.NodeAt, V.BlockAt, V.ReadName, V.Rd16, V.EntryPa, Decoded;
    if slot < V.INODE_BLOCKS {
      if ent == V.DIRENTS_PER_BLOCK {
        EntriesDecoded(mem, base, ipa, slot + 1, 0, depth, fds, budget);
      } else {
        EntriesDecoded(mem, base, ipa, slot, ent + 1, depth, fds, budget);
        var de := V.EntryPa(base, V.BlockAt(mem, ipa, slot), ent);
        if budget > 0 {
          NodeDecoded(mem, base, V.Rd16(mem, de + 32), V.ReadName(mem, de), depth + 1, fds, budget - 1);
          var left := V.NodeAt(mem, base, V.Rd16(mem, de + 32), V.ReadName(mem, de), depth + 1, fds, budget - 1).1;
          EntriesDecoded(mem, base, ipa, slot, ent + 1, depth, fds, left);
        }
      }
    }
  }

  lemma ChildrenDecoded(mem: V.Memory, base: nat, fds: map<nat, nat>, node: V.FsNode)
    requires Decoded(mem, base, fds, node)
    ensures AllDecoded(mem, base, fds, node.children)
  {
    var name: seq<Byte>, depth: nat, budget: nat :| node == V.NodeAt(mem, base, node.inode, name, depth, fds, budget).0;
    hide V.EntriesFrom, V.Rd16, V.Rd32, Decoded;
    if depth < V.MAX_DEPTH { EntriesDecoded(mem, base, V.InodePa(base, node.inode), 0, 0, depth, fds, budget); }
  }

  lemma {:induction false} NamedDecoded(mem: V.Memory, base: nat, fds: map<nat, nat>, forest: seq<V.FsNode>,
                                        name: seq<Byte>)
    requires AllDecoded(mem, base, fds, forest) && ChildNamed(forest, name).Some?
    ensures Decoded(mem, base, fds, ChildNamed(forest, name).value)
  {
    hide Decoded;
    if forest[0].name != name { NamedDecoded(mem, base, fds, forest[1..], name); }
  }

  /** Whatever a path leads to in a decoded tree was decoded. */
  lemma {:induction false} FoundDecoded(mem: V.Memory, base: nat, fds: map<nat, nat>, root: V.FsNode, path: Path)
    requires Decoded(mem, base, fds, root) && Resolve(root, path).Some?
    ensures Decoded(mem, base, fds, Resolve(root, path).value)
    decreases |path|
  {
    if path != ROOT {
      var p := ParentPath(path);
      ParentShorter(path);
      hide Decoded, ParentPath, BaseName;
      if p != ROOT { FoundDecoded(mem, base, fds, root, p); }
      var dir := if p == ROOT then root else Resolve(root, p).value;
      ChildrenDecoded(mem, base, fds, dir);
      NamedDecoded(mem, base, fds, dir.children, BaseName(path));
    }
  }

  // ----- What is described of an overfull directory -----

  lemma {:induction false} DescribedCount(es: seq<FsEntry>, p: Path, ds: seq<Dirent>, depth: nat, fds: map<nat, nat>)
    requires Closed(es) && EntriesIn(es, p, ds) && depth < V.MAX_DEPTH
    ensures |DescribedAll(es, ds, depth, fds)| == |ds|
    decreases |ds|
  {
    hide *;
    if ds == [] {
      NoneDescribed(es, depth, fds);
    } else {
      EntriesTail(es, p, ds);
      HeadEntry(es, p, ds, depth, fds);
      DescribedCount(es, p, ds[1..], depth, fds);
    }
  }

  lemma NoneDescribed(es: seq<FsEntry>, depth: nat, fds: map<nat, nat>)
    requires depth < V.MAX_DEPTH
    ensures DescribedAll(es, [], depth, fds) == []
  {
  }

  lemma EntriesTail(es: seq<FsEntry>, p: Path, ds: seq<Dirent>)
    requires EntriesIn(es, p, ds) && ds != []
    ensures EntriesIn(es, p, ds[1..])
  {
    hide HomePath, Clip, BaseName;
  }

  /** The inode of a directory with entries, above the inspector's depth limit. */
  lemma DirectoryInode(entries: seq<FsEntry>, p: Path) returns (k: nat)
    requires Tidy(entries) && ParentsListed(entries) && PlainPaths(entries) && Shallow(entries)
    requires ChildEntries(Order(entries), |Order(entries)| + 1, p) != []
    ensures var es := Order(entries);
            && Orderly(es) && Closed(es) && k <= |es| && IsDirAt(es, k) && PathOf(es, k) == p && (k == 0 <==> p == ROOT)
            && Depth(p) < V.MAX_DEPTH && EntriesIn(es, p, ChildEntries(es, |es| + 1, p))
  {
    var es := Order(entries);
    OrderClosed(entries);
    var c := FirstChild(es, p);
    assert es[c - 1] in es && Depth(es[c - 1].path) <= V.MAX_DEPTH;
    assert Depth(ROOT) == 0;
    hide *;
    k := HomeInode(es, c);
    ResolveStep(Described(es, 0, ROOT, 0, map[]), es[c - 1].path);
    var n := EntryListed(es, p, c);
    assert PathOf(es, 0) == ROOT by { RootPath(es); }
  }

  lemma RootPath(es: seq<FsEntry>)
    ensures PathOf(es, 0) == ROOT
  {
  }

  lemma FirstChild(es: seq<FsEntry>, p: Path) returns (c: nat)
    requires ChildEntries(es, |es| + 1, p) != []
    ensures 0 < c <= |es| && HomePath(es, es[c - 1].path) == p
  {
    var ds := ChildEntries(es, |es| + 1, p);
    hide HomePath, Clip, BaseName, ChildEntries;
    ChildEntriesSound(es, |es| + 1, p, ds[0]);
    assert ds[0] in ds;
    c := ds[0].inode;
  }

  /** The described node of a directory with entries has a child for each of them. */
  lemma DirectoryNode(entries: seq<FsEntry>, p: Path, fds: map<nat, nat>) returns (k: nat)
    requires Tidy(entries) && ParentsListed(entries) && PlainPaths(entries) && Shallow(entries)
    requires ChildEntries(Order(entries), |Order(entries)| + 1, p) != []
    ensures k <= |Order(entries)| && IsDirAt(Order(entries), k)
    ensures var node := Resolve(Described(Order(entries), 0, ROOT, 0, fds), p);
            && node.Some? && node.value.inode == k
            && |node.value.children| == |ChildEntries(Order(entries), |Order(entries)| + 1, p)|
  {
    hide *;
    var es := Order(entries);
    k := DirectoryInode(entries, p);
    DescribedCount(es, p, ChildEntries(es, |es| + 1, p), Depth(p), fds);
    if k == 0 {
      RootResolves(es, fds);
      NodeChildren(es, 0, ROOT, 0, fds);
    } else {
      LeadsTo(es, k, p, fds);
      NodeChildren(es, k, BaseName(p), Depth(p), fds);
    }
  }

  lemma LeadsTo(es: seq<FsEntry>, k: nat, p: Path, fds: map<nat, nat>)
    requires Orderly(es) && Closed(es) && 0 < k <= |es| && PathOf(es, k) == p && Depth(p) <= V.MAX_DEPTH
    ensures Resolve(Described(es, 0, ROOT, 0, fds), p) == Some(Described(es, k, BaseName(p), Depth(p), fds))
  {
    hide Orderly, Closed, Described, Resolve, Depth, BaseName;
    PathResolves(es, k, fds);
  }

  lemma RootResolves(es: seq<FsEntry>, fds: map<nat, nat>)
    ensures Depth(ROOT) == 0
    ensures Resolve(Described(es, 0, ROOT, 0, fds), ROOT) == Some(Described(es, 0, ROOT, 0, fds))
  {
    hide Described;
  }

  lemma NodeChildren(es: seq<FsEntry>, k: nat, name: seq<Byte>, depth: nat, fds: map<nat, nat>)
    requires k <= |es| && IsDirAt(es, k) && depth < V.MAX_DEPTH
    ensures var node := Described(es, k, name, depth, fds);
            node.inode == k && node.children == DescribedAll(es, ChildEntries(es, |es| + 1, PathOf(es, k)), depth, fds)
  {
    hide DescribedAll, ChildEntries;
  }

  // ----- The limit is exact -----

  lemma OneBlock(entries: seq<FsEntry>, img: seq<Byte>, mem: V.Memory, base: nat, k: nat)
    requires Tidy(entries) && Pointers(img, NodesOf(entries)) && Loaded(mem, base, img)
    requires k <= |Order(entries)| && IsDirAt(Order(entries), k)
    ensures V.BlockAt(mem, V.InodePa(base, k), 1) == 0
  {
    var nodes := NodesOf(entries);
    hide Tidy, NodesOf, Order, Orderly, AllDescribed, Loaded;
    PlanShape(entries);
    ShapeSize(Order(entries), nodes);
    KindDescribed(Order(entries), nodes, k);
    assert PointsAt(img, k, nodes[k]);
    ReadsU16(mem, base, img, InodeOffset(k) + 42);
  }

  lemma ShapeSize(es: seq<FsEntry>, nodes: seq<INode>)
    requires AllDescribed(es, nodes)
    ensures |nodes| == |es| + 1
  {
  }

  lemma DecodedBound(mem: V.Memory, base: nat, fds: map<nat, nat>, node: V.FsNode)
    requires Decoded(mem, base, fds, node) && V.BlockAt(mem, V.InodePa(base, node.inode), 1) == 0
    ensures |node.children| <= V.DIRENTS_PER_BLOCK
  {
    hide V.NodeAt, V.BlockAt;
    var name: seq<Byte>, depth: nat, budget: nat :| node == V.NodeAt(mem, base, node.inode, name, depth, fds, budget).0;
    ChildrenBound(mem, base, node.inode, name, depth, fds, budget);
  }

  /** Absolute, plain paths with listed parents, no deeper than the inspector looks. */
  ghost predicate Showable(entries: seq<FsEntry>) {
    Tidy(entries) && ParentsListed(entries) && PlainPaths(entries) && Shallow(entries)
  }

  /** With an overfull directory the walk does not decode the described tree, whatever the image holds
      beside its block pointers. */
  lemma LimitNeeded(entries: seq<FsEntry>, img: seq<Byte>, mem: V.Memory, base: nat, fds: map<nat, nat>)
    requires Showable(entries) && !Roomy(entries) && Pointers(img, NodesOf(entries)) && Loaded(mem, base, img)
    ensures V.NodeAt(mem, base, 0, ROOT, 0, fds, V.MAX_NODES).0 != Described(Order(entries), 0, ROOT, 0, fds)
  {
    var p :| (p == ROOT || Dir(p) in entries) && !HasRoom(entries, p);
    var root := V.NodeAt(mem, base, 0, ROOT, 0, fds, V.MAX_NODES).0;
    hide Tidy, ParentsListed, PlainPaths, Shallow, Pointers, Loaded, Order, Described, Resolve, V.NodeAt, V.BlockAt,
         Decoded, ChildEntries;
    if root == Described(Order(entries), 0, ROOT, 0, fds) {
      var k := DirectoryNode(entries, p, fds);
      OneBlock(entries, img, mem, base, k);
      NodeDecoded(mem, base, 0, ROOT, 0, fds, V.MAX_NODES);
      FoundDecoded(mem, base, fds, root, p);
      DecodedBound(mem, base, fds, Resolve(root, p).value);
      assert false;
    }
  }

  /** Build, mount and inspect: the described tree comes back exactly when the entries fit and no directory
      has more than 113. */
  method InspectExact(entries: seq<FsEntry>, before: V.Memory, base: nat, fds: map<nat, nat>)
    returns (root: Option<V.FsNode>)
    requires base != 0
    ensures Showable(entries) ==>
              (root == Some(Described(Order(entries), 0, ROOT, 0, fds)) <==> Fits(entries) && Roomy(entries))
  {
    assert Showable(entries) ==> Tidy(entries) && (WellFormed(entries) <==> Roomy(entries));
    hide *;
    ghost var img;
    root, img := BuildAndInspect(entries, before, base, fds);
    if Showable(entries) && !Roomy(entries) && root.Some? {
      MountLoads(before, base, img);
      LimitNeeded(entries, img, Mount(before, base, img), base, fds);
    }
  }

  // ----- One file too many -----

  /** The file "/aa", "/ab", ... with number `i`, empty. */
  function Letter(i: nat): FsEntry
    requires i < 676
  {
    File([SLASH, 97 + i / 26, 97 + i % 26], [])
  }

  function Letters(n: nat): (es: seq<FsEntry>)
    requires n <= 676
    ensures |es| == n && forall i :: 0 <= i < n ==> es[i] == Letter(i)
  {
    seq(n, i requires 0 <= i < n => Letter(i))
  }

  /** An empty file at the top, with a plain name. */
  ghost predicate Top(e: FsEntry) {
    && e.File? && e.data == [] && Absolute(e.path) && e.path != ROOT
    && ParentPath(e.path) == ROOT && Plain(BaseName(e.path)) && Depth(e.path) == 1
  }

  ghost predicate AllTop(es: seq<FsEntry>) {
    forall e :: e in es ==> Top(e)
  }

  lemma LetterTop(i: nat)
    requires i < 676
    ensures Top(Letter(i))
  {
    var path := Letter(i).path;
    assert path[0] == SLASH && path[1] != SLASH && path[2] != SLASH;
    assert LastSlash(path) == 0;
    assert BaseName(path) == [97 + i / 26, 97 + i % 26];
  }

  lemma {:induction false} TopCost(es: seq<FsEntry>)
    requires AllTop(es)
    ensures TotalCost(es) == |es|
  {
    hide Top;
    if es != [] {
      assert es[0] in es && Top(es[0]);
      TopOne(es[0]);
      TopCost(es[1..]);
    }
  }

  lemma TopOne(e: FsEntry)
    requires Top(e)
    ensures Cost(e) == 1 && !IsRoot(e) && e.File?
  {
    hide ParentPath, BaseName, Absolute, Plain, Depth;
  }

  lemma {:induction false} TopListed(es: seq<FsEntry>)
    requires AllTop(es)
    ensures Listed(es) == es
  {
    hide Top, IsRoot;
    if es != [] {
      var init, last := es[..|es| - 1], es[|es| - 1];
      assert last in es && forall e :: e in init ==> e in es;
      TopOne(last);
      TopListed(init);
      ListedSnoc(es);
      hide Listed, AllTop;
      assert es == init + [last];
    }
  }

  lemma {:induction false} ListedSnoc(es: seq<FsEntry>)
    requires es != [] && !IsRoot(es[|es| - 1])
    ensures Listed(es) == Listed(es[..|es| - 1]) + [es[|es| - 1]]
  {
  }

  lemma {:induction false} TopChildren(es: seq<FsEntry>, n: nat)
    requires AllTop(es) && 1 <= n <= |es| + 1
    ensures |ChildEntries(es, n, ROOT)| == n - 1
  {
    if n > 1 {
      OneChild(es, n);
      hide ChildEntries, Top, AllTop;
      TopChildren(es, n - 1);
    } else {
      hide AllTop;
    }
  }

  lemma OneChild(es: seq<FsEntry>, n: nat)
    requires AllTop(es) && 1 < n <= |es| + 1
    ensures |ChildEntries(es, n, ROOT)| == |ChildEntries(es, n - 1, ROOT)| + 1
  {
    var path := es[n - 2].path;
    assert es[n - 2] in es && Top(es[n - 2]);
    assert HomePath(es, path) == ROOT;
    hide AllTop, Top, HomePath, Clip, BaseName;
  }

  lemma TopOrder(es: seq<FsEntry>)
    requires AllTop(es)
    ensures |Order(es)| == |es| && |ChildEntries(Order(es), |es| + 1, ROOT)| == |es|
  {
    hide Top, ChildEntries, Listed;
    SortedCounts(es);
    assert |Sorted(es)| == |multiset(Sorted(es))| == |multiset(es)| == |es|;
    forall e | e in Sorted(es) ensures Top(e) { assert e in multiset(es); }
    TopListed(Sorted(es));
    TopChildren(Sorted(es), |es| + 1);
  }

  lemma TopRoomy(es: seq<FsEntry>)
    requires AllTop(es)
    ensures Roomy(es) <==> |es| <= DIRENTS_PER_BLOCK
  {
    TopOrder(es);
    assert forall e :: e in es ==> e.File?;
    hide Order, ChildEntries, Top;
    assert HasRoom(es, ROOT) <==> |es| <= DIRENTS_PER_BLOCK;
  }

  lemma TopTidy(es: seq<FsEntry>)
    requires AllTop(es) && |es| < INODE_COUNT && forall i, j :: 0 <= i < j < |es| ==> es[i].path != es[j].path
    ensures Tidy(es)
  {
    TopOrder(es);
    assert forall e :: e in es ==> ParentPath(e.path) == ROOT != e.path;
    hide Order, Top, ParentPath;
  }

  lemma TopShowable(es: seq<FsEntry>)
    requires AllTop(es) && |es| < INODE_COUNT && forall i, j :: 0 <= i < j < |es| ==> es[i].path != es[j].path
    ensures Showable(es)
  {
    TopTidy(es);
    hide Tidy, ParentPath, BaseName, Absolute, Plain, Depth;
  }

  lemma TopFits(es: seq<FsEntry>)
    requires AllTop(es) && |es| < INODE_COUNT
    ensures Fits(es)
  {
    TopCost(es);
    hide Top, Cost;
    forall i | 0 <= i < |es| ensures Cost(es[i]) <= MAX_DIRECT_BLOCKS {
      assert es[i] in es && Top(es[i]);
      TopOne(es[i]);
    }
  }

  /** Up to 255 empty files at the top fit, and are all shown exactly when there are at most 113 of them:
      114 such files are not. */
  lemma LettersExact(n: nat)
    requires n < INODE_COUNT
    ensures Showable(Letters(n)) && Fits(Letters(n)) && (Roomy(Letters(n)) <==> n <= DIRENTS_PER_BLOCK)
  {
    var es := Letters(n);
    forall e | e in es ensures Top(e) {
      var i :| 0 <= i < n && es[i] == e;
      LetterTop(i);
    }
    forall i, j | 0 <= i < j < |es| ensures es[i].path != es[j].path {
      LettersApart(i, j);
    }
    hide Top, Showable, Fits, Roomy;
    TopShowable(es);
    TopRoomy(es);
    TopFits(es);
  }

  lemma LettersApart(i: nat, j: nat)
    requires i < j < 676
    ensures Letter(i).path != Letter(j).path
  {
    assert Letter(i).path[1] == 97 + i / 26 && Letter(i).path[2] == 97 + i % 26;
    assert Letter(j).path[1] == 97 + j / 26 && Letter(j).path[2] == 97 + j % 26;
  }
}
