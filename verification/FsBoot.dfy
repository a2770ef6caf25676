/**
 From collected entries to paths in the inspector: every installed program and mounted file is found in
 the shown tree by following its guest path.
 */
module FsBoot {
  import opened Common
  import opened FsLayout
  import opened FsImage
  import opened FsDecode
  import opened FsDescribe
  import opened FsRoundTrip
  import opened FsPaths
  import opened GuestPaths
  import V = FsView

  /** Paths without empty components, whose last component is stored and shown unchanged. */
  ghost predicate PlainPaths(entries: seq<FsEntry>) {
    forall e :: e in entries && !IsRoot(e) ==> Absolute(e.path) && Plain(BaseName(e.path))
  }

  /** The node is the entry's: its name, its kind and, for a file, its size. */
  ghost predicate Shows(node: V.FsNode, e: FsEntry) {
    node.name == BaseName(e.path) && node.isDir == e.Dir? && (e.File? ==> node.size == |e.data|)
  }

  /** Following the path from the root leads to the entry's node. */
  ghost predicate Found(root: V.FsNode, e: FsEntry) {
    var node := Resolve(root, e.path);
    node.Some? && Shows(node.value, e)
  }

  /** Reading the blocks of the node found gives the file's bytes. */
  ghost predicate Readable(root: V.FsNode, mem: V.Memory, base: nat, e: FsEntry) {
    var node := Resolve(root, e.path);
    e.File? ==> node.Some? && FileIs(mem, base, node.value.inode, e.data)
  }

  lemma OrderClosed(entries: seq<FsEntry>)
    requires Tidy(entries) && ParentsListed(entries) && PlainPaths(entries)
    ensures Orderly(Order(entries)) && Closed(Order(entries))
    ensures forall e :: e in Order(entries) <==> e in entries && !IsRoot(e)
  {
    OrderOrderly(entries);
    var es := Order(entries);
    hide Tidy, Orderly, Order, ParentPath, BaseName, Absolute, Plain;
    forall i | 0 <= i < |es|
      ensures Absolute(es[i].path) && Plain(BaseName(es[i].path))
      ensures ParentPath(es[i].path) == ROOT || Dir(ParentPath(es[i].path)) in es
    {
      assert es[i] in es;
      if ParentPath(es[i].path) != ROOT { assert !IsRoot(Dir(ParentPath(es[i].path))); }
    }
  }

  lemma DescribedShows(es: seq<FsEntry>, k: nat, depth: nat, fds: map<nat, nat>)
    requires 0 < k <= |es|
    ensures var node := Described(es, k, BaseName(es[k - 1].path), depth, fds);
            node.inode == k && Shows(node, es[k - 1])
  {
    hide BaseName;
  }

  /** The inode to which a listed path no deeper than the inspector's limit leads in the described tree. */
  lemma EntryNode(entries: seq<FsEntry>, e: FsEntry, fds: map<nat, nat>) returns (k: nat)
    requires Tidy(entries) && ParentsListed(entries) && PlainPaths(entries)
    requires e in entries && !IsRoot(e) && Depth(e.path) <= V.MAX_DEPTH
    ensures 0 < k <= |Order(entries)| && Order(entries)[k - 1] == e
    ensures var node := Resolve(Described(Order(entries), 0, ROOT, 0, fds), e.path);
            node.Some? && node.value.inode == k && Shows(node.value, e)
  {
    hide Tidy, ParentsListed, PlainPaths, Orderly, Closed, Order, Described, Resolve, Depth, BaseName, Shows;
    var es := Order(entries);
    OrderClosed(entries);
    var i :| 0 <= i < |es| && es[i] == e;
    k := i + 1;
    PathResolves(es, k, fds);
    DescribedShows(es, k, Depth(e.path), fds);
  }

  /** Every entry down to the depth limit is found. */
  ghost predicate AllFound(root: V.FsNode, entries: seq<FsEntry>) {
    forall e :: e in entries && !IsRoot(e) && Depth(e.path) <= V.MAX_DEPTH ==> Found(root, e)
  }

  /** Decoding an image of well-formed entries with listed parents and plain paths, following a listed path
      leads to its entry, and reading the node found gives the file. */
  lemma PathShown(entries: seq<FsEntry>, img: seq<Byte>, mem: V.Memory, base: nat, fds: map<nat, nat>, e: FsEntry)
    requires WellFormed(entries) && ParentsListed(entries) && PlainPaths(entries)
    requires ImageOf(img, entries) && Loaded(mem, base, img)
    requires e in entries && !IsRoot(e) && Depth(e.path) <= V.MAX_DEPTH
    ensures var root := V.NodeAt(mem, base, 0, ROOT, 0, fds, V.MAX_NODES).0;
            Found(root, e) && Readable(root, mem, base, e)
  {
    assert Tidy(entries);
    hide Tidy, WellFormed, ParentsListed, PlainPaths, ImageOf, Loaded, Described, Order, V.NodeAt, Depth, Resolve,
         Shows, FileIs;
    TreeRoundTrip(entries, img, mem, base, fds);
    var k := EntryNode(entries, e, fds);
    if e.File? { FilesRoundTrip(entries, img, mem, base, k); }
  }

  /** Collect, build, mount and inspect: when the collected entries are well-formed with plain paths and
      fit, each of them is found under its path. */
  method Boot(programs: seq<Program>, mounts: seq<(Host, Path)>, before: V.Memory, base: nat, fds: map<nat, nat>)
    returns (entries: Option<seq<FsEntry>>, root: Option<V.FsNode>)
    requires base != 0
    ensures entries.Some? <==> Everything(programs, mounts).Some?
    ensures entries.Some? ==> Lists(entries.value, Everything(programs, mounts).value)
    ensures entries.Some? && WellFormed(entries.value) && PlainPaths(entries.value) && Fits(entries.value) ==>
              root.Some? && AllFound(root.value, entries.value)
  {
    hide *;
    entries := KernelFsEntries(programs, mounts);
    root := None;
    if entries.Some? {
      ghost var img;
      root, img := BuildAndInspect(entries.value, before, base, fds);
      if WellFormed(entries.value) && PlainPaths(entries.value) && Fits(entries.value) {
        WellFormedTidy(entries.value);
        DescribedFound(entries.value, fds);
      }
    }
  }

  lemma WellFormedTidy(entries: seq<FsEntry>)
    ensures WellFormed(entries) ==> Tidy(entries)
  {
  }

  lemma DescribedFound(entries: seq<FsEntry>, fds: map<nat, nat>)
    requires Tidy(entries) && ParentsListed(entries) && PlainPaths(entries)
    ensures AllFound(Described(Order(entries), 0, ROOT, 0, fds), entries)
  {
    hide Tidy, ParentsListed, PlainPaths, Described, Order, Depth, Resolve, Shows;
    forall e | e in entries && !IsRoot(e) && Depth(e.path) <= V.MAX_DEPTH
      ensures Found(Described(Order(entries), 0, ROOT, 0, fds), e)
    {
      var k := EntryNode(entries, e, fds);
    }
  }
}
