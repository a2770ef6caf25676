/**
 What the inspector decodes from an image that holds a list of inodes: exactly the tree those
 inodes describe, and the bytes of every file.
 */
module FsDecode {
  import opened Common
  import opened FsLayout
  import V = FsView

  ghost predicate Loaded(mem: V.Memory, base: nat, img: seq<Byte>) {
    forall i :: 0 <= i < |img| ==> mem(base + i) == img[i]
  }

  /** The image holds `nodes`, all entered in their directories. */
  ghost predicate Stored(img: seq<Byte>, nodes: seq<INode>) {
    && |nodes| <= INODE_COUNT && Ordered(nodes) && Proper(nodes)
    && forall k :: 0 <= k < |nodes| ==> NodeOk(img, nodes, |nodes|, k)
  }

  // ----- The described tree -----

  /** Inode `k` with the entries below it, down to the inspector's depth limit. */
  function TreeOf(nodes: seq<INode>, k: nat, name: seq<Byte>, depth: nat, fds: map<nat, nat>): V.FsNode
    requires k < |nodes|
    decreases Max(V.MAX_DEPTH - depth, 0), 1, 0
  {
    var size := SizeOf(nodes, |nodes|, k);
    if !nodes[k].isDir || depth >= V.MAX_DEPTH then V.FsNode(k, name, nodes[k].isDir, size, V.OpenCount(fds, k), [])
    else V.FsNode(k, name, true, size, V.OpenCount(fds, k), Forest(nodes, Dirents(nodes, |nodes|, k), depth, fds))
  }

  /** The entries `ds` of a directory at `depth`; an entry whose stored name is empty does not show. */
  function Forest(nodes: seq<INode>, ds: seq<Dirent>, depth: nat, fds: map<nat, nat>): seq<V.FsNode>
    requires depth < V.MAX_DEPTH
    decreases V.MAX_DEPTH - depth, 0, |ds|
  {
    if ds == [] then []
    else if V.UntilNul(ds[0].name) == [] || ds[0].inode >= |nodes| then Forest(nodes, ds[1..], depth, fds)
    else [TreeOf(nodes, ds[0].inode, V.UntilNul(ds[0].name), depth + 1, fds)] + Forest(nodes, ds[1..], depth, fds)
  }

  function Size(node: V.FsNode): nat {
    1 + SizeAll(node.children)
  }

  function SizeAll(forest: seq<V.FsNode>): nat {
    if forest == [] then 0 else Size(forest[0]) + SizeAll(forest[1..])
  }

  // ----- Reading fields back -----

  lemma ReadsU16(mem: V.Memory, base: nat, img: seq<Byte>, o: nat)
    requires Loaded(mem, base, img) && o + 2 <= |img|
    ensures V.Rd16(mem, base + o) == U16(img, o)
  {
    assert mem(base + o) == img[o] && mem(base + (o + 1)) == img[o + 1];
  }

  lemma ReadsU32(mem: V.Memory, base: nat, img: seq<Byte>, o: nat)
    requires Loaded(mem, base, img) && o + 4 <= |img|
    ensures V.Rd32(mem, base + o) == U32(img, o)
  {
    assert mem(base + o) == img[o] && mem(base + (o + 1)) == img[o + 1];
    assert mem(base + (o + 2)) == img[o + 2] && mem(base + (o + 3)) == img[o + 3];
  }

  lemma {:induction false} NulEndsName(raw: seq<Byte>, rest: seq<Byte>)
    ensures V.UntilNul(raw + [0] + rest) == V.UntilNul(raw)
  {
    if raw == [] {
      assert (raw + [0] + rest)[0] == 0;
    } else {
      assert (raw + [0] + rest)[1..] == raw[1..] + [0] + rest;
      NulEndsName(raw[1..], rest);
    }
  }

  lemma ReadsName(mem: V.Memory, base: nat, img: seq<Byte>, o: nat, raw: seq<Byte>)
    requires Loaded(mem, base, img) && NameField(img, o, raw)
    ensures V.ReadName(mem, base + o) == V.UntilNul(raw)
  {
    var bytes := V.Peek(mem, base + o, V.NAME_LEN);
    forall i | 0 <= i < 32 ensures bytes[i] == img[o + i] {
      assert mem(base + (o + i)) == img[o + i];
    }
    assert bytes == raw + [0] + bytes[|raw| + 1..];
    NulEndsName(raw, bytes[|raw| + 1..]);
  }

  lemma ReadsEntry(mem: V.Memory, base: nat, img: seq<Byte>, start: nat, e: nat, d: Dirent)
    requires Loaded(mem, base, img) && DirentOk(img, start, e, d)
    ensures V.ReadName(mem, V.EntryPa(base, start, e)) == V.UntilNul(d.name)
    ensures V.Rd16(mem, V.EntryPa(base, start, e) + 32) == d.inode
  {
    var o := BlockOffset(start) + 36 * e;
    assert V.EntryPa(base, start, e) == base + o;
    ReadsName(mem, base, img, o, d.name);
    ReadsU16(mem, base, img, o + 32);
  }

  lemma ReadsFree(mem: V.Memory, base: nat, img: seq<Byte>, start: nat, e: nat)
    requires Loaded(mem, base, img) && DirentFree(img, start, e)
    ensures V.ReadName(mem, V.EntryPa(base, start, e)) == []
  {
    var o := BlockOffset(start) + 36 * e;
    assert mem(base + o) == img[o] == 0;
  }

  lemma ReadsSlot(mem: V.Memory, base: nat, img: seq<Byte>, k: nat, j: nat)
    requires Loaded(mem, base, img) && InodeOffset(k) + 128 <= |img| && j < MAX_DIRECT_BLOCKS
    ensures V.BlockAt(mem, V.InodePa(base, k), j) == Slot(img, k, j)
  {
    ReadsU16(mem, base, img, InodeOffset(k) + 40 + 2 * j);
  }

  /** The fields of inode `k` as the inspector reads them. */
  lemma ReadsRecord(mem: V.Memory, base: nat, img: seq<Byte>, k: nat, node: INode, size: nat)
    requires Loaded(mem, base, img) && RecordOk(img, k, node, size)
    ensures V.Rd16(mem, V.InodePa(base, k)) % 256 == (if node.isDir then 2 else 1)
    ensures V.Rd32(mem, V.InodePa(base, k) + 4) == size
    ensures forall j :: 0 <= j < MAX_DIRECT_BLOCKS ==>
              V.BlockAt(mem, V.InodePa(base, k), j) == if j < Blocks(node) then node.start + j else 0
  {
    ReadsU16(mem, base, img, InodeOffset(k));
    ReadsU32(mem, base, img, InodeOffset(k) + 4);
    hide Loaded, Slot, V.BlockAt, V.Rd16, V.Rd32, NameField, Blocks;
    forall j | 0 <= j < MAX_DIRECT_BLOCKS
      ensures V.BlockAt(mem, V.InodePa(base, k), j) == if j < Blocks(node) then node.start + j else 0
    {
      ReadsSlot(mem, base, img, k, j);
    }
  }

  // ----- The walk -----

  lemma {:induction false} SizeAllCons(t: V.FsNode, rest: seq<V.FsNode>)
    ensures SizeAll([t] + rest) == Size(t) + SizeAll(rest)
  {
    assert ([t] + rest)[1..] == rest;
  }

  /** The walk of inode `k` yields its tree and charges one unit of budget per node below it. */
  ghost predicate Decodes(mem: V.Memory, base: nat, nodes: seq<INode>, k: nat, name: seq<Byte>, depth: nat,
                          fds: map<nat, nat>, budget: nat)
    requires k < |nodes|
  {
    var tree := TreeOf(nodes, k, name, depth, fds);
    budget >= SizeAll(tree.children) ==>
      V.NodeAt(mem, base, k, name, depth, fds, budget) == (tree, budget - SizeAll(tree.children))
  }

  lemma DecodesMeans(mem: V.Memory, base: nat, nodes: seq<INode>, k: nat, name: seq<Byte>, depth: nat,
                     fds: map<nat, nat>, budget: nat)
    requires k < |nodes| && Decodes(mem, base, nodes, k, name, depth, fds, budget)
    requires budget >= SizeAll(TreeOf(nodes, k, name, depth, fds).children)
    ensures V.NodeAt(mem, base, k, name, depth, fds, budget).0 == TreeOf(nodes, k, name, depth, fds)
  {
    hide V.NodeAt, TreeOf;
  }

  lemma {:induction false} NodeDecodes(mem: V.Memory, base: nat, img: seq<Byte>, nodes: seq<INode>, k: nat,
                                       name: seq<Byte>, depth: nat, fds: map<nat, nat>, budget: nat)
    requires Loaded(mem, base, img) && Stored(img, nodes) && k < |nodes|
    ensures Decodes(mem, base, nodes, k, name, depth, fds, budget)
    decreases Max(V.MAX_DEPTH - depth, 0), 1, 0
  {
    RecordReads(mem, base, img, nodes, k);
    assert depth < V.MAX_DEPTH ==> Max(V.MAX_DEPTH - depth, 0) == V.MAX_DEPTH - depth;
    hide *;
    if !nodes[k].isDir || depth >= V.MAX_DEPTH {
      LeafDecodes(mem, base, nodes, k, name, depth, fds, budget);
    } else {
      var ds := Dirents(nodes, |nodes|, k);
      EntriesRead(mem, base, img, nodes, k);
      EntriesDecode(mem, base, img, nodes, k, ds, 0, depth, fds, budget);
      DirDecodes(mem, base, nodes, k, name, depth, fds, budget);
    }
  }

  lemma LeafDecodes(mem: V.Memory, base: nat, nodes: seq<INode>, k: nat, name: seq<Byte>, depth: nat,
                    fds: map<nat, nat>, budget: nat)
    requires k < |nodes| && RecordAgrees(mem, base, nodes, k) && (!nodes[k].isDir || depth >= V.MAX_DEPTH)
    ensures Decodes(mem, base, nodes, k, name, depth, fds, budget)
  {
    hide V.Rd16, V.Rd32, V.InodePa, TreeOf, V.NodeAt;
    TreeShape(nodes, k, name, depth, fds);
    V.LeafNode(mem, base, k, name, depth, fds, budget);
    EmptySize();
  }

  lemma DirDecodes(mem: V.Memory, base: nat, nodes: seq<INode>, k: nat, name: seq<Byte>, depth: nat, fds: map<nat, nat>,
                   budget: nat)
    requires k < |nodes| && RecordAgrees(mem, base, nodes, k) && nodes[k].isDir && depth < V.MAX_DEPTH
    requires Scans(mem, base, nodes, k, Dirents(nodes, |nodes|, k), 0, depth, fds, budget)
    ensures Decodes(mem, base, nodes, k, name, depth, fds, budget)
  {
    hide V.Rd16, V.Rd32, V.InodePa, TreeOf, V.NodeAt, V.EntriesFrom, Forest, Dirents, SizeAll, From;
    FromStart(Dirents(nodes, |nodes|, k));
    TreeShape(nodes, k, name, depth, fds);
    V.DirectoryNode(mem, base, k, name, depth, fds, budget);
  }

  lemma TreeShape(nodes: seq<INode>, k: nat, name: seq<Byte>, depth: nat, fds: map<nat, nat>)
    requires k < |nodes|
    ensures TreeOf(nodes, k, name, depth, fds) ==
            V.FsNode(k, name, nodes[k].isDir, SizeOf(nodes, |nodes|, k), V.OpenCount(fds, k),
                     if nodes[k].isDir && depth < V.MAX_DEPTH then Forest(nodes, Dirents(nodes, |nodes|, k), depth, fds)
                       else [])
  {
  }

  lemma FromStart(ds: seq<Dirent>)
    ensures From(ds, 0) == ds
  {
  }

  lemma EmptySize()
    ensures SizeAll([]) == 0
  {
  }

  /** Kind and size of inode `k` as the inspector reads them. */
  ghost predicate RecordAgrees(mem: V.Memory, base: nat, nodes: seq<INode>, k: nat)
    requires k < |nodes|
  {
    && V.Rd16(mem, V.InodePa(base, k)) % 256 == (if nodes[k].isDir then 2 else 1)
    && V.Rd32(mem, V.InodePa(base, k) + 4) == SizeOf(nodes, |nodes|, k)
  }

  lemma RecordReads(mem: V.Memory, base: nat, img: seq<Byte>, nodes: seq<INode>, k: nat)
    requires Loaded(mem, base, img) && Stored(img, nodes) && k < |nodes|
    ensures RecordAgrees(mem, base, nodes, k)
  {
    assert NodeOk(img, nodes, |nodes|, k);
    ReadsRecord(mem, base, img, k, nodes[k], SizeOf(nodes, |nodes|, k));
  }

  lemma EntriesRead(mem: V.Memory, base: nat, img: seq<Byte>, nodes: seq<INode>, k: nat)
    requires Loaded(mem, base, img) && Stored(img, nodes) && k < |nodes| && nodes[k].isDir
    ensures DirLoaded(mem, base, img, nodes, k, Dirents(nodes, |nodes|, k))
  {
    var ds := Dirents(nodes, |nodes|, k);
    assert NodeOk(img, nodes, |nodes|, k);
    forall i | 0 <= i < |ds| ensures ds[i].inode < |nodes| { DirentsSound(nodes, |nodes|, k, ds[i]); }
    assert |ds| <= DIRENTS_PER_BLOCK && 0 < nodes[k].start;
    hide DirReads, Dirents, Stored, Loaded;
    DirectoryReads(mem, base, img, k, nodes[k], ds);
  }

  function From(ds: seq<Dirent>, e: nat): seq<Dirent> {
    if e <= |ds| then ds[e..] else []
  }

  /** Directory `k` as the inspector reads it: one block of entries and no second block. */
  ghost predicate DirReads(mem: V.Memory, base: nat, k: nat, start: nat, ds: seq<Dirent>) {
    && start > 0 && V.BlockAt(mem, V.InodePa(base, k), 0) == start && V.BlockAt(mem, V.InodePa(base, k), 1) == 0
    && |ds| <= DIRENTS_PER_BLOCK
    && (forall e :: 0 <= e < |ds| ==>
          && V.ReadName(mem, V.EntryPa(base, start, e)) == V.UntilNul(ds[e].name)
          && V.Rd16(mem, V.EntryPa(base, start, e) + 32) == ds[e].inode)
    && (forall e :: |ds| <= e < DIRENTS_PER_BLOCK ==> V.ReadName(mem, V.EntryPa(base, start, e)) == [])
  }

  lemma DirectoryReads(mem: V.Memory, base: nat, img: seq<Byte>, k: nat, node: INode, ds: seq<Dirent>)
    requires Loaded(mem, base, img) && RecordOk(img, k, node, |ds|) && DirOk(img, node.start, ds)
    requires node.isDir && node.start > 0 && |ds| <= DIRENTS_PER_BLOCK
    ensures DirReads(mem, base, k, node.start, ds)
  {
    ReadsRecord(mem, base, img, k, node, |ds|);
    assert V.BlockAt(mem, V.InodePa(base, k), 0) == node.start && V.BlockAt(mem, V.InodePa(base, k), 1) == 0;
    hide V.BlockAt, V.Rd16, V.ReadName;
    forall e | 0 <= e < |ds|
      ensures V.ReadName(mem, V.EntryPa(base, node.start, e)) == V.UntilNul(ds[e].name)
      ensures V.Rd16(mem, V.EntryPa(base, node.start, e) + 32) == ds[e].inode
    {
      assert DirentOk(img, node.start, e, ds[e]);
      ReadsEntry(mem, base, img, node.start, e, ds[e]);
    }
    forall e | |ds| <= e < DIRENTS_PER_BLOCK ensures V.ReadName(mem, V.EntryPa(base, node.start, e)) == [] {
      assert DirentFree(img, node.start, e);
      ReadsFree(mem, base, img, node.start, e);
    }
  }

  lemma {:induction false} FreeTail(mem: V.Memory, base: nat, k: nat, start: nat, ds: seq<Dirent>,
                                    e: nat, depth: nat, fds: map<nat, nat>, budget: nat)
    requires DirReads(mem, base, k, start, ds) && |ds| <= e <= DIRENTS_PER_BLOCK && depth < V.MAX_DEPTH
    ensures V.EntriesFrom(mem, base, V.InodePa(base, k), 0, e, depth, fds, budget) == ([], budget)
    decreases DIRENTS_PER_BLOCK - e
  {
    hide V.EntriesFrom, V.NodeAt, V.BlockAt, V.ReadName, V.Rd16, V.InodePa, V.EntryPa;
    var ipa := V.InodePa(base, k);
    if e == DIRENTS_PER_BLOCK {
      V.BlockNext(mem, base, ipa, 0, depth, fds, budget);
      V.EntriesStop(mem, base, ipa, 1, 0, depth, fds, budget);
    } else if budget == 0 {
      V.EntriesStop(mem, base, ipa, 0, e, depth, fds, budget);
    } else {
      V.EntryStep(mem, base, ipa, 0, e, depth, fds, budget);
      FreeTail(mem, base, k, start, ds, e + 1, depth, fds, budget);
    }
  }

  lemma ForestCons(nodes: seq<INode>, ds: seq<Dirent>, depth: nat, fds: map<nat, nat>)
    requires ds != [] && ds[0].inode < |nodes| && depth < V.MAX_DEPTH
    ensures var shown := V.UntilNul(ds[0].name);
            var rest := Forest(nodes, ds[1..], depth, fds);
            Forest(nodes, ds, depth, fds) ==
            if shown == [] then rest else [TreeOf(nodes, ds[0].inode, shown, depth + 1, fds)] + rest
  {
    hide TreeOf, V.UntilNul;
  }

  lemma ForestStep(nodes: seq<INode>, ds: seq<Dirent>, e: nat, depth: nat, fds: map<nat, nat>)
    requires e < |ds| && ds[e].inode < |nodes| && depth < V.MAX_DEPTH
    ensures var shown := V.UntilNul(ds[e].name);
            var rest := Forest(nodes, From(ds, e + 1), depth, fds);
            Forest(nodes, From(ds, e), depth, fds) ==
            if shown == [] then rest else [TreeOf(nodes, ds[e].inode, shown, depth + 1, fds)] + rest
  {
    assert From(ds, e)[1..] == From(ds, e + 1);
    hide Forest, TreeOf, V.UntilNul;
    ForestCons(nodes, From(ds, e), depth, fds);
  }

  lemma NoNodes(forest: seq<V.FsNode>)
    ensures SizeAll(forest) == 0 ==> forest == []
  {
    if forest != [] { assert Size(forest[0]) >= 1; }
  }

  /** The scan of directory `k` from entry `e` on yields the trees of the entries `ds` from there. */
  ghost predicate Scans(mem: V.Memory, base: nat, nodes: seq<INode>, k: nat, ds: seq<Dirent>, e: nat, depth: nat,
                        fds: map<nat, nat>, budget: nat) {
    depth < V.MAX_DEPTH && e <= DIRENTS_PER_BLOCK &&
    var forest := Forest(nodes, From(ds, e), depth, fds);
    budget >= SizeAll(forest) ==>
      V.EntriesFrom(mem, base, V.InodePa(base, k), 0, e, depth, fds, budget) == (forest, budget - SizeAll(forest))
  }

  /** Directory `k` of a loaded image, with entries `ds`. */
  ghost predicate DirLoaded(mem: V.Memory, base: nat, img: seq<Byte>, nodes: seq<INode>, k: nat, ds: seq<Dirent>) {
    && Loaded(mem, base, img) && Stored(img, nodes) && k < |nodes| && nodes[k].isDir
    && DirReads(mem, base, k, nodes[k].start, ds) && forall i :: 0 <= i < |ds| ==> ds[i].inode < |nodes|
  }

  lemma DirEntry(mem: V.Memory, base: nat, img: seq<Byte>, nodes: seq<INode>, k: nat, ds: seq<Dirent>, e: nat)
    requires DirLoaded(mem, base, img, nodes, k, ds) && e < |ds|
    ensures |ds| <= DIRENTS_PER_BLOCK && ds[e].inode < |nodes|
    ensures var start := V.BlockAt(mem, V.InodePa(base, k), 0);
            && 0 < start && V.ReadName(mem, V.EntryPa(base, start, e)) == V.UntilNul(ds[e].name)
            && V.Rd16(mem, V.EntryPa(base, start, e) + 32) == ds[e].inode
  {
    hide Loaded, Stored, V.BlockAt, V.ReadName, V.Rd16, V.UntilNul;
  }

  lemma DirParts(mem: V.Memory, base: nat, img: seq<Byte>, nodes: seq<INode>, k: nat, ds: seq<Dirent>, depth: nat)
    requires DirLoaded(mem, base, img, nodes, k, ds) && depth < V.MAX_DEPTH
    ensures Loaded(mem, base, img) && Stored(img, nodes) && Max(V.MAX_DEPTH - (depth + 1), 0) < V.MAX_DEPTH - depth
  {
    hide Loaded, Stored, DirReads;
  }

  lemma ScanEnds(mem: V.Memory, base: nat, img: seq<Byte>, nodes: seq<INode>, k: nat, ds: seq<Dirent>, depth: nat,
                 fds: map<nat, nat>, budget: nat)
    requires DirLoaded(mem, base, img, nodes, k, ds) && depth < V.MAX_DEPTH
    ensures Scans(mem, base, nodes, k, ds, |ds|, depth, fds, budget)
  {
    hide Loaded, Stored, V.EntriesFrom, V.InodePa, Forest, SizeAll, V.ReadName, V.Rd16, V.BlockAt;
    FreeTail(mem, base, k, nodes[k].start, ds, |ds|, depth, fds, budget);
    assert From(ds, |ds|) == [];
    EmptyForest(nodes, depth, fds);
  }

  lemma ScanSpent(mem: V.Memory, base: nat, nodes: seq<INode>, k: nat, ds: seq<Dirent>, e: nat, depth: nat,
                  fds: map<nat, nat>)
    requires depth < V.MAX_DEPTH && e < DIRENTS_PER_BLOCK
    ensures Scans(mem, base, nodes, k, ds, e, depth, fds, 0)
  {
    hide V.EntriesFrom, V.InodePa, Forest, SizeAll;
    V.EntriesStop(mem, base, V.InodePa(base, k), 0, e, depth, fds, 0);
    NoNodes(Forest(nodes, From(ds, e), depth, fds));
  }

  lemma ScanHidden(mem: V.Memory, base: nat, img: seq<Byte>, nodes: seq<INode>, k: nat, ds: seq<Dirent>, e: nat,
                   depth: nat, fds: map<nat, nat>, budget: nat)
    requires DirLoaded(mem, base, img, nodes, k, ds) && e < |ds| && 0 < budget && V.UntilNul(ds[e].name) == []
    requires Scans(mem, base, nodes, k, ds, e + 1, depth, fds, budget)
    ensures Scans(mem, base, nodes, k, ds, e, depth, fds, budget)
  {
    hide DirLoaded, V.EntriesFrom, V.NodeAt, V.BlockAt, V.ReadName, V.Rd16, V.InodePa, V.EntryPa, V.UntilNul, Forest,
         SizeAll, TreeOf, From;
    DirEntry(mem, base, img, nodes, k, ds, e);
    ForestStep(nodes, ds, e, depth, fds);
    V.EntryStep(mem, base, V.InodePa(base, k), 0, e, depth, fds, budget);
  }

  /** The tree of entry `e`. */
  function EntryTree(nodes: seq<INode>, ds: seq<Dirent>, e: nat, depth: nat, fds: map<nat, nat>): V.FsNode
    requires e < |ds| && ds[e].inode < |nodes|
  {
    TreeOf(nodes, ds[e].inode, V.UntilNul(ds[e].name), depth + 1, fds)
  }

  lemma ScanShown(mem: V.Memory, base: nat, img: seq<Byte>, nodes: seq<INode>, k: nat, ds: seq<Dirent>, e: nat,
                  depth: nat, fds: map<nat, nat>, budget: nat)
    requires DirLoaded(mem, base, img, nodes, k, ds) && e < |ds| && 0 < budget && V.UntilNul(ds[e].name) != []
    requires depth < V.MAX_DEPTH && ds[e].inode < |nodes|
    requires Decodes(mem, base, nodes, ds[e].inode, V.UntilNul(ds[e].name), depth + 1, fds, budget - 1)
    requires var size := Size(EntryTree(nodes, ds, e, depth, fds));
             size <= budget ==> Scans(mem, base, nodes, k, ds, e + 1, depth, fds, budget - size)
    ensures Scans(mem, base, nodes, k, ds, e, depth, fds, budget)
  {
    hide DirLoaded, V.EntriesFrom, V.NodeAt, V.BlockAt, V.ReadName, V.Rd16, V.InodePa, V.EntryPa, V.UntilNul, Forest,
         SizeAll, TreeOf, From;
    DirEntry(mem, base, img, nodes, k, ds, e);
    ForestStep(nodes, ds, e, depth, fds);
    V.EntryStep(mem, base, V.InodePa(base, k), 0, e, depth, fds, budget);
    SizeAllCons(EntryTree(nodes, ds, e, depth, fds), Forest(nodes, From(ds, e + 1), depth, fds));
  }

  lemma {:induction false} EntriesDecode(mem: V.Memory, base: nat, img: seq<Byte>, nodes: seq<INode>, k: nat,
                                         ds: seq<Dirent>, e: nat, depth: nat, fds: map<nat, nat>, budget: nat)
    requires DirLoaded(mem, base, img, nodes, k, ds) && depth < V.MAX_DEPTH && e <= |ds|
    ensures Scans(mem, base, nodes, k, ds, e, depth, fds, budget)
    decreases V.MAX_DEPTH - depth, 0, |ds| - e
  {
    hide *;
    if e == |ds| {
      ScanEnds(mem, base, img, nodes, k, ds, depth, fds, budget);
      return;
    }
    DirEntry(mem, base, img, nodes, k, ds, e);
    if budget == 0 {
      ScanSpent(mem, base, nodes, k, ds, e, depth, fds);
    } else if V.UntilNul(ds[e].name) == [] {
      EntriesDecode(mem, base, img, nodes, k, ds, e + 1, depth, fds, budget);
      ScanHidden(mem, base, img, nodes, k, ds, e, depth, fds, budget);
    } else {
      EntryDecodes(mem, base, img, nodes, k, ds, e, depth, fds, budget);
    }
  }

  lemma {:induction false} EntryDecodes(mem: V.Memory, base: nat, img: seq<Byte>, nodes: seq<INode>, k: nat,
                                        ds: seq<Dirent>, e: nat, depth: nat, fds: map<nat, nat>, budget: nat)
    requires DirLoaded(mem, base, img, nodes, k, ds) && depth < V.MAX_DEPTH && e < |ds| && ds[e].inode < |nodes|
    requires budget > 0 && V.UntilNul(ds[e].name) != []
    ensures Scans(mem, base, nodes, k, ds, e, depth, fds, budget)
    decreases V.MAX_DEPTH - depth, 0, |ds| - e, 0
  {
    hide *;
    DirParts(mem, base, img, nodes, k, ds, depth);
    NodeDecodes(mem, base, img, nodes, ds[e].inode, V.UntilNul(ds[e].name), depth + 1, fds, budget - 1);
    var size := Size(EntryTree(nodes, ds, e, depth, fds));
    if size <= budget {
      EntriesDecode(mem, base, img, nodes, k, ds, e + 1, depth, fds, budget - size);
    }
    ScanShown(mem, base, img, nodes, k, ds, e, depth, fds, budget);
  }

  lemma EmptyForest(nodes: seq<INode>, depth: nat, fds: map<nat, nat>)
    requires depth < V.MAX_DEPTH
    ensures Forest(nodes, [], depth, fds) == [] && SizeAll([]) == 0
  {
    EmptySize();
  }
}
