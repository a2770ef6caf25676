/**
 On-disk layout of the boot filesystem and what it means for an image to hold a list of inodes.

 Block 0 is the superblock, blocks 1 to 8 hold 256 inode records of 128 bytes, block 9 is the
 free-block bitmap and data blocks start at block 10. A directory owns one block of 36-byte
 entries; a file owns as many consecutive blocks as its bytes need, and at least one.
 */
module FsLayout {
  import opened Common

  const INODE_COUNT: nat := 256
  const DATA_BLOCK_START: nat := 10
  const DIRENTS_PER_BLOCK: nat := 113
  const MAX_DIRECT_BLOCKS: nat := 44
  const MAX_DATA_BLOCKS: nat := 640
  const SPARE_BLOCKS: nat := 56
  const SLASH: Byte := 47

  type Path = seq<Byte>

  datatype FsEntry = Dir(path: Path) | File(path: Path, data: seq<Byte>)

  /** An inode as the builder creates it: where it hangs, what it is called, what it holds, and
      its first block. */
  datatype INode = INode(isDir: bool, parent: nat, name: seq<Byte>, data: seq<Byte>, start: nat)

  datatype Dirent = Dirent(name: seq<Byte>, inode: nat)

  function InodeOffset(k: nat): nat { 4096 + 128 * k }

  function BlockOffset(b: nat): nat { 4096 * b }

  /** Blocks needed for `len` bytes, and one even for none. */
  function BlocksFor(len: nat): (n: nat)
    ensures 1 <= n && len <= 4096 * n && (1 < n ==> 4096 * (n - 1) < len)
  {
    Max((len + 4095) / 4096, 1)
  }

  function Blocks(node: INode): (n: nat)
    ensures 1 <= n
  {
    if node.isDir then 1 else BlocksFor(|node.data|)
  }

  /** At most 31 bytes of a name are stored. */
  function Clip(name: seq<Byte>): (r: seq<Byte>)
    ensures |r| <= 31
  {
    name[..Min(|name|, 31)]
  }

  // ----- Reading fields -----

  function U16(img: seq<Byte>, o: nat): nat
    requires o + 2 <= |img|
  {
    img[o] as int + 256 * img[o + 1] as int
  }

  function U32(img: seq<Byte>, o: nat): nat
    requires o + 4 <= |img|
  {
    img[o] as int + 256 * img[o + 1] as int + 65536 * img[o + 2] as int + 16777216 * img[o + 3] as int
  }

  ghost predicate NameField(img: seq<Byte>, o: nat, raw: seq<Byte>) {
    && |raw| <= 31 && o + 32 <= |img|
    && (forall j :: 0 <= j < |raw| ==> img[o + j] == raw[j])
    && img[o + |raw|] == 0
  }

  function Slot(img: seq<Byte>, k: nat, j: nat): nat
    requires InodeOffset(k) + 128 <= |img| && j < MAX_DIRECT_BLOCKS
  {
    U16(img, InodeOffset(k) + 40 + 2 * j)
  }

  // ----- What an image holds -----

  ghost predicate RecordOk(img: seq<Byte>, k: nat, node: INode, size: nat) {
    var o := InodeOffset(k);
    && o + 128 <= |img|
    && img[o] == (if node.isDir then 2 else 1)
    && U16(img, o + 2) == node.parent
    && U32(img, o + 4) == size
    && NameField(img, o + 8, Clip(node.name))
    && (forall j :: 0 <= j < MAX_DIRECT_BLOCKS ==> Slot(img, k, j) == if j < Blocks(node) then node.start + j else 0)
  }

  ghost predicate DirentOk(img: seq<Byte>, start: nat, e: nat, d: Dirent) {
    var o := BlockOffset(start) + 36 * e;
    o + 36 <= |img| && NameField(img, o, d.name) && U16(img, o + 32) == d.inode
  }

  ghost predicate DirentFree(img: seq<Byte>, start: nat, e: nat) {
    var o := BlockOffset(start) + 36 * e;
    o + 36 <= |img| && forall i :: o <= i < o + 36 ==> img[i] == 0
  }

  ghost predicate DirOk(img: seq<Byte>, start: nat, ds: seq<Dirent>) {
    && (forall e :: 0 <= e < |ds| ==> DirentOk(img, start, e, ds[e]))
    && (forall e :: |ds| <= e < DIRENTS_PER_BLOCK ==> DirentFree(img, start, e))
  }

  ghost predicate ContentOk(img: seq<Byte>, start: nat, data: seq<Byte>) {
    BlockOffset(start) + |data| <= |img| && forall i :: 0 <= i < |data| ==> img[BlockOffset(start) + i] == data[i]
  }

  ghost predicate Blank(img: seq<Byte>, lo: nat, hi: nat) {
    hi <= |img| && forall i :: lo <= i < hi ==> img[i] == 0
  }

  /** The entries of directory `k` among the first `n` inodes, in inode order. */
  function Dirents(nodes: seq<INode>, n: nat, k: nat): seq<Dirent>
    requires n <= |nodes|
  {
    if n <= 1 then []
    else Dirents(nodes, n - 1, k) +
         (if nodes[n - 1].parent == k then [Dirent(Clip(nodes[n - 1].name), n - 1)] else [])
  }

  function SizeOf(nodes: seq<INode>, n: nat, k: nat): nat
    requires n <= |nodes| && k < |nodes|
  {
    if nodes[k].isDir then |Dirents(nodes, n, k)| else |nodes[k].data|
  }

  ghost predicate BodyOk(img: seq<Byte>, nodes: seq<INode>, n: nat, k: nat)
    requires n <= |nodes| && k < |nodes|
  {
    if nodes[k].isDir then DirOk(img, nodes[k].start, Dirents(nodes, n, k))
    else ContentOk(img, nodes[k].start, nodes[k].data)
  }

  ghost predicate NodeOk(img: seq<Byte>, nodes: seq<INode>, n: nat, k: nat)
    requires n <= |nodes| && k < |nodes|
  {
    RecordOk(img, k, nodes[k], SizeOf(nodes, n, k)) && BodyOk(img, nodes, n, k)
  }

  /** First block not owned by any inode. */
  function EndBlock(nodes: seq<INode>): nat
    requires nodes != []
  {
    nodes[|nodes| - 1].start + Blocks(nodes[|nodes| - 1])
  }

  ghost predicate Adjacent(nodes: seq<INode>, k: nat)
    requires 0 < k < |nodes|
  {
    nodes[k].start == nodes[k - 1].start + Blocks(nodes[k - 1])
  }

  /** Blocks are handed out in inode order from the start of the data region, so no two inodes
      share one; parents precede children. */
  ghost predicate Ordered(nodes: seq<INode>) {
    && nodes != [] && nodes[0].isDir && nodes[0].start == DATA_BLOCK_START && nodes[0].parent == 0
    && (forall i, j :: 0 <= i < j < |nodes| ==> nodes[i].start + Blocks(nodes[i]) <= nodes[j].start)
    && (forall k :: 0 < k < |nodes| ==> nodes[k].parent < k)
    && (forall k :: 0 < k < |nodes| ==> Adjacent(nodes, k))
    && (forall k :: 0 <= k < |nodes| ==>
       DATA_BLOCK_START <= nodes[k].start && nodes[k].start + Blocks(nodes[k]) <= EndBlock(nodes))
    && (forall k :: 0 <= k < |nodes| ==> Blocks(nodes[k]) <= MAX_DIRECT_BLOCKS)
  }

  predicate InDirectory(nodes: seq<INode>, k: nat)
    requires k < |nodes|
  {
    nodes[k].parent < |nodes| && nodes[nodes[k].parent].isDir
  }

  /** Limits of the format: the inode table, entries per directory, and entries only in directories. */
  ghost predicate Proper(nodes: seq<INode>) {
    && |nodes| <= INODE_COUNT
    && (forall k :: 0 < k < |nodes| ==> InDirectory(nodes, k))
    && (forall k :: 0 <= k < |nodes| && nodes[k].isDir ==> |Dirents(nodes, |nodes|, k)| <= DIRENTS_PER_BLOCK)
  }

  /** `img` holds `nodes`, the first `n` of which are entered in their parent directories, and is
      blank everywhere else. */
  ghost predicate Holds(img: seq<Byte>, nodes: seq<INode>, n: nat) {
    && 1 <= n <= |nodes| <= INODE_COUNT && Ordered(nodes)
    && BlockOffset(EndBlock(nodes)) <= |img|
    && (forall k :: 0 <= k < |nodes| ==> NodeOk(img, nodes, n, k))
    && Blank(img, 0, 4096)
    && Blank(img, InodeOffset(|nodes|), BlockOffset(DATA_BLOCK_START))
    && Blank(img, BlockOffset(EndBlock(nodes)), |img|)
  }

  // ----- What survives even when directories overflow -----

  /** Record `k` points at the first block of `x`, and at no second one for a directory. */
  ghost predicate PointsAt(img: seq<Byte>, k: nat, x: INode) {
    InodeOffset(k) + 128 <= |img| && Slot(img, k, 0) == x.start && (x.isDir ==> Slot(img, k, 1) == 0)
  }

  /** Every record points at the blocks of its inode, and the other records are blank. */
  ghost predicate Pointers(img: seq<Byte>, nodes: seq<INode>) {
    && |nodes| <= INODE_COUNT && InodeOffset(INODE_COUNT) <= |img|
    && (forall k :: 0 <= k < |nodes| ==> PointsAt(img, k, nodes[k]) && DATA_BLOCK_START <= nodes[k].start)
    && Blank(img, InodeOffset(|nodes|), InodeOffset(INODE_COUNT))
  }

  /** Pointers survive a change of one size field and of anything outside the inode table. */
  lemma PointersFrame(a: seq<Byte>, b: seq<Byte>, nodes: seq<INode>, dir: nat)
    requires Pointers(a, nodes) && |a| == |b| && dir < |nodes|
    requires forall i | InodeOffset(0) <= i < InodeOffset(INODE_COUNT) ::
               InodeOffset(dir) + 4 <= i < InodeOffset(dir) + 8 || b[i] == a[i]
    ensures Pointers(b, nodes)
  {
    forall k | 0 <= k < |nodes| ensures PointsAt(b, k, nodes[k]) { assert PointsAt(a, k, nodes[k]); }
  }

  lemma PointersPlace(a: seq<Byte>, b: seq<Byte>, nodes: seq<INode>, x: INode)
    requires Pointers(a, nodes) && |nodes| < INODE_COUNT && |a| == |b| && DATA_BLOCK_START <= x.start
    requires PointsAt(b, |nodes|, x)
    requires forall i | 0 <= i < InodeOffset(INODE_COUNT) ::
               InodeOffset(|nodes|) <= i < InodeOffset(|nodes|) + 128 || b[i] == a[i]
    ensures Pointers(b, nodes + [x])
  {
    var all := nodes + [x];
    forall k | 0 <= k < |all| ensures PointsAt(b, k, all[k]) && DATA_BLOCK_START <= all[k].start {
      if k < |nodes| { assert PointsAt(a, k, nodes[k]); }
    }
  }

  lemma HoldsPointers(img: seq<Byte>, nodes: seq<INode>, n: nat)
    requires Holds(img, nodes, n)
    ensures Pointers(img, nodes)
  {
    hide BodyOk;
    forall k | 0 <= k < |nodes| ensures PointsAt(img, k, nodes[k]) { assert NodeOk(img, nodes, n, k); }
  }

  // ----- Frames: what an unchanged byte range keeps -----

  ghost predicate Same(a: seq<Byte>, b: seq<Byte>, lo: nat, hi: nat) {
    |a| == |b| && forall i :: lo <= i < hi && i < |a| ==> a[i] == b[i]
  }

  lemma RecordFrame(a: seq<Byte>, b: seq<Byte>, k: nat, node: INode, size: nat)
    requires RecordOk(a, k, node, size) && Same(a, b, InodeOffset(k), InodeOffset(k) + 128)
    ensures RecordOk(b, k, node, size)
  {
    forall j | 0 <= j < MAX_DIRECT_BLOCKS ensures Slot(b, k, j) == Slot(a, k, j) {
    }
  }

  lemma DirFrame(a: seq<Byte>, b: seq<Byte>, start: nat, ds: seq<Dirent>)
    requires DirOk(a, start, ds) && |ds| <= DIRENTS_PER_BLOCK
    requires Same(a, b, BlockOffset(start), BlockOffset(start) + 4096)
    ensures DirOk(b, start, ds)
  {
    forall e | 0 <= e < |ds| ensures DirentOk(b, start, e, ds[e]) {
      assert DirentOk(a, start, e, ds[e]);
    }
    forall e | |ds| <= e < DIRENTS_PER_BLOCK ensures DirentFree(b, start, e) {
      assert DirentFree(a, start, e);
    }
  }

  lemma BodyFrame(a: seq<Byte>, b: seq<Byte>, nodes: seq<INode>, n: nat, k: nat)
    requires n <= |nodes| && k < |nodes| && BodyOk(a, nodes, n, k)
    requires nodes[k].isDir ==> |Dirents(nodes, n, k)| <= DIRENTS_PER_BLOCK
    requires Same(a, b, BlockOffset(nodes[k].start), BlockOffset(nodes[k].start + Blocks(nodes[k])))
    ensures BodyOk(b, nodes, n, k)
  {
    if nodes[k].isDir {
      DirFrame(a, b, nodes[k].start, Dirents(nodes, n, k));
    }
  }

  // ----- Directory entries as inodes are appended -----

  lemma {:induction false} DirentsPrefix(nodes: seq<INode>, x: INode, n: nat, k: nat)
    requires n <= |nodes|
    ensures Dirents(nodes + [x], n, k) == Dirents(nodes, n, k)
  {
    if n > 1 { DirentsPrefix(nodes, x, n - 1, k); }
  }

  lemma {:induction false} DirentsGrow(nodes: seq<INode>, n: nat, m: nat, k: nat)
    requires n <= m <= |nodes|
    ensures |Dirents(nodes, n, k)| <= |Dirents(nodes, m, k)|
  {
    if n < m { DirentsGrow(nodes, n, m - 1, k); }
  }

  /** Every entry names an inode whose parent is `k`, and each such inode is entered. */
  lemma {:induction false} DirentsSound(nodes: seq<INode>, n: nat, k: nat, d: Dirent)
    requires n <= |nodes|
    ensures d in Dirents(nodes, n, k) <==>
            1 <= d.inode < n && nodes[d.inode].parent == k && d.name == Clip(nodes[d.inode].name)
  {
    if n > 1 { DirentsSound(nodes, n - 1, k, d); }
  }

  /** A new inode has no entries yet. */
  lemma {:induction false} NoEntriesYet(nodes: seq<INode>, n: nat, k: nat)
    requires n <= |nodes| && forall j :: 0 < j < n ==> nodes[j].parent < k
    ensures Dirents(nodes, n, k) == []
  {
    if n > 1 { NoEntriesYet(nodes, n - 1, k); }
  }

  lemma ProperPrefix(nodes: seq<INode>, x: INode)
    requires Proper(nodes + [x]) && forall k :: 0 < k < |nodes| ==> nodes[k].parent < k
    ensures Proper(nodes)
  {
    var all := nodes + [x];
    forall k | 0 <= k < |nodes| && nodes[k].isDir ensures |Dirents(nodes, |nodes|, k)| <= DIRENTS_PER_BLOCK {
      DirentsPrefix(nodes, x, |nodes|, k);
      DirentsGrow(all, |nodes|, |all|, k);
      assert all[k].isDir;
    }
    forall k | 0 < k < |nodes| ensures InDirectory(nodes, k) {
      assert InDirectory(all, k);
    }
  }
}
