/**
 Round trips of the boot filesystem: what the inspector shows of a built image is the tree the
 entries describe, files read back byte for byte, and the bitmaps and counts match the blocks
 and inodes in use.
 */
module FsRoundTrip {
  import opened Common
  import opened Bits
  import opened FsLayout
  import opened FsImage
  import opened FsBuild
  import opened FsDecode
  import opened FsBudget
  import opened FsDescribe
  import V = FsView

  /** Space: the data-block cap and the direct blocks of an inode. */
  predicate Fits(entries: seq<FsEntry>) {
    && 1 + TotalCost(entries) + 56 <= 640
    && forall i :: 0 <= i < |entries| && entries[i].File? ==> |entries[i].data| <= 44 * 4096
  }

  /** `img` is what the builder makes of `entries`. */
  ghost predicate ImageOf(img: seq<Byte>, entries: seq<FsEntry>) {
    Built(img, NodesOf(entries), 1 + TotalCost(entries) + SPARE_BLOCKS)
  }

  lemma BuiltStored(img: seq<Byte>, nodes: seq<INode>, total: nat)
    requires Built(img, nodes, total) && Proper(nodes)
    ensures Stored(img, nodes)
  {
    hide NodeOk, Proper, Ordered, SuperblockOk, MarkedTo;
  }

  lemma MagicReads(mem: V.Memory, base: nat, img: seq<Byte>, total: nat, inodes: nat, blocks: nat)
    requires Loaded(mem, base, img) && SuperblockOk(img, total, inodes, blocks)
    ensures V.Rd32(mem, base) == V.MAGIC32
  {
    ReadsU32(mem, base, img, 0);
    assert img[0] == img[..8][0] && img[1] == img[..8][1] && img[2] == img[..8][2] && img[3] == img[..8][3];
  }

  /** The walk from the root decodes exactly the described tree. */
  lemma TreeRoundTrip(entries: seq<FsEntry>, img: seq<Byte>, mem: V.Memory, base: nat, fds: map<nat, nat>)
    requires WellFormed(entries) && ImageOf(img, entries) && Loaded(mem, base, img)
    ensures V.Rd32(mem, base) == V.MAGIC32
    ensures V.NodeAt(mem, base, 0, ROOT, 0, fds, V.MAX_NODES).0 == Described(Order(entries), 0, ROOT, 0, fds)
  {
    var nodes, total := NodesOf(entries), 1 + TotalCost(entries) + SPARE_BLOCKS;
    PlanProper(entries);
    assert SuperblockOk(img, total, |nodes|, EndBlock(nodes) - DATA_BLOCK_START) && Ordered(nodes)
           && |nodes| <= INODE_COUNT;
    hide *;
    BuiltStored(img, nodes, total);
    MagicReads(mem, base, img, total, |nodes|, EndBlock(nodes) - DATA_BLOCK_START);
    RootWithinBudget(nodes, ROOT, fds);
    NodeDecodes(mem, base, img, nodes, 0, ROOT, 0, fds, V.MAX_NODES);
    DecodesMeans(mem, base, nodes, 0, ROOT, 0, fds, V.MAX_NODES);
    TreeDescribed(Order(entries), nodes, 0, ROOT, 0, fds);
  }

  /** Build an image, mount it at `base` in otherwise arbitrary memory, and inspect it. */
  method BuildAndInspect(entries: seq<FsEntry>, before: V.Memory, base: nat, fds: map<nat, nat>)
    returns (root: Option<V.FsNode>, ghost img: seq<Byte>)
    requires base != 0
    ensures WellFormed(entries) ==>
              root == if Fits(entries) then Some(Described(Order(entries), 0, ROOT, 0, fds)) else None
    ensures root.Some? ==> Fits(entries) && Pointers(img, NodesOf(entries))
    ensures root.Some? ==> root.value == V.NodeAt(Mount(before, base, img), base, 0, ROOT, 0, fds, V.MAX_NODES).0
  {
    assert ROOT == [47];
    hide *;
    img := [];
    var built := BuildFsImage(entries);
    if WellFormed(entries) {
      PlanProper(entries);
    }
    FitsMeans(entries);
    if built.None? {
      return None, [];
    }
    img := built.value;
    var mem: V.Memory := Mount(before, base, built.value);
    root := V.CaptureAt(mem, base, fds);
    if WellFormed(entries) {
      MountLoads(before, base, img);
      assert ImageOf(img, entries) by { ImageOfMeans(img, entries); }
      TreeRoundTrip(entries, img, mem, base, fds);
    }
  }

  /** Inspect memory in which the kernel's globals name a built image: the tree, with the open files. */
  method InspectMounted(entries: seq<FsEntry>, ghost img: seq<Byte>, mem: V.Memory, sym: V.FsSymbols, ghost base: nat)
    returns (root: Option<V.FsNode>)
    requires base != 0 && V.HoldsWord(mem, sym.imageBase, base)
    requires WellFormed(entries) && ImageOf(img, entries) && Loaded(mem, base, img)
    ensures root == Some(Described(Order(entries), 0, ROOT, 0, V.OpenFiles(mem, sym)))
  {
    assert ROOT == [47];
    hide *;
    TreeRoundTrip(entries, img, mem, base, V.OpenFiles(mem, sym));
    V.WordRead(mem, sym.imageBase, base);
    root := V.Capture(mem, sym);
  }

  lemma FitsMeans(entries: seq<FsEntry>)
    ensures Fits(entries) <==> 1 + TotalCost(entries) + SPARE_BLOCKS <= MAX_DATA_BLOCKS && FilesFit(entries)
  {
  }

  lemma ImageOfMeans(img: seq<Byte>, entries: seq<FsEntry>)
    ensures ImageOf(img, entries) <==> Built(img, NodesOf(entries), 1 + TotalCost(entries) + SPARE_BLOCKS)
  {
  }

  function Mount(before: V.Memory, base: nat, img: seq<Byte>): V.Memory {
    (a: nat) => if base <= a < base + |img| then img[a - base] else before(a)
  }

  lemma MountLoads(before: V.Memory, base: nat, img: seq<Byte>)
    ensures Loaded(Mount(before, base, img), base, img)
  {
  }

  // ----- Files -----

  lemma ChunkReads(mem: V.Memory, base: nat, img: seq<Byte>, start: nat, data: seq<Byte>, slot: nat, take: nat)
    requires Loaded(mem, base, img) && ContentOk(img, start, data) && 4096 * slot + take <= |data|
    ensures V.Peek(mem, base + 4096 * (start + slot), take) == data[4096 * slot..4096 * slot + take]
  {
    var chunk := V.Peek(mem, base + 4096 * (start + slot), take);
    forall i | 0 <= i < take ensures chunk[i] == data[4096 * slot + i] {
      var o := BlockOffset(start) + (4096 * slot + i);
      assert mem(base + o) == img[o];
    }
  }

  lemma SlotReads(mem: V.Memory, base: nat, img: seq<Byte>, k: nat, node: INode, size: nat, slot: nat)
    requires Loaded(mem, base, img) && RecordOk(img, k, node, size) && slot < Blocks(node) <= MAX_DIRECT_BLOCKS
    ensures V.BlockAt(mem, V.InodePa(base, k), slot) == node.start + slot
  {
    ReadsRecord(mem, base, img, k, node, size);
  }

  lemma SliceJoin(data: seq<Byte>, lo: nat, take: nat, rem: nat)
    requires take <= rem && lo + rem <= |data|
    ensures data[lo..lo + rem] == data[lo..lo + take] + if take == rem then [] else data[lo + take..lo + rem]
  {
  }

  lemma SlotInRange(node: INode, slot: nat, rem: nat)
    requires !node.isDir && 0 < rem && 4096 * slot + rem <= |node.data|
    ensures slot < Blocks(node)
  {
  }

  /** The blocks of inode `k` from slot `slot` on start with `rem` bytes of `data`. */
  ghost predicate ReadsAs(mem: V.Memory, base: nat, k: nat, data: seq<Byte>, slot: nat, rem: nat)
    requires slot <= MAX_DIRECT_BLOCKS && (rem == 0 || 4096 * slot + rem <= |data|)
  {
    V.FileBytes(mem, base, V.InodePa(base, k), slot, rem) == if rem == 0 then []
      else data[4096 * slot..4096 * slot + rem]
  }

  lemma BlockReads(mem: V.Memory, base: nat, k: nat, start: nat, data: seq<Byte>, slot: nat, rem: nat, take: nat)
    requires slot < MAX_DIRECT_BLOCKS && 0 < rem && 4096 * slot + rem <= |data| && take == Min(rem, 4096) && 0 < start
    requires V.BlockAt(mem, V.InodePa(base, k), slot) == start + slot
    requires V.Peek(mem, base + 4096 * (start + slot), take) == data[4096 * slot..4096 * slot + take]
    requires ReadsAs(mem, base, k, data, slot + 1, rem - take)
    ensures ReadsAs(mem, base, k, data, slot, rem)
  {
    hide V.FileBytes, V.BlockAt, V.Peek, V.InodePa;
    V.FileStep(mem, base, V.InodePa(base, k), slot, rem);
    SliceJoin(data, 4096 * slot, take, rem);
  }

  lemma {:induction false} BlocksRead(mem: V.Memory, base: nat, img: seq<Byte>, k: nat, node: INode, size: nat,
                                      slot: nat, rem: nat)
    requires Loaded(mem, base, img) && RecordOk(img, k, node, size) && ContentOk(img, node.start, node.data)
    requires !node.isDir && 0 < node.start && Blocks(node) <= MAX_DIRECT_BLOCKS
    requires slot <= MAX_DIRECT_BLOCKS && (rem == 0 || 4096 * slot + rem <= |node.data|)
    ensures ReadsAs(mem, base, k, node.data, slot, rem)
    decreases MAX_DIRECT_BLOCKS - slot
  {
    hide Loaded, RecordOk, ContentOk, Blocks, V.BlockAt, V.Peek, V.InodePa, V.FileBytes;
    if rem == 0 {
      V.FileNone(mem, base, V.InodePa(base, k), slot);
    } else {
      hide ReadsAs;
      var take: nat := Min(rem, 4096);
      SlotInRange(node, slot, rem);
      SlotReads(mem, base, img, k, node, size, slot);
      ChunkReads(mem, base, img, node.start, node.data, slot, take);
      BlocksRead(mem, base, img, k, node, size, slot + 1, rem - take);
      BlockReads(mem, base, k, node.start, node.data, slot, rem, take);
    }
  }

  /** Walking the blocks of inode `k` for `len` bytes gives the first `len` bytes of `data`, for every
      `len` up to its size. */
  ghost predicate FileIs(mem: V.Memory, base: nat, k: nat, data: seq<Byte>) {
    forall len: nat :: len <= |data| ==> V.FileBytes(mem, base, V.InodePa(base, k), 0, len) == data[..len]
  }

  lemma FileReadsBack(mem: V.Memory, base: nat, img: seq<Byte>, nodes: seq<INode>, k: nat)
    requires Loaded(mem, base, img) && Stored(img, nodes) && k < |nodes| && !nodes[k].isDir
    ensures FileIs(mem, base, k, nodes[k].data)
  {
    assert NodeOk(img, nodes, |nodes|, k);
    assert Blocks(nodes[k]) <= MAX_DIRECT_BLOCKS && 0 < nodes[k].start;
    assert RecordOk(img, k, nodes[k], |nodes[k].data|) && ContentOk(img, nodes[k].start, nodes[k].data);
    hide Loaded, Stored, NodeOk, RecordOk, ContentOk, V.FileBytes, V.InodePa, Blocks;
    forall len: nat | len <= |nodes[k].data|
      ensures V.FileBytes(mem, base, V.InodePa(base, k), 0, len) == nodes[k].data[..len] {
      BlocksRead(mem, base, img, k, nodes[k], |nodes[k].data|, 0, len);
    }
  }

  lemma FileNode(entries: seq<FsEntry>, k: nat)
    requires WellFormed(entries) && 0 < k <= |Order(entries)| && Order(entries)[k - 1].File?
    ensures Proper(NodesOf(entries)) && k < |NodesOf(entries)|
    ensures !NodesOf(entries)[k].isDir && NodesOf(entries)[k].data == Order(entries)[k - 1].data
  {
    PlanProper(entries);
    assert NodeDescribes(Order(entries), NodesOf(entries), k);
  }

  /** Every listed file reads back byte for byte, in full and as a preview of any length, whatever
      else the image holds. */
  lemma FilesRoundTrip(entries: seq<FsEntry>, img: seq<Byte>, mem: V.Memory, base: nat, k: nat)
    requires WellFormed(entries) && ImageOf(img, entries) && Loaded(mem, base, img)
    requires 0 < k <= |Order(entries)| && Order(entries)[k - 1].File?
    ensures FileIs(mem, base, k, Order(entries)[k - 1].data)
  {
    ImageOfMeans(img, entries);
    FileNode(entries, k);
    hide *;
    BuiltStored(img, NodesOf(entries), 1 + TotalCost(entries) + SPARE_BLOCKS);
    FileReadsBack(mem, base, img, NodesOf(entries), k);
  }

  /** The preview pane shows the first 8192 bytes. */
  method PreviewFile(entries: seq<FsEntry>, ghost img: seq<Byte>, mem: V.Memory, sym: V.FsSymbols, node: V.FsNode,
                     ghost base: nat)
    returns (out: seq<Byte>)
    requires V.HoldsWord(mem, sym.imageBase, base)
    requires WellFormed(entries) && ImageOf(img, entries) && Loaded(mem, base, img)
    requires 0 < node.inode <= |Order(entries)| && Order(entries)[node.inode - 1].File?
    requires !node.isDir && node.size == |Order(entries)[node.inode - 1].data|
    ensures var data := Order(entries)[node.inode - 1].data; out == data[..if |data| <= 8192 then |data| else 8192]
  {
    FilesRoundTrip(entries, img, mem, base, node.inode);
    V.WordRead(mem, sym.imageBase, base);
    hide WellFormed, ImageOf, Loaded, Order, V.FileBytes, V.InodePa, V.Rd64, V.HoldsWord;
    out := V.FilePreview(mem, sym, node);
  }

  // ----- Blocks, bitmaps and counts -----

  /** Block pointer `j` of inode record `k`, used or not, as stored in the image. */
  lemma SlotIs(img: seq<Byte>, nodes: seq<INode>, total: nat, k: nat, j: nat)
    requires Built(img, nodes, total) && k < INODE_COUNT && j < MAX_DIRECT_BLOCKS
    ensures InodeOffset(k) + 128 <= |img|
    ensures Slot(img, k, j) == if k < |nodes| && j < Blocks(nodes[k]) then nodes[k].start + j else 0
  {
    hide Ordered, SuperblockOk, MarkedTo, BodyOk, NameField, Blocks, EndBlock;
    if k < |nodes| { assert NodeOk(img, nodes, |nodes|, k); }
  }

  lemma NodesApart(nodes: seq<INode>, a: nat, i: nat, b: nat, j: nat)
    requires Ordered(nodes) && a < |nodes| && b < |nodes| && i < Blocks(nodes[a]) && j < Blocks(nodes[b])
    requires nodes[a].start + i == nodes[b].start + j
    ensures a == b && i == j
  {
    hide Blocks, EndBlock;
  }

  lemma InRegion(nodes: seq<INode>, k: nat, j: nat)
    requires Ordered(nodes) && k < |nodes| && j < Blocks(nodes[k])
    ensures DATA_BLOCK_START <= nodes[k].start + j < EndBlock(nodes)
  {
    hide Blocks, EndBlock;
  }

  /** Two block pointers of the image that hold the same block are the same pointer of the same inode, and
      every block held lies in the data region. */
  lemma BlocksDistinct(img: seq<Byte>, nodes: seq<INode>, total: nat, a: nat, i: nat, b: nat, j: nat)
    requires Built(img, nodes, total) && a < INODE_COUNT && b < INODE_COUNT && i < MAX_DIRECT_BLOCKS
             && j < MAX_DIRECT_BLOCKS
    ensures InodeOffset(a) + 128 <= |img| && InodeOffset(b) + 128 <= |img|
    ensures Slot(img, a, i) == Slot(img, b, j) != 0 ==> a == b && i == j
    ensures Slot(img, a, i) != 0 ==> DATA_BLOCK_START <= Slot(img, a, i) < DATA_BLOCK_START + total
  {
    SlotIs(img, nodes, total, a, i);
    SlotIs(img, nodes, total, b, j);
    assert Ordered(nodes) && EndBlock(nodes) <= DATA_BLOCK_START + total;
    hide Built, Ordered, Slot, Blocks, EndBlock;
    if Slot(img, a, i) != 0 {
      InRegion(nodes, a, i);
      if Slot(img, a, i) == Slot(img, b, j) { NodesApart(nodes, a, i, b, j); }
    }
  }

  lemma {:induction false} OwnerFound(nodes: seq<INode>, n: nat, block: nat) returns (k: nat)
    requires Ordered(nodes) && 0 < n <= |nodes|
    requires DATA_BLOCK_START <= block < nodes[n - 1].start + Blocks(nodes[n - 1])
    ensures k < n && nodes[k].start <= block < nodes[k].start + Blocks(nodes[k])
    decreases n
  {
    if nodes[n - 1].start <= block {
      k := n - 1;
    } else {
      assert n > 1 && Adjacent(nodes, n - 1);
      k := OwnerFound(nodes, n - 1, block);
    }
  }

  /** Some inode record of the image holds the block. */
  ghost predicate Held(img: seq<Byte>, block: nat)
    requires InodeOffset(INODE_COUNT) <= |img|
  {
    exists k, j :: 0 <= k < INODE_COUNT && 0 <= j < MAX_DIRECT_BLOCKS && Slot(img, k, j) == block
  }

  lemma HeldBelow(img: seq<Byte>, nodes: seq<INode>, total: nat, block: nat)
    requires Built(img, nodes, total) && DATA_BLOCK_START <= block && InodeOffset(INODE_COUNT) <= |img|
    ensures Held(img, block) <==> block < EndBlock(nodes)
  {
    assert Ordered(nodes) && |nodes| <= INODE_COUNT;
    if Held(img, block) {
      var k, j :| 0 <= k < INODE_COUNT && 0 <= j < MAX_DIRECT_BLOCKS && Slot(img, k, j) == block;
      SlotIs(img, nodes, total, k, j);
      hide Built, Ordered, Slot, Blocks, EndBlock;
      InRegion(nodes, k, j);
    } else if block < EndBlock(nodes) {
      var k := OwnerFound(nodes, |nodes|, block);
      hide Built, Slot, Blocks;
      assert block - nodes[k].start < MAX_DIRECT_BLOCKS;
      SlotIs(img, nodes, total, k, block - nodes[k].start);
      assert false;
    }
  }

  /** A bitmap bit is set exactly when no inode record of the image holds the data block. */
  lemma BitmapExact(img: seq<Byte>, nodes: seq<INode>, total: nat, block: nat)
    requires Built(img, nodes, total) && 10 <= block < 10 + total
    ensures MapBit(img, 36864, block - 10) <==> !Held(img, block)
  {
    assert nodes != [] && InodeOffset(INODE_COUNT) <= |img|;
    hide NodeOk, SuperblockOk, Ordered, EndBlock, Held;
    var used := EndBlock(nodes) - DATA_BLOCK_START;
    assert MapBit(img, BITMAP_OFFSET, block - DATA_BLOCK_START) <==> used <= block - DATA_BLOCK_START;
    hide Built, MapBit;
    HeldBelow(img, nodes, total, block);
  }

  /** Both free counts in the superblock are the numbers of set bits in their bitmaps. */
  lemma CountsExact(img: seq<Byte>, nodes: seq<INode>, total: nat)
    requires Built(img, nodes, total)
    ensures U32(img, 16) == CountBits(img, 24, 256) == 256 - |nodes|
    ensures U32(img, 20) == CountBits(img, 36864, total)
  {
    hide NodeOk;
    CountFrom(img, SB_INODE_BITMAP, INODE_COUNT, |nodes|);
    CountFrom(img, BITMAP_OFFSET, total, EndBlock(nodes) - DATA_BLOCK_START);
  }

  lemma {:induction false} CostSnoc(es: seq<FsEntry>, e: FsEntry)
    ensures TotalCost(es + [e]) == TotalCost(es) + Cost(e)
    ensures Roots(es + [e]) == Roots(es) + if IsRoot(e) then 1 else 0
  {
    if es != [] {
      assert (es + [e])[1..] == es[1..] + [e];
      CostSnoc(es[1..], e);
    }
  }

  lemma {:induction false} BlocksUsed(es: seq<FsEntry>)
    ensures EndBlock(PlanOf(es).nodes) + Roots(es) == DATA_BLOCK_START + 1 + TotalCost(es)
  {
    if es != [] {
      var init, last := es[..|es| - 1], es[|es| - 1];
      BlocksUsed(init);
      CostSnoc(init, last);
      assert es == init + [last];
    }
  }

  /** The up-front block count covers every allocation: 56 data blocks stay free, plus one for each
      listed "/". */
  lemma SpareBlocks(entries: seq<FsEntry>, img: seq<Byte>)
    requires ImageOf(img, entries)
    ensures U32(img, 20) == 56 + Roots(entries)
  {
    SortedCounts(entries);
    hide NodeOk, MarkedTo, Sorted, PlanOf;
    BlocksUsed(Sorted(entries));
  }
}
