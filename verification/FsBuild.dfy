/** The whole builder: sizing, the entry loop, the superblock and the bitmaps. */
module FsBuild {
  import opened Common
  import opened Bits
  import opened FsLayout
  import opened FsSteps
  import opened FsImage

  const SB_INODE_BITMAP: nat := 24
  const BITMAP_OFFSET: nat := 36864
  const MAGIC: seq<Byte> := [0x48, 0x4C, 0x4C, 0x46, 0x53, 0x00, 0x01, 0x00]

  ghost predicate SuperblockOk(img: seq<Byte>, total: nat, inodes: nat, blocks: nat) {
    && 56 <= |img| && img[..8] == [0x48, 0x4C, 0x4C, 0x46, 0x53, 0x00, 0x01, 0x00]
    && U16(img, 8) == 1 && U16(img, 10) == 256 && U16(img, 12) == total && U16(img, 14) == 0
    && U32(img, 16) == 256 - inodes && U32(img, 20) == total - blocks
  }

  /** A finished image of `nodes` with `total` data blocks. */
  ghost predicate Built(img: seq<Byte>, nodes: seq<INode>, total: nat) {
    && |nodes| <= INODE_COUNT && Ordered(nodes) && EndBlock(nodes) <= DATA_BLOCK_START + total
    && |img| == BlockOffset(DATA_BLOCK_START + total) && 0 < total
    && (forall k :: 0 <= k < |nodes| ==> NodeOk(img, nodes, |nodes|, k))
    && Blank(img, InodeOffset(|nodes|), InodeOffset(INODE_COUNT))
    && SuperblockOk(img, total, |nodes|, EndBlock(nodes) - DATA_BLOCK_START)
    && MarkedTo(img, SB_INODE_BITMAP, INODE_COUNT, |nodes|, INODE_COUNT)
    && total <= MAX_DATA_BLOCKS
    && MarkedTo(img, BITMAP_OFFSET, total, EndBlock(nodes) - DATA_BLOCK_START, total)
  }

  // ----- Sorting and planning -----

  function Roots(es: seq<FsEntry>): nat {
    if es == [] then 0 else (if IsRoot(es[0]) then 1 else 0) + Roots(es[1..])
  }

  predicate FilesFit(es: seq<FsEntry>) {
    forall i :: 0 <= i < |es| ==> Cost(es[i]) <= MAX_DIRECT_BLOCKS
  }

  lemma {:induction false} InsertCounts(e: FsEntry, es: seq<FsEntry>)
    ensures TotalCost(Insert(e, es)) == Cost(e) + TotalCost(es)
    ensures Roots(Insert(e, es)) == Roots([e]) + Roots(es)
    ensures multiset(Insert(e, es)) == multiset(es) + multiset{e}
  {
    if es == [] || KeyLe(e, es[0]) {
      assert ([e] + es)[1..] == es;
    } else {
      InsertCounts(e, es[1..]);
      var rest := Insert(e, es[1..]);
      assert ([es[0]] + rest)[1..] == rest;
      assert es == [es[0]] + es[1..];
    }
  }

  /** Sorting keeps the entries, and so the blocks they need. */
  lemma {:induction false} SortedCounts(es: seq<FsEntry>)
    ensures TotalCost(Sorted(es)) == TotalCost(es)
    ensures Roots(Sorted(es)) == Roots(es)
    ensures multiset(Sorted(es)) == multiset(es)
  {
    if es != [] {
      SortedCounts(es[1..]);
      InsertCounts(es[0], Sorted(es[1..]));
      assert es == [es[0]] + es[1..];
      assert Roots([es[0]]) == if IsRoot(es[0]) then 1 else 0;
    }
  }

  /** Parents are created before their children. */
  lemma {:induction false} PlanParents(es: seq<FsEntry>)
    ensures Backward(PlanOf(es))
  {
    if es != [] {
      hide Place, Backward;
      var init, last := es[..|es| - 1], es[|es| - 1];
      assert PlanOf(es) == Place(PlanOf(init), last);
      hide PlanOf;
      PlanParents(init);
      PlaceBackward(PlanOf(init), last);
    }
  }

  lemma PlaceBackward(plan: Plan, e: FsEntry)
    requires plan.nodes != [] && Backward(plan)
    ensures Backward(Place(plan, e))
  {
    hide EndBlock, BaseName, ParentPath;
    assert ParentInode(plan.inodeOf, e.path) < |plan.nodes|;
  }

  lemma {:induction false} ProperDown(es: seq<FsEntry>, n: nat)
    requires n <= |es| && Proper(PlanOf(es).nodes)
    ensures Proper(PlanOf(es[..n]).nodes)
  {
    if n < |es| {
      var plan, e := PlanOf(es[..|es| - 1]), es[|es| - 1];
      PlanParents(es[..|es| - 1]);
      hide Proper;
      if !IsRoot(e) {
        var x := PlanOf(es).nodes[|plan.nodes|];
        assert PlanOf(es).nodes == plan.nodes + [x];
        ProperPrefix(plan.nodes, x);
      }
      ProperDown(es[..|es| - 1], n);
      assert es[..|es| - 1][..n] == es[..n];
    } else {
      assert es[..n] == es;
    }
  }

  // ----- Writing -----

  method NeededBlocks(entries: seq<FsEntry>) returns (needed: nat)
    ensures needed == 1 + TotalCost(entries) + SPARE_BLOCKS
  {
    needed := 1;
    for i := 0 to |entries|
      invariant needed + TotalCost(entries[i..]) == 1 + TotalCost(entries)
    {
      if entries[i].File? {
        needed := needed + Max((|entries[i].data| + 4095) / 4096, 1);
      } else {
        needed := needed + 1;
      }
      assert entries[i..][1..] == entries[i + 1..];
    }
    needed := needed + SPARE_BLOCKS;
  }

  lemma RootHeld(a: seq<Byte>, b: seq<Byte>)
    requires |a| == |b| && BlockOffset(11) <= |a| && Blank(a, 0, |a|)
    requires OnlyNew(a, b, 0, ROOT_NODE) && NewOk(b, 0, ROOT_NODE)
    ensures Holds(b, [ROOT_NODE], 1)
  {
    assert Dirents([ROOT_NODE], 1, 0) == [];
    assert NodeOk(b, [ROOT_NODE], 1, 0);
  }

  method WriteRoot(image: array<Byte>)
    requires BlockOffset(67) <= image.Length && Blank(image[..], 0, image.Length)
    modifies image
    ensures Sound(image[..], EMPTY_PLAN)
  {
    ghost var a := image[..];
    WriteInode(image, 0, ROOT_NODE);
    assert Vacant(a, 0, ROOT_NODE);
    RootHeld(a, image[..]);
    hide Holds, Pointers;
    HoldsPointers(image[..], [ROOT_NODE], 1);
  }

  lemma FitsSnoc(es: seq<FsEntry>, n: nat)
    requires n < |es|
    ensures FilesFit(es[..n]) && Cost(es[n]) <= MAX_DIRECT_BLOCKS ==> FilesFit(es[..n + 1])
    ensures FilesFit(es) ==> Cost(es[n]) <= MAX_DIRECT_BLOCKS
  {
    hide Cost;
  }

  lemma PlanNext(es: seq<FsEntry>, n: nat)
    requires n < |es|
    ensures PlanOf(es[..n + 1]) == Place(PlanOf(es[..n]), es[n]) && Backward(PlanOf(es[..n + 1]))
    ensures TotalCost(es[n..]) == Cost(es[n]) + TotalCost(es[n + 1..])
  {
    PlanParents(es[..n + 1]);
    hide Place, Backward, Cost;
    assert es[..n + 1][..n] == es[..n] && es[n..][1..] == es[n + 1..];
  }

  /** The loop over the sorted entries. */
  method AddEntries(image: array<Byte>, sorted: seq<FsEntry>, ghost needed: nat)
    returns (ok: bool, nextInode: nat, nextBlock: nat)
    requires needed == 1 + TotalCost(sorted) + SPARE_BLOCKS <= MAX_DATA_BLOCKS
    requires image.Length == BlockOffset(DATA_BLOCK_START + needed)
    requires Sound(image[..], EMPTY_PLAN)
    modifies image
    ensures ok ==> nextInode == |PlanOf(sorted).nodes| && FilesFit(sorted) && nextBlock + SPARE_BLOCKS <= needed
    ensures ok ==> DATA_BLOCK_START + nextBlock == EndBlock(PlanOf(sorted).nodes)
    ensures Proper(PlanOf(sorted).nodes) ==>
              (ok <==> FilesFit(sorted))
    ensures ok ==> Sound(image[..], PlanOf(sorted))
  {
    hide Holds, Proper, Backward, Place, Pointers, Sound, Cost;
    nextInode, nextBlock := 1, 1;
    var inodeOf := map[[SLASH] := 0];
    ghost var room, plan := TotalCost(sorted), EMPTY_PLAN;
    PlanParents([]);
    assert sorted[..0] == [] && sorted[0..] == sorted && FilesFit([]) && PlanOf([]) == EMPTY_PLAN;
    hide PlanOf, FilesFit, TotalCost;
    for n := 0 to |sorted|
      invariant plan == PlanOf(sorted[..n]) && Backward(plan)
      invariant room >= TotalCost(sorted[n..])
      invariant Ready(image.Length, plan, nextInode, nextBlock, room) && inodeOf == plan.inodeOf
      invariant FilesFit(sorted[..n]) && Sound(image[..], plan)
    {
      var e := sorted[n];
      PlanNext(sorted, n);
      FitsSnoc(sorted, n);
      var added;
      added, nextInode, nextBlock, inodeOf, room := AddEntry(image, e, nextInode, nextBlock, inodeOf, plan, room);
      plan := Place(plan, e);
      if !added {
        if Proper(PlanOf(sorted).nodes) { ProperDown(sorted, n + 1); }
        return false, nextInode, nextBlock;
      }
    }
    assert sorted[..|sorted|] == sorted;
    ok := true;
  }

  lemma UnchangedNode(a: seq<Byte>, b: seq<Byte>, nodes: seq<INode>, k: nat)
    requires Holds(a, nodes, |nodes|) && Proper(nodes) && k < |nodes| && |a| == |b|
    requires forall i | 0 <= i < |a| :: i < 4096 || BITMAP_OFFSET <= i < BITMAP_OFFSET + 4096 || b[i] == a[i]
    ensures NodeOk(b, nodes, |nodes|, k)
  {
    assert NodeOk(a, nodes, |nodes|, k);
    RecordFrame(a, b, k, nodes[k], SizeOf(nodes, |nodes|, k));
    BodyFrame(a, b, nodes, |nodes|, k);
  }

  method WriteSuperblock(image: array<Byte>, total: nat, inodes: nat, blocks: nat)
    requires 4096 <= image.Length && inodes <= INODE_COUNT && blocks <= total <= MAX_DATA_BLOCKS
    modifies image
    ensures SuperblockOk(image[..], total, inodes, blocks)
    ensures forall i | 0 <= i < image.Length :: i < 24 || image[i] == old(image[i])
  {
    CopyBytes(image, 0, MAGIC);
    ghost var a := image[..];
    WriteU16(image, 8, 1);
    WriteU16(image, 10, INODE_COUNT);
    WriteU16(image, 12, total);
    WriteU16(image, 14, 0);
    WriteU32(image, 16, INODE_COUNT - inodes);
    WriteU32(image, 20, total - blocks);
    assert image[..][..8] == MAGIC;
  }

  /** An image that holds `nodes` is finished by writing only block 0 and the bitmap block. */
  lemma Finished(a: seq<Byte>, d: seq<Byte>, nodes: seq<INode>, total: nat)
    requires Holds(a, nodes, |nodes|) && Proper(nodes) && |a| == |d| == BlockOffset(DATA_BLOCK_START + total)
    requires 0 < total <= MAX_DATA_BLOCKS && EndBlock(nodes) <= DATA_BLOCK_START + total
    requires forall i | 0 <= i < |a| :: i < 4096 || BITMAP_OFFSET <= i < BITMAP_OFFSET + 4096 || d[i] == a[i]
    requires SuperblockOk(d, total, |nodes|, EndBlock(nodes) - DATA_BLOCK_START)
    requires MarkedTo(d, SB_INODE_BITMAP, INODE_COUNT, |nodes|, INODE_COUNT)
    requires MarkedTo(d, BITMAP_OFFSET, total, EndBlock(nodes) - DATA_BLOCK_START, total)
    ensures Built(d, nodes, total)
  {
    forall k | 0 <= k < |nodes| ensures NodeOk(d, nodes, |nodes|, k) {
      UnchangedNode(a, d, nodes, k);
    }
  }

  lemma MarksKept(c: seq<Byte>, d: seq<Byte>, off: nat, n: nat, used: nat)
    requires |c| == |d| && 0 < n && off + (n - 1) / 8 < |c| && MarkedTo(c, off, n, used, n)
    requires forall i :: off <= i <= off + (n - 1) / 8 ==> c[i] == d[i]
    ensures MarkedTo(d, off, n, used, n)
  {
    forall j | 0 <= j < n ensures MapBit(d, off, j) == MapBit(c, off, j) {
    }
  }

  lemma SuperblockKept(b: seq<Byte>, d: seq<Byte>, total: nat, inodes: nat, blocks: nat)
    requires SuperblockOk(b, total, inodes, blocks) && |b| == |d|
    requires forall i :: 0 <= i < 24 ==> d[i] == b[i]
    ensures SuperblockOk(d, total, inodes, blocks)
  {
    assert d[..8] == b[..8];
  }

  /** Superblock and bitmaps. */
  method Finish(image: array<Byte>, total: nat, inodes: nat, blocks: nat, ghost nodes: seq<INode>)
    requires 0 < total <= MAX_DATA_BLOCKS && image.Length == BlockOffset(DATA_BLOCK_START + total)
    requires nodes != [] && inodes == |nodes| <= INODE_COUNT && DATA_BLOCK_START + blocks == EndBlock(nodes)
             && blocks <= total
    modifies image
    ensures old(Holds(image[..], nodes, |nodes|)) && Proper(nodes) ==> Built(image[..], nodes, total)
    ensures old(Pointers(image[..], nodes)) ==> Pointers(image[..], nodes)
  {
    ghost var a := image[..];
    WriteSuperblock(image, total, inodes, blocks);
    ghost var b := image[..];
    MarkFree(image, SB_INODE_BITMAP, INODE_COUNT, inodes);
    ghost var c := image[..];
    MarkFree(image, BITMAP_OFFSET, total, blocks);
    FinishKeeps(a, b, c, image[..], nodes, total);
  }

  lemma FinishKeeps(a: seq<Byte>, b: seq<Byte>, c: seq<Byte>, d: seq<Byte>, nodes: seq<INode>, total: nat)
    requires 0 < total <= MAX_DATA_BLOCKS && |a| == |b| == |c| == |d| == BlockOffset(DATA_BLOCK_START + total)
    requires nodes != [] && |nodes| <= INODE_COUNT && DATA_BLOCK_START <= EndBlock(nodes) <= DATA_BLOCK_START + total
    requires SuperblockOk(b, total, |nodes|, EndBlock(nodes) - DATA_BLOCK_START)
    requires forall i | 0 <= i < |a| :: i < 24 || b[i] == a[i]
    requires forall i | 0 <= i < |a| :: SB_INODE_BITMAP <= i <= SB_INODE_BITMAP + 31 || c[i] == b[i]
    requires forall i | 0 <= i < |a| :: BITMAP_OFFSET <= i <= BITMAP_OFFSET + (total - 1) / 8 || d[i] == c[i]
    requires Blank(b, SB_INODE_BITMAP, SB_INODE_BITMAP + 32) ==>
               MarkedTo(c, SB_INODE_BITMAP, INODE_COUNT, |nodes|, INODE_COUNT)
    requires Blank(c, BITMAP_OFFSET, BITMAP_OFFSET + (total - 1) / 8 + 1) ==>
               MarkedTo(d, BITMAP_OFFSET, total, EndBlock(nodes) - DATA_BLOCK_START, total)
    ensures Holds(a, nodes, |nodes|) && Proper(nodes) ==> Built(d, nodes, total)
    ensures Pointers(a, nodes) ==> Pointers(d, nodes)
  {
    if Pointers(a, nodes) {
      hide Blank, MarkedTo, SuperblockOk, EndBlock;
      PointersFrame(a, d, nodes, 0);
    }
    if Holds(a, nodes, |nodes|) && Proper(nodes) {
      assert Blank(a, 0, 4096) && Blank(a, BITMAP_OFFSET, BITMAP_OFFSET + 4096);
      hide Holds, Proper, NodeOk, SuperblockOk, Pointers, MarkedTo, EndBlock;
      SuperblockKept(b, d, total, |nodes|, EndBlock(nodes) - DATA_BLOCK_START);
      MarksKept(c, d, SB_INODE_BITMAP, INODE_COUNT, |nodes|);
      Finished(a, d, nodes, total);
    }
  }

  /** `build_fs_image` */
  method BuildFsImage(entries: seq<FsEntry>) returns (r: Option<seq<Byte>>)
    ensures r.Some? ==> TotalCost(entries) + 1 + SPARE_BLOCKS <= MAX_DATA_BLOCKS && FilesFit(entries)
    ensures r.Some? ==> |NodesOf(entries)| <= INODE_COUNT && Pointers(r.value, NodesOf(entries))
    ensures Proper(NodesOf(entries)) ==>
              && (r.Some? <==> TotalCost(entries) + 1 + SPARE_BLOCKS <= MAX_DATA_BLOCKS && FilesFit(entries))
              && (r.Some? ==> Built(r.value, NodesOf(entries), 1 + TotalCost(entries) + SPARE_BLOCKS))
  {
    hide *;
    ghost var plan := PlanOf(Sorted(entries));
    NodesPlanned(entries);
    var needed := NeededBlocks(entries);
    if needed > MAX_DATA_BLOCKS {
      return None;
    }
    var ok, image, nextInode, nextBlock := WriteEntries(entries, needed);
    if !ok || nextInode > INODE_COUNT {
      return None;
    }
    SoundMeans(image[..], plan);
    Finish(image, needed, nextInode, nextBlock, plan.nodes);
    r := Some(image[..]);
  }

  lemma NodesPlanned(entries: seq<FsEntry>)
    ensures NodesOf(entries) == PlanOf(Sorted(entries)).nodes
    ensures Proper(NodesOf(entries)) ==> |NodesOf(entries)| <= INODE_COUNT
  {
    hide PlanOf, Sorted, Dirents;
  }

  /** A blank image with the root and the entries written. */
  method WriteEntries(entries: seq<FsEntry>, needed: nat)
    returns (ok: bool, image: array<Byte>, nextInode: nat, nextBlock: nat)
    requires needed == 1 + TotalCost(entries) + SPARE_BLOCKS <= MAX_DATA_BLOCKS
    ensures fresh(image) && image.Length == BlockOffset(DATA_BLOCK_START + needed)
    ensures var plan := PlanOf(Sorted(entries));
            && (ok ==> nextInode == |plan.nodes| && FilesFit(entries) && nextBlock <= needed && Sound(image[..], plan))
            && (ok ==> DATA_BLOCK_START + nextBlock == EndBlock(plan.nodes))
            && (Proper(plan.nodes) ==> (ok <==> FilesFit(entries)))
  {
    hide Proper, PlanOf, EndBlock, TotalCost, Sorted, FilesFit, Sound;
    SortedFits(entries);
    image := new Byte[BlockOffset(DATA_BLOCK_START + needed)](_ => 0);
    WriteRoot(image);
    ok, nextInode, nextBlock := AddEntries(image, Sorted(entries), needed);
  }

  lemma SortedFits(entries: seq<FsEntry>)
    ensures TotalCost(Sorted(entries)) == TotalCost(entries) && (FilesFit(Sorted(entries)) <==> FilesFit(entries))
  {
    hide FilesFit, Sorted;
    SortedCounts(entries);
    FitPermuted(Sorted(entries), entries);
  }

  lemma SoundMeans(img: seq<Byte>, plan: Plan)
    requires plan.nodes != [] && Sound(img, plan)
    ensures Proper(plan.nodes) ==> Holds(img, plan.nodes, |plan.nodes|)
    ensures |plan.nodes| <= INODE_COUNT ==> Pointers(img, plan.nodes)
  {
  }

  lemma FitPermuted(a: seq<FsEntry>, b: seq<FsEntry>)
    requires multiset(a) == multiset(b)
    ensures FilesFit(a) <==> FilesFit(b)
  {
    forall i | 0 <= i < |a| ensures a[i] in b { assert a[i] in multiset(b); }
    forall i | 0 <= i < |b| ensures b[i] in a { assert b[i] in multiset(a); }
  }
}
