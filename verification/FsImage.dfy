/**
 The boot filesystem builder (`build_fs_image`): entries are sorted, planned into inodes, and
 written in place into one byte buffer. A panic of the original (a failed assertion or an
 out-of-range index) is the result `None`.
 */
module FsImage {
  import opened Common
  import opened FsLayout
  import opened FsSteps

  const TYPE_FILE: Byte := 1
  const TYPE_DIR: Byte := 2

  // ----- Paths -----

  /** Position of the last '/', or -1. */
  function LastSlash(path: Path): (p: int)
    ensures -1 <= p < |path|
    ensures 0 <= p ==> path[p] == SLASH
    ensures forall i :: p < i < |path| ==> path[i] != SLASH
  {
    if path == [] then -1
    else if path[|path| - 1] == SLASH then |path| - 1
    else LastSlash(path[..|path| - 1])
  }

  function ParentPath(path: Path): Path {
    var p := LastSlash(path);
    if p <= 0 then [SLASH] else path[..p]
  }

  function BaseName(path: Path): seq<Byte> {
    path[LastSlash(path) + 1..]
  }

  // ----- Order of processing: directories first, shorter paths first -----

  predicate LexLe(a: Path, b: Path) {
    if a == [] then true
    else if b == [] then false
    else if a[0] != b[0] then a[0] < b[0]
    else LexLe(a[1..], b[1..])
  }

  function Kind(e: FsEntry): nat {
    if e.Dir? then 0 else 1
  }

  predicate KeyLe(a: FsEntry, b: FsEntry) {
    if Kind(a) != Kind(b) then Kind(a) < Kind(b)
    else if |a.path| != |b.path| then |a.path| < |b.path|
    else LexLe(a.path, b.path)
  }

  function Insert(e: FsEntry, es: seq<FsEntry>): seq<FsEntry> {
    if es == [] || KeyLe(e, es[0]) then [e] + es else [es[0]] + Insert(e, es[1..])
  }

  /** The stable sort by (kind, path length, path). */
  function Sorted(es: seq<FsEntry>): seq<FsEntry> {
    if es == [] then [] else Insert(es[0], Sorted(es[1..]))
  }

  // ----- Planning -----

  function Data(e: FsEntry): seq<Byte> {
    if e.Dir? then [] else e.data
  }

  function Cost(e: FsEntry): nat {
    if e.Dir? then 1 else BlocksFor(|e.data|)
  }

  function TotalCost(es: seq<FsEntry>): nat {
    if es == [] then 0 else Cost(es[0]) + TotalCost(es[1..])
  }

  predicate IsRoot(e: FsEntry) {
    e == Dir([SLASH])
  }

  /** The inodes created so far and the inode of each path seen so far. */
  datatype Plan = Plan(nodes: seq<INode>, inodeOf: map<Path, nat>)

  const ROOT_NODE: INode := INode(true, 0, [SLASH], [], DATA_BLOCK_START)

  const EMPTY_PLAN: Plan := Plan([ROOT_NODE], map[[SLASH] := 0])

  function ParentInode(inodeOf: map<Path, nat>, path: Path): nat {
    var p := ParentPath(path);
    if p in inodeOf then inodeOf[p] else 0
  }

  /** A listed "/" adds nothing; any other entry becomes the next inode, under the root when its
      parent path is unknown. */
  function Place(plan: Plan, e: FsEntry): (r: Plan)
    requires plan.nodes != []
    ensures r.nodes != []
  {
    if IsRoot(e) then plan
    else
      var x := NewNode(e, ParentInode(plan.inodeOf, e.path), EndBlock(plan.nodes));
      Plan(plan.nodes + [x], plan.inodeOf[e.path := |plan.nodes|])
  }

  function PlanOf(es: seq<FsEntry>): (r: Plan)
    ensures r.nodes != []
  {
    if es == [] then EMPTY_PLAN else Place(PlanOf(es[..|es| - 1]), es[|es| - 1])
  }

  /** The inodes an image of `entries` holds. */
  function NodesOf(entries: seq<FsEntry>): (r: seq<INode>)
    ensures r != []
  {
    PlanOf(Sorted(entries)).nodes
  }

  // ----- Low-level writes -----

  method WriteU16(image: array<Byte>, off: nat, val: nat)
    requires off + 2 <= image.Length
    modifies image
    ensures val < 65536 ==> U16(image[..], off) == val
    ensures forall i | 0 <= i < image.Length :: off <= i < off + 2 || image[i] == old(image[i])
  {
    image[off] := val % 256;
    image[off + 1] := val / 256 % 256;
  }

  lemma U32Bytes(val: nat)
    requires val < 4294967296
    ensures val % 256 + 256 * (val / 256 % 256) + 65536 * (val / 65536 % 256) + 16777216 * (val / 16777216 % 256) == val
  {
    var a := val / 256;
    var b := a / 256;
    assert val / 65536 == b && val / 16777216 == b / 256;
  }

  method WriteU32(image: array<Byte>, off: nat, val: nat)
    requires off + 4 <= image.Length
    modifies image
    ensures val < 4294967296 ==> U32(image[..], off) == val
    ensures forall i | 0 <= i < image.Length :: off <= i < off + 4 || image[i] == old(image[i])
  {
    image[off] := val % 256;
    image[off + 1] := val / 256 % 256;
    image[off + 2] := val / 65536 % 256;
    image[off + 3] := val / 16777216 % 256;
    if val < 4294967296 { U32Bytes(val); }
  }

  /** `copy_from_slice` of `bytes` at `off` */
  method CopyBytes(image: array<Byte>, off: nat, bytes: seq<Byte>)
    requires off + |bytes| <= image.Length
    modifies image
    ensures forall j :: 0 <= j < |bytes| ==> image[off + j] == bytes[j]
    ensures forall i | 0 <= i < image.Length :: off <= i < off + |bytes| || image[i] == old(image[i])
  {
    for n := 0 to |bytes|
      invariant forall j :: 0 <= j < n ==> image[off + j] == bytes[j]
      invariant forall i | 0 <= i < image.Length :: off <= i < off + n || image[i] == old(image[i])
    {
      image[off + n] := bytes[n];
    }
  }

  method WriteName(image: array<Byte>, off: nat, name: seq<Byte>)
    requires off + 32 <= image.Length
    modifies image
    ensures NameField(image[..], off, Clip(name))
    ensures forall i | 0 <= i < image.Length :: off <= i < off + 32 || image[i] == old(image[i])
  {
    var bytes := name[..Min(|name|, 31)];
    CopyBytes(image, off, bytes);
    image[off + |bytes|] := 0;
  }

  // ----- One inode -----

  ghost predicate HeadOk(img: seq<Byte>, k: nat, ty: Byte, parent: nat, size: nat, name: seq<Byte>) {
    var o := InodeOffset(k);
    && o + 128 <= |img| && img[o] == ty
    && (parent < 65536 ==> U16(img, o + 2) == parent)
    && (size < 4294967296 ==> U32(img, o + 4) == size)
    && NameField(img, o + 8, Clip(name))
  }

  lemma HeadFrame(a: seq<Byte>, b: seq<Byte>, k: nat, ty: Byte, parent: nat, size: nat, name: seq<Byte>)
    requires HeadOk(a, k, ty, parent, size, name) && Same(a, b, InodeOffset(k), InodeOffset(k) + 40)
    ensures HeadOk(b, k, ty, parent, size, name)
  {
  }

  method WriteHead(image: array<Byte>, k: nat, ty: Byte, parent: nat, size: nat, name: seq<Byte>)
    requires InodeOffset(k) + 128 <= image.Length
    modifies image
    ensures HeadOk(image[..], k, ty, parent, size, name)
    ensures forall i | 0 <= i < image.Length :: InodeOffset(k) <= i < InodeOffset(k) + 40 || image[i] == old(image[i])
  {
    var off := InodeOffset(k);
    image[off] := ty;
    WriteU16(image, off + 2, parent);
    ghost var a := image[..];
    WriteU32(image, off + 4, size);
    ghost var b := image[..];
    assert U16(b, off + 2) == U16(a, off + 2);
    WriteName(image, off + 8, name);
    ghost var c := image[..];
    assert U16(c, off + 2) == U16(b, off + 2) && U32(c, off + 4) == U32(b, off + 4) && c[off] == ty;
  }

  lemma DirWritten(a: seq<Byte>, b: seq<Byte>, c: seq<Byte>, k: nat, x: INode)
    requires x.isDir && x.parent < 65536 && |a| == |b| == |c| && x.start < 65536
    requires DATA_BLOCK_START <= x.start && BlockOffset(x.start + 1) <= |a| && k < INODE_COUNT
    requires Blank(a, InodeOffset(k), InodeOffset(k) + 128) && Blank(a, BlockOffset(x.start), BlockOffset(x.start + 1))
    requires HeadOk(b, k, TYPE_DIR, x.parent, 0, x.name)
    requires forall i | 0 <= i < |a| :: InodeOffset(k) <= i < InodeOffset(k) + 40 || b[i] == a[i]
    requires forall i | 0 <= i < |a| :: InodeOffset(k) + 40 <= i < InodeOffset(k) + 42 || c[i] == b[i]
    requires U16(c, InodeOffset(k) + 40) == x.start
    ensures NewOk(c, k, x)
  {
    HeadFrame(b, c, k, TYPE_DIR, x.parent, 0, x.name);
    forall j | 0 <= j < MAX_DIRECT_BLOCKS ensures Slot(c, k, j) == if j < Blocks(x) then x.start + j else 0 {
    }
    forall e | 0 <= e < DIRENTS_PER_BLOCK ensures DirentFree(c, x.start, e) {
    }
  }

  method WriteDirInode(image: array<Byte>, k: nat, x: INode)
    requires x.isDir && InodeOffset(k) + 128 <= image.Length && BlockOffset(x.start + 1) <= image.Length
    requires DATA_BLOCK_START <= x.start < 65536
    modifies image
    ensures OnlyNew(old(image[..]), image[..], k, x)
    ensures k < INODE_COUNT && x.parent < 65536
            && old(Blank(image[..], InodeOffset(k), InodeOffset(k) + 128)
               && Blank(image[..], BlockOffset(x.start), BlockOffset(x.start + 1)))
            ==> NewOk(image[..], k, x)
    ensures k < INODE_COUNT && old(Blank(image[..], InodeOffset(k), InodeOffset(k) + 128)) ==> PointsAt(image[..], k, x)
  {
    ghost var a := image[..];
    WriteHead(image, k, TYPE_DIR, x.parent, 0, x.name);
    ghost var b := image[..];
    WriteU16(image, InodeOffset(k) + 40, x.start);
    ghost var c := image[..];
    if k < INODE_COUNT && x.parent < 65536
       && Blank(a, InodeOffset(k), InodeOffset(k) + 128) && Blank(a, BlockOffset(x.start), BlockOffset(x.start + 1)) {
      DirWritten(a, b, c, k, x);
    }
  }

  /** After `n` blocks of file `x` are written over `h`. */
  ghost predicate FilePartly(h: seq<Byte>, img: seq<Byte>, k: nat, x: INode, n: nat) {
    && |h| == |img| && InodeOffset(k) + 128 <= |img| && BlockOffset(x.start + n) <= |img| && n <= MAX_DIRECT_BLOCKS
    && (forall i | 0 <= i < |h| ::
          InodeOffset(k) + 40 <= i < InodeOffset(k) + 40 + 2 * n || BlockOffset(x.start) <= i < BlockOffset(x.start + n)
            || img[i] == h[i])
    && (k < INODE_COUNT ==> forall j :: 0 <= j < n ==> Slot(img, k, j) == x.start + j)
    && (k < INODE_COUNT ==> forall i :: 0 <= i < |x.data| && i < 4096 * n ==>
       img[BlockOffset(x.start) + i] == x.data[i])
  }

  /** One more block: its slot, then its chunk. */
  lemma FileAdvances(h: seq<Byte>, a: seq<Byte>, b: seq<Byte>, c: seq<Byte>, k: nat, x: INode, n: nat)
    requires FilePartly(h, a, k, x, n) && n < MAX_DIRECT_BLOCKS && |a| == |b| == |c|
    requires BlockOffset(x.start + n + 1) <= |a| && DATA_BLOCK_START <= x.start
    requires U16(b, InodeOffset(k) + 40 + 2 * n) == x.start + n
    requires forall i | 0 <= i < |a| :: InodeOffset(k) + 40 + 2 * n <= i < InodeOffset(k) + 42 + 2 * n || b[i] == a[i]
    requires forall i :: 4096 * n <= i < 4096 * n + 4096 && i < |x.data| ==> c[BlockOffset(x.start) + i] == x.data[i]
    requires forall i | 0 <= i < |a| :: BlockOffset(x.start + n) <= i < BlockOffset(x.start + n + 1) || c[i] == b[i]
    ensures FilePartly(h, c, k, x, n + 1)
  {
    if k < INODE_COUNT {
      forall j | 0 <= j < n + 1 ensures Slot(c, k, j) == x.start + j {
        if j < n {
          assert Slot(a, k, j) == x.start + j;
        }
      }
      forall i | 0 <= i < |x.data| && i < 4096 * (n + 1) ensures c[BlockOffset(x.start) + i] == x.data[i] {
        if i < 4096 * n {
          assert a[BlockOffset(x.start) + i] == x.data[i];
        }
      }
    }
  }

  lemma FileWritten(a: seq<Byte>, h: seq<Byte>, c: seq<Byte>, k: nat, x: INode)
    requires !x.isDir && x.parent < 65536 && |a| == |h| == |c| && |x.data| < 4294967296
    requires DATA_BLOCK_START <= x.start && Blocks(x) <= MAX_DIRECT_BLOCKS && k < INODE_COUNT
    requires Blank(a, InodeOffset(k), InodeOffset(k) + 128)
    requires HeadOk(h, k, TYPE_FILE, x.parent, |x.data|, x.name)
    requires forall i | 0 <= i < |a| :: InodeOffset(k) <= i < InodeOffset(k) + 40 || h[i] == a[i]
    requires FilePartly(h, c, k, x, Blocks(x))
    ensures NewOk(c, k, x)
  {
    HeadFrame(h, c, k, TYPE_FILE, x.parent, |x.data|, x.name);
    forall j | 0 <= j < MAX_DIRECT_BLOCKS ensures Slot(c, k, j) == if j < Blocks(x) then x.start + j else 0 {
    }
  }

  /** One block of file `x`: its slot in the record, then its chunk of the data. */
  method WriteFileBlock(image: array<Byte>, k: nat, x: INode, n: nat, ghost h: seq<Byte>)
    requires !x.isDir && InodeOffset(k) + 128 <= image.Length && BlockOffset(x.start + n + 1) <= image.Length
    requires DATA_BLOCK_START <= x.start && x.start + n < 65536 && n < Blocks(x) <= MAX_DIRECT_BLOCKS
    requires FilePartly(h, image[..], k, x, n)
    modifies image
    ensures FilePartly(h, image[..], k, x, n + 1)
  {
    hide FilePartly, U16;
    ghost var a := image[..];
    WriteU16(image, InodeOffset(k) + 40 + 2 * n, x.start + n);
    ghost var b := image[..];
    var lo := 4096 * n;
    var hi := Min(lo + 4096, |x.data|);
    if lo < |x.data| {
      CopyBytes(image, BlockOffset(x.start + n), x.data[lo..hi]);
      forall i | lo <= i < lo + 4096 && i < |x.data| ensures image[BlockOffset(x.start) + i] == x.data[i] {
        assert image[BlockOffset(x.start + n) + (i - lo)] == x.data[lo..hi][i - lo];
      }
    }
    FileAdvances(h, a, b, image[..], k, x, n);
  }

  method WriteFileInode(image: array<Byte>, k: nat, x: INode)
    requires !x.isDir && InodeOffset(k) + 128 <= image.Length && BlockOffset(x.start + Blocks(x)) <= image.Length
    requires DATA_BLOCK_START <= x.start && x.start + Blocks(x) < 65536 && Blocks(x) <= MAX_DIRECT_BLOCKS
    modifies image
    ensures OnlyNew(old(image[..]), image[..], k, x)
    ensures k < INODE_COUNT && x.parent < 65536 && old(Blank(image[..], InodeOffset(k), InodeOffset(k) + 128))
            ==> NewOk(image[..], k, x)
    ensures k < INODE_COUNT ==> PointsAt(image[..], k, x)
  {
    ghost var a := image[..];
    WriteHead(image, k, TYPE_FILE, x.parent, |x.data|, x.name);
    ghost var h := image[..];
    for n := 0 to Blocks(x)
      invariant FilePartly(h, image[..], k, x, n)
    {
      WriteFileBlock(image, k, x, n, h);
    }
    if k < INODE_COUNT && x.parent < 65536 && Blank(a, InodeOffset(k), InodeOffset(k) + 128) {
      FileWritten(a, h, image[..], k, x);
    }
  }

  // ----- Entering an inode in its directory -----

  method ReadU16(image: array<Byte>, off: nat) returns (v: nat)
    requires off + 2 <= image.Length
    ensures v == U16(image[..], off)
  {
    v := image[off] as int + 256 * image[off + 1] as int;
  }

  method ReadU32(image: array<Byte>, off: nat) returns (v: nat)
    requires off + 4 <= image.Length
    ensures v == U32(image[..], off)
  {
    v := image[off] as int + 256 * image[off + 1] as int
         + 65536 * image[off + 2] as int + 16777216 * image[off + 3] as int;
  }

  /** What `add_dirent` does to image `a`, by the size field and block of directory `dir`. */
  ghost predicate DirentAdded(a: seq<Byte>, b: seq<Byte>, dir: nat, d: Dirent, ok: bool)
    requires InodeOffset(dir) + 128 <= |a| == |b|
  {
    var count, blk := U32(a, InodeOffset(dir) + 4), U16(a, InodeOffset(dir) + 40);
    && (ok <==> BlockOffset(blk) + 36 * count + 34 <= |a|)
    && (forall i | 0 <= i < |a| ::
          InodeOffset(dir) + 4 <= i < InodeOffset(dir) + 8 || BlockOffset(blk) <= i || b[i] == a[i])
    && (count < DIRENTS_PER_BLOCK && InodeOffset(dir) + 128 <= BlockOffset(blk) <= |a| - 36 * count - 36 ==>
          && OnlyEntry(a, b, dir, blk, count)
          && DirentOk(b, blk, count, d)
          && U32(b, InodeOffset(dir) + 4) == count + 1)
  }

  lemma DirentWritten(o: seq<Byte>, a: seq<Byte>, b: seq<Byte>, c: seq<Byte>, dir: nat, blk: nat, count: nat, d: Dirent)
    requires |o| == |a| == |b| == |c| && InodeOffset(dir) + 128 <= BlockOffset(blk)
             && BlockOffset(blk) + 36 * count + 36 <= |a|
    requires var de := BlockOffset(blk) + 36 * count;
             && NameField(a, de, d.name) && U16(b, de + 32) == d.inode
             && (forall i | 0 <= i < |a| :: de <= i < de + 32 || a[i] == o[i])
             && (forall i | 0 <= i < |a| :: de + 32 <= i < de + 34 || b[i] == a[i])
             && (forall i | 0 <= i < |a| :: InodeOffset(dir) + 4 <= i < InodeOffset(dir) + 8 || c[i] == b[i])
    ensures DirentOk(c, blk, count, d) && OnlyEntry(o, c, dir, blk, count)
  {
    var de := BlockOffset(blk) + 36 * count;
    assert forall i :: de <= i < de + 32 ==> c[i] == a[i];
    assert NameField(c, de, d.name) && U16(c, de + 32) == U16(b, de + 32);
  }

  /** `add_dirent`: appends to the directory's block at the position given by its size field, with
      no check that the block has room. */
  method AddDirent(image: array<Byte>, dir: nat, child: nat, name: seq<Byte>) returns (ok: bool)
    requires InodeOffset(dir) + 128 <= image.Length && child < 65536
    modifies image
    ensures DirentAdded(old(image[..]), image[..], dir, Dirent(Clip(name), child), ok)
  {
    hide NameField, Clip, DirentOk, OnlyEntry;
    ghost var o := image[..];
    var off := InodeOffset(dir);
    var count := ReadU32(image, off + 4);
    var blk := ReadU16(image, off + 40);
    var de := BlockOffset(blk) + 36 * count;
    if de + 34 > image.Length {
      return false;
    }
    WriteName(image, de, name);
    ghost var a := image[..];
    WriteU16(image, de + 32, child);
    ghost var b := image[..];
    WriteU32(image, off + 4, (count + 1) % 4294967296);
    ok := true;
    if off + 128 <= BlockOffset(blk) && de + 36 <= image.Length && count < DIRENTS_PER_BLOCK {
      DirentWritten(o, a, b, image[..], dir, blk, count, Dirent(Clip(name), child));
    }
  }

  // ----- One entry -----

  lemma SlotZero(img: seq<Byte>, k: nat, node: INode, size: nat)
    requires RecordOk(img, k, node, size)
    ensures U16(img, InodeOffset(k) + 40) == node.start && U32(img, InodeOffset(k) + 4) == size
  {
    assert Slot(img, k, 0) == node.start;
  }

  /** Directory `p` of inode `n` as `AddDirent` finds it: its block and its next free entry. */
  ghost predicate Located(b: seq<Byte>, nodes: seq<INode>, n: nat, p: nat) {
    && n < |nodes| && p < |nodes|
    && InodeOffset(p) + 128 <= BlockOffset(nodes[p].start) && BlockOffset(nodes[p].start + 1) <= |b|
    && U16(b, InodeOffset(p) + 40) == nodes[p].start
    && U32(b, InodeOffset(p) + 4) == |Dirents(nodes, n, p)| < DIRENTS_PER_BLOCK
  }

  lemma ParentLocated(b: seq<Byte>, nodes: seq<INode>, n: nat, p: nat)
    requires Holds(b, nodes, n) && n < |nodes| && p == nodes[n].parent && nodes[p].isDir
    requires |Dirents(nodes, n, p)| < DIRENTS_PER_BLOCK
    ensures Located(b, nodes, n, p)
  {
    assert NodeOk(b, nodes, n, p);
    SlotZero(b, p, nodes[p], SizeOf(nodes, n, p));
    assert nodes[p].start + Blocks(nodes[p]) <= EndBlock(nodes);
  }

  lemma RoomForEntry(nodes: seq<INode>, n: nat, p: nat)
    requires 1 <= n < |nodes| && p == nodes[n].parent && |Dirents(nodes, |nodes|, p)| <= DIRENTS_PER_BLOCK
    ensures |Dirents(nodes, n, p)| < DIRENTS_PER_BLOCK
  {
    hide Clip;
    assert |Dirents(nodes, n + 1, p)| == |Dirents(nodes, n, p)| + 1;
    DirentsGrow(nodes, n + 1, |nodes|, p);
  }

  lemma EntryFits(nodes: seq<INode>, n: nat)
    requires Proper(nodes) && 1 <= n < |nodes|
    ensures nodes[n].parent < |nodes| && nodes[nodes[n].parent].isDir
    ensures |Dirents(nodes, n, nodes[n].parent)| < DIRENTS_PER_BLOCK
  {
    hide Dirents;
    assert InDirectory(nodes, n);
    RoomForEntry(nodes, n, nodes[n].parent);
  }

  /** The entry goes into the parent directory's next free slot. */
  lemma EntryLocated(b: seq<Byte>, c: seq<Byte>, nodes: seq<INode>, n: nat, p: nat, ok: bool)
    requires Located(b, nodes, n, p) && p == nodes[n].parent && |b| == |c|
    requires DirentAdded(b, c, p, Dirent(Clip(nodes[n].name), n), ok)
    ensures ok && Entered(b, c, nodes, n)
  {
    hide Dirents;
  }

  /** Record `k` and the blocks of `x` are unused. */
  ghost predicate Vacant(img: seq<Byte>, k: nat, x: INode) {
    && k < INODE_COUNT && x.parent < 65536
    && Blank(img, InodeOffset(k), InodeOffset(k) + 128)
    && Blank(img, BlockOffset(x.start), BlockOffset(x.start + Blocks(x)))
  }

  lemma NextVacant(a: seq<Byte>, nodes: seq<INode>, x: INode)
    requires Holds(a, nodes, |nodes|) && |nodes| < INODE_COUNT && x.start == EndBlock(nodes) && x.parent < |nodes|
    requires BlockOffset(x.start + Blocks(x)) <= |a|
    ensures Vacant(a, |nodes|, x)
  {
  }

  /** What writing inode `k` does to image `a`. */
  ghost predicate Wrote(a: seq<Byte>, b: seq<Byte>, k: nat, x: INode) {
    && OnlyNew(a, b, k, x) && (Vacant(a, k, x) ==> NewOk(b, k, x))
    && (k < INODE_COUNT && Blank(a, InodeOffset(k), InodeOffset(k) + 128) ==> PointsAt(b, k, x))
  }

  method WriteInode(image: array<Byte>, k: nat, x: INode)
    requires InodeOffset(k) + 128 <= image.Length && BlockOffset(x.start + Blocks(x)) <= image.Length
    requires DATA_BLOCK_START <= x.start && x.start + Blocks(x) < 65536 && Blocks(x) <= MAX_DIRECT_BLOCKS
    modifies image
    ensures Wrote(old(image[..]), image[..], k, x)
  {
    hide NewOk, PointsAt, Blank, OnlyNew;
    if x.isDir {
      WriteDirInode(image, k, x);
    } else {
      WriteFileInode(image, k, x);
    }
  }

  /** Writing the next inode: what the image then holds, and where the entry goes. */
  lemma InodeWritten(a: seq<Byte>, b: seq<Byte>, nodes: seq<INode>, x: INode)
    requires Holds(a, nodes, |nodes|) && Proper(nodes + [x])
    requires x.start == EndBlock(nodes) && x.parent < |nodes| && Blocks(x) <= MAX_DIRECT_BLOCKS
    requires BlockOffset(x.start + Blocks(x)) <= |a|
    requires OnlyNew(a, b, |nodes|, x) && (Vacant(a, |nodes|, x) ==> NewOk(b, |nodes|, x))
    ensures Holds(b, nodes + [x], |nodes|) && Located(b, nodes + [x], |nodes|, x.parent)
  {
    ProperPrefix(nodes, x);
    NextVacant(a, nodes, x);
    PlaceInode(a, b, nodes, x);
    assert (nodes + [x])[|nodes|] == x;
    EntryFits(nodes + [x], |nodes|);
    ParentLocated(b, nodes + [x], |nodes|, x.parent);
  }

  /** Space and counters before an entry is added. */
  ghost predicate Ready(len: nat, plan: Plan, nextInode: nat, nextBlock: nat, room: nat) {
    && plan.nodes != [] && nextInode == |plan.nodes| && DATA_BLOCK_START + nextBlock == EndBlock(plan.nodes)
    && nextInode <= nextBlock
    && DATA_BLOCK_START + nextBlock + room + SPARE_BLOCKS <= 650
       && len == BlockOffset(DATA_BLOCK_START + nextBlock + room + SPARE_BLOCKS)
    && (forall p :: p in plan.inodeOf ==> plan.inodeOf[p] < |plan.nodes|)
  }

  /** Adding inode `x` keeps what image `a` held while the limits of the format are respected, and its
      block pointers while that of the inode table is. */
  ghost predicate Added(a: seq<Byte>, c: seq<Byte>, nodes: seq<INode>, x: INode, ok: bool) {
    && (Holds(a, nodes, |nodes|) && Proper(nodes + [x]) ==> ok && Holds(c, nodes + [x], |nodes| + 1))
    && (Pointers(a, nodes) && |nodes| < INODE_COUNT ==> Pointers(c, nodes + [x]))
  }

  /** Writes inode `k` and enters it in its parent directory. */
  method AddInode(image: array<Byte>, k: nat, x: INode, ghost nodes: seq<INode>) returns (ok: bool)
    requires nodes != [] && k == |nodes| < 65536 && x.parent < k && x.start == EndBlock(nodes)
    requires InodeOffset(k) + 128 <= image.Length && BlockOffset(x.start + Blocks(x)) <= image.Length
    requires DATA_BLOCK_START <= x.start && x.start + Blocks(x) < 65536 && Blocks(x) <= MAX_DIRECT_BLOCKS
    modifies image
    ensures Added(old(image[..]), image[..], nodes, x, ok)
  {
    assert InodeOffset(x.parent) + 128 <= image.Length;
    hide *;
    ghost var a := image[..];
    WriteInode(image, k, x);
    ghost var b := image[..];
    ok := AddDirent(image, x.parent, k, x.name);
    InodeAdded(a, b, image[..], nodes, x, ok);
  }

  lemma InodeAdded(a: seq<Byte>, b: seq<Byte>, c: seq<Byte>, nodes: seq<INode>, x: INode, ok: bool)
    requires nodes != [] && x.parent < |nodes| && x.start == EndBlock(nodes) && |a| == |b| == |c|
    requires InodeOffset(x.parent) + 128 <= |a| && BlockOffset(x.start + Blocks(x)) <= |a|
    requires DATA_BLOCK_START <= x.start && Blocks(x) <= MAX_DIRECT_BLOCKS
    requires Wrote(a, b, |nodes|, x) && DirentAdded(b, c, x.parent, Dirent(Clip(x.name), |nodes|), ok)
    ensures Added(a, c, nodes, x, ok)
  {
    hide Holds, Proper, Pointers, OnlyNew, NewOk, Vacant, DirentAdded, Blank, PointsAt, Clip, EndBlock, Blocks;
    if Holds(a, nodes, |nodes|) && Proper(nodes + [x]) {
      HoldsAdded(a, b, c, nodes, x, ok);
    }
    if Pointers(a, nodes) && |nodes| < INODE_COUNT {
      PointersWritten(a, b, nodes, x);
      PointersEntered(b, c, nodes + [x], x.parent, Dirent(Clip(x.name), |nodes|), ok);
    }
  }

  lemma HoldsAdded(a: seq<Byte>, b: seq<Byte>, c: seq<Byte>, nodes: seq<INode>, x: INode, ok: bool)
    requires Holds(a, nodes, |nodes|) && Proper(nodes + [x]) && |a| == |b| == |c|
    requires x.parent < |nodes| && x.start == EndBlock(nodes) && Blocks(x) <= MAX_DIRECT_BLOCKS
    requires InodeOffset(x.parent) + 128 <= |a| && BlockOffset(x.start + Blocks(x)) <= |a|
    requires Wrote(a, b, |nodes|, x) && DirentAdded(b, c, x.parent, Dirent(Clip(x.name), |nodes|), ok)
    ensures ok && Holds(c, nodes + [x], |nodes| + 1)
  {
    assert (nodes + [x])[|nodes|] == x;
    hide Holds, Proper, OnlyNew, NewOk, Vacant, DirentAdded, Blank, PointsAt, Clip, EndBlock, Blocks, Located, Entered;
    InodeWritten(a, b, nodes, x);
    EntryLocated(b, c, nodes + [x], |nodes|, x.parent, ok);
    EnterInode(b, c, nodes + [x], |nodes|);
  }

  lemma PointersWritten(a: seq<Byte>, b: seq<Byte>, nodes: seq<INode>, x: INode)
    requires Pointers(a, nodes) && |nodes| < INODE_COUNT && DATA_BLOCK_START <= x.start && OnlyNew(a, b, |nodes|, x)
    requires Blank(a, InodeOffset(|nodes|), InodeOffset(|nodes|) + 128) ==> PointsAt(b, |nodes|, x)
    ensures Pointers(b, nodes + [x])
  {
    hide PointsAt;
    PointersPlace(a, b, nodes, x);
  }

  lemma PointersEntered(b: seq<Byte>, c: seq<Byte>, nodes: seq<INode>, dir: nat, d: Dirent, ok: bool)
    requires Pointers(b, nodes) && dir < |nodes| && |b| == |c| && InodeOffset(dir) + 128 <= |b|
    requires DirentAdded(b, c, dir, d, ok)
    ensures Pointers(c, nodes)
  {
    assert PointsAt(b, dir, nodes[dir]);
    assert U16(b, InodeOffset(dir) + 40) == Slot(b, dir, 0);
    PointersFrame(b, c, nodes, dir);
  }

  /** Parents precede their children. */
  ghost predicate Backward(plan: Plan) {
    && (forall k :: 0 < k < |plan.nodes| ==> plan.nodes[k].parent < k)
    && (forall p :: p in plan.inodeOf ==> plan.inodeOf[p] < |plan.nodes|)
  }

  /** While the plan respects the limits of the format, the image holds it; while it respects that of the
      inode table, its records point at their blocks. */
  ghost predicate Sound(img: seq<Byte>, plan: Plan)
    requires plan.nodes != []
  {
    && (Proper(plan.nodes) ==> Holds(img, plan.nodes, |plan.nodes|))
    && (|plan.nodes| <= INODE_COUNT ==> Pointers(img, plan.nodes))
  }

  function NewNode(e: FsEntry, parent: nat, start: nat): INode {
    INode(e.Dir?, parent, BaseName(e.path), Data(e), start)
  }

  lemma ReadyStep(len: nat, plan: Plan, e: FsEntry, nextInode: nat, nextBlock: nat, room: nat)
    requires !IsRoot(e) && room >= Cost(e) && Ready(len, plan, nextInode, nextBlock, room)
    ensures var x := NewNode(e, ParentInode(plan.inodeOf, e.path), DATA_BLOCK_START + nextBlock);
            && x.parent < nextInode && Blocks(x) == Cost(e)
               && Place(plan, e) == Plan(plan.nodes + [x], plan.inodeOf[e.path := nextInode])
            && InodeOffset(nextInode) + 128 <= len && BlockOffset(x.start + Blocks(x)) <= len
            && Ready(len, Place(plan, e), nextInode + 1, nextBlock + Cost(e), room - Cost(e))
  {
  }

  /** The body of the loop over the sorted entries. */
  method AddEntry(image: array<Byte>, e: FsEntry, nextInode: nat, nextBlock: nat, inodeOf: map<Path, nat>,
                  ghost plan: Plan, ghost room: nat)
    returns (ok: bool, inodes: nat, blocks: nat, paths: map<Path, nat>, ghost left: nat)
    requires inodeOf == plan.inodeOf && room >= Cost(e) && Ready(image.Length, plan, nextInode, nextBlock, room)
    requires Backward(plan) && Sound(image[..], plan)
    modifies image
    ensures left + Cost(e) >= room && Ready(image.Length, Place(plan, e), inodes, blocks, left)
    ensures paths == Place(plan, e).inodeOf
    ensures ok ==> Sound(image[..], Place(plan, e)) && Cost(e) <= MAX_DIRECT_BLOCKS
    ensures Proper(Place(plan, e).nodes) && Cost(e) <= MAX_DIRECT_BLOCKS ==> ok
  {
    hide Holds, Proper, Pointers;
    if IsRoot(e) {
      return true, nextInode, nextBlock, inodeOf, room;
    }
    var x := NewNode(e, ParentInode(inodeOf, e.path), DATA_BLOCK_START + nextBlock);
    inodes, blocks, paths, left := nextInode + 1, nextBlock + Blocks(x), inodeOf[e.path := nextInode], room - Cost(e);
    ReadyStep(image.Length, plan, e, nextInode, nextBlock, room);
    ok := Blocks(x) <= MAX_DIRECT_BLOCKS;
    if ok {
      assert Proper(plan.nodes + [x]) ==> Holds(image[..], plan.nodes, |plan.nodes|) by {
        if Proper(plan.nodes + [x]) { ProperPrefix(plan.nodes, x); }
      }
      ok := AddInode(image, nextInode, x, plan.nodes);
    }
  }
}
