/**
 The two steps by which the builder adds an inode, on images as values: writing the inode with
 its blocks, and entering it in its parent directory. Each step only changes its own bytes, so
 everything the image already held survives.
 */
module FsSteps {
  import opened Common
  import opened FsLayout

  /** The new inode's record and blocks are the only bytes that differ. */
  ghost predicate OnlyNew(a: seq<Byte>, b: seq<Byte>, k: nat, x: INode) {
    && |a| == |b|
    && forall i | 0 <= i < |a| ::
         InodeOffset(k) <= i < InodeOffset(k) + 128 || BlockOffset(x.start) <= i < BlockOffset(x.start + Blocks(x))
           || b[i] == a[i]
  }

  /** The new inode as written, before anything is entered in it. */
  ghost predicate NewOk(b: seq<Byte>, k: nat, x: INode) {
    && RecordOk(b, k, x, if x.isDir then 0 else |x.data|)
    && (if x.isDir then DirOk(b, x.start, []) else ContentOk(b, x.start, x.data))
  }

  lemma OrderedAppend(nodes: seq<INode>, x: INode)
    requires Ordered(nodes) && x.start == EndBlock(nodes) && x.parent < |nodes| && Blocks(x) <= MAX_DIRECT_BLOCKS
    ensures Ordered(nodes + [x]) && EndBlock(nodes + [x]) == x.start + Blocks(x)
  {
    var all := nodes + [x];
    assert EndBlock(all) == x.start + Blocks(x);
    assert forall k :: 0 <= k < |nodes| ==> all[k] == nodes[k];
    forall k | 0 < k < |all| ensures Adjacent(all, k) {
      if k < |nodes| { assert Adjacent(nodes, k); }
    }
  }

  lemma OldKept(a: seq<Byte>, b: seq<Byte>, nodes: seq<INode>, x: INode, k: nat)
    requires Holds(a, nodes, |nodes|) && |nodes| < INODE_COUNT && Proper(nodes)
    requires x.start == EndBlock(nodes) && k < |nodes|
    requires OnlyNew(a, b, |nodes|, x)
    ensures NodeOk(b, nodes + [x], |nodes|, k)
  {
    assert NodeOk(a, nodes, |nodes|, k);
    DirentsPrefix(nodes, x, |nodes|, k);
    RecordFrame(a, b, k, nodes[k], SizeOf(nodes, |nodes|, k));
    BodyFrame(a, b, nodes, |nodes|, k);
  }

  lemma BlanksKept(a: seq<Byte>, b: seq<Byte>, nodes: seq<INode>, x: INode)
    requires Holds(a, nodes, |nodes|) && |nodes| < INODE_COUNT
    requires x.start == EndBlock(nodes) && OnlyNew(a, b, |nodes|, x)
    requires BlockOffset(x.start + Blocks(x)) <= |a|
    ensures Blank(b, 0, 4096)
    ensures Blank(b, InodeOffset(|nodes| + 1), BlockOffset(DATA_BLOCK_START))
    ensures Blank(b, BlockOffset(x.start + Blocks(x)), |b|)
  {
  }

  lemma NewPlaced(b: seq<Byte>, nodes: seq<INode>, x: INode)
    requires Ordered(nodes) && NewOk(b, |nodes|, x)
    ensures NodeOk(b, nodes + [x], |nodes|, |nodes|)
  {
    DirentsPrefix(nodes, x, |nodes|, |nodes|);
    NoEntriesYet(nodes, |nodes|, |nodes|);
    assert (nodes + [x])[|nodes|] == x;
  }

  /** Step one keeps what the image held and adds the new inode, not yet entered anywhere. */
  lemma PlaceInode(a: seq<Byte>, b: seq<Byte>, nodes: seq<INode>, x: INode)
    requires Holds(a, nodes, |nodes|) && |nodes| < INODE_COUNT && Proper(nodes)
    requires x.start == EndBlock(nodes) && x.parent < |nodes| && Blocks(x) <= MAX_DIRECT_BLOCKS
    requires BlockOffset(x.start + Blocks(x)) <= |a|
    requires OnlyNew(a, b, |nodes|, x) && NewOk(b, |nodes|, x)
    ensures Holds(b, nodes + [x], |nodes|)
  {
    var all, n := nodes + [x], |nodes|;
    OrderedAppend(nodes, x);
    BlanksKept(a, b, nodes, x);
    forall k | 0 <= k < |all| ensures NodeOk(b, all, n, k) {
      if k < n { OldKept(a, b, nodes, x, k); } else { NewPlaced(b, nodes, x); }
    }
  }

  /** The next entry of directory `p` and the size field of its record are the only bytes that
      differ. */
  ghost predicate OnlyEntry(a: seq<Byte>, b: seq<Byte>, p: nat, start: nat, e: nat) {
    && |a| == |b|
    && forall i | 0 <= i < |a| ::
         InodeOffset(p) + 4 <= i < InodeOffset(p) + 8
           || BlockOffset(start) + 36 * e <= i < BlockOffset(start) + 36 * e + 36 || b[i] == a[i]
  }

  lemma OthersKept(a: seq<Byte>, b: seq<Byte>, nodes: seq<INode>, n: nat, p: nat, e: nat, k: nat)
    requires Holds(a, nodes, n) && p < |nodes| && nodes[p].isDir && e < DIRENTS_PER_BLOCK
    requires k < |nodes| && k != p
    requires nodes[k].isDir ==> |Dirents(nodes, n, k)| <= DIRENTS_PER_BLOCK
    requires OnlyEntry(a, b, p, nodes[p].start, e)
    ensures NodeOk(b, nodes, n, k)
  {
    assert NodeOk(a, nodes, n, k);
    RecordFrame(a, b, k, nodes[k], SizeOf(nodes, n, k));
    BodyFrame(a, b, nodes, n, k);
  }

  lemma SizeBumped(a: seq<Byte>, b: seq<Byte>, p: nat, node: INode, size: nat, start: nat, e: nat)
    requires RecordOk(a, p, node, size) && OnlyEntry(a, b, p, start, e)
    requires InodeOffset(p) + 128 <= BlockOffset(start) && U32(b, InodeOffset(p) + 4) == size + 1
    ensures RecordOk(b, p, node, size + 1)
  {
    forall j | 0 <= j < MAX_DIRECT_BLOCKS ensures Slot(b, p, j) == Slot(a, p, j) {
    }
  }

  lemma EntryAdded(a: seq<Byte>, b: seq<Byte>, p: nat, start: nat, ds: seq<Dirent>, d: Dirent)
    requires DirOk(a, start, ds) && |ds| < DIRENTS_PER_BLOCK
    requires OnlyEntry(a, b, p, start, |ds|) && InodeOffset(p) + 128 <= BlockOffset(start)
    requires DirentOk(b, start, |ds|, d)
    ensures DirOk(b, start, ds + [d])
  {
    forall e | 0 <= e < |ds| ensures DirentOk(b, start, e, ds[e]) {
      assert DirentOk(a, start, e, ds[e]);
    }
    forall e | |ds| + 1 <= e < DIRENTS_PER_BLOCK ensures DirentFree(b, start, e) {
      assert DirentFree(a, start, e);
    }
  }

  /** The bytes written to enter inode `n` in its parent directory. */
  ghost predicate Entered(a: seq<Byte>, b: seq<Byte>, nodes: seq<INode>, n: nat)
    requires n < |nodes| && nodes[n].parent < |nodes|
  {
    var p := nodes[n].parent;
    var e := |Dirents(nodes, n, p)|;
    && OnlyEntry(a, b, p, nodes[p].start, e)
    && DirentOk(b, nodes[p].start, e, Dirent(Clip(nodes[n].name), n))
    && InodeOffset(p) + 128 <= |b| && U32(b, InodeOffset(p) + 4) == e + 1
  }

  lemma ParentUpdated(a: seq<Byte>, b: seq<Byte>, nodes: seq<INode>, n: nat, p: nat)
    requires n < |nodes| && p == nodes[n].parent < |nodes| && 1 <= n
    requires NodeOk(a, nodes, n, p) && nodes[p].isDir && Entered(a, b, nodes, n)
    requires p < INODE_COUNT && DATA_BLOCK_START <= nodes[p].start
    requires |Dirents(nodes, n, p)| < DIRENTS_PER_BLOCK
    ensures NodeOk(b, nodes, n + 1, p)
  {
    var ds, d := Dirents(nodes, n, p), Dirent(Clip(nodes[n].name), n);
    assert Dirents(nodes, n + 1, p) == ds + [d];
    SizeBumped(a, b, p, nodes[p], |ds|, nodes[p].start, |ds|);
    EntryAdded(a, b, p, nodes[p].start, ds, d);
  }

  lemma EntryBlanksKept(a: seq<Byte>, b: seq<Byte>, nodes: seq<INode>, n: nat)
    requires Holds(a, nodes, n) && n < |nodes| && nodes[nodes[n].parent].isDir
    requires |Dirents(nodes, n, nodes[n].parent)| < DIRENTS_PER_BLOCK && Entered(a, b, nodes, n)
    ensures Blank(b, 0, 4096)
    ensures Blank(b, InodeOffset(|nodes|), BlockOffset(DATA_BLOCK_START))
    ensures Blank(b, BlockOffset(EndBlock(nodes)), |b|)
  {
    assert nodes[nodes[n].parent].start + 1 <= EndBlock(nodes);
  }

  lemma EveryNodeKept(a: seq<Byte>, b: seq<Byte>, nodes: seq<INode>, n: nat, k: nat)
    requires Holds(a, nodes, n) && n < |nodes| && Proper(nodes) && Entered(a, b, nodes, n) && k < |nodes|
    requires |Dirents(nodes, n, nodes[n].parent)| < DIRENTS_PER_BLOCK
    ensures NodeOk(b, nodes, n + 1, k)
  {
    assert InDirectory(nodes, n);
    var p := nodes[n].parent;
    if k == p {
      assert NodeOk(a, nodes, n, p);
      ParentUpdated(a, b, nodes, n, p);
    } else {
      DirentsGrow(nodes, n, |nodes|, k);
      OthersKept(a, b, nodes, n, p, |Dirents(nodes, n, p)|, k);
      assert Dirents(nodes, n + 1, k) == Dirents(nodes, n, k);
    }
  }

  /** Step two enters inode `n` in its parent directory and changes nothing else the image holds. */
  lemma EnterInode(a: seq<Byte>, b: seq<Byte>, nodes: seq<INode>, n: nat)
    requires Holds(a, nodes, n) && n < |nodes| && Proper(nodes) && Entered(a, b, nodes, n)
    ensures Holds(b, nodes, n + 1)
  {
    var p, m := nodes[n].parent, n + 1;
    assert InDirectory(nodes, n);
    DirentsGrow(nodes, m, |nodes|, p);
    assert |Dirents(nodes, n, p)| < DIRENTS_PER_BLOCK;
    EntryBlanksKept(a, b, nodes, n);
    hide NodeOk, Entered, Proper, Dirents;
    forall k | 0 <= k < |nodes| ensures NodeOk(b, nodes, m, k) {
      EveryNodeKept(a, b, nodes, n, k);
    }
  }
}
