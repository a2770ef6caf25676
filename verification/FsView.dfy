/**
 The filesystem inspector (`fs_view`): decodes an image found in guest memory into a tree and
 previews files. Guest memory is a total function from addresses to bytes, as debug peeks are.
 Names are byte strings.
 */
module FsView {
  import opened Common

  type Memory = nat -> Byte

  const INODE_BLOCKS: nat := 44
  const DIRENTS_PER_BLOCK: nat := 113
  const NAME_LEN: nat := 32
  const MAGIC32: nat := 0x464C4C48
  const TYPE_DIR: nat := 2
  const MAX_DEPTH: nat := 16
  const MAX_NODES: nat := 1024
  const MAX_PREVIEW: nat := 8192
  const FD_TABLE_SLOTS: nat := 16

  /** Addresses of the kernel's filesystem globals. */
  datatype FsSymbols = FsSymbols(imageBase: nat, fdTable: nat)

  datatype FsNode = FsNode(inode: nat, name: seq<Byte>, isDir: bool, size: nat, openFds: nat, children: seq<FsNode>)

  function Peek(mem: Memory, pa: nat, len: nat): (bytes: seq<Byte>)
    ensures |bytes| == len && forall i :: 0 <= i < len ==> bytes[i] == mem(pa + i)
  {
    seq(len, i requires 0 <= i < len => mem(pa + i))
  }

  function Rd16(mem: Memory, pa: nat): nat {
    mem(pa) as int + 256 * mem(pa + 1) as int
  }

  function Rd32(mem: Memory, pa: nat): nat {
    mem(pa) as int + 256 * mem(pa + 1) as int + 65536 * mem(pa + 2) as int + 16777216 * mem(pa + 3) as int
  }

  function Rd64(mem: Memory, pa: nat): nat {
    Rd32(mem, pa) + 4294967296 * Rd32(mem, pa + 4)
  }

  /** The eight bytes at `pa` are `v`, least significant first. */
  ghost predicate HoldsWord(mem: Memory, pa: nat, v: nat) {
    v == mem(pa) + 0x100 * mem(pa + 1) + 0x1_0000 * mem(pa + 2) + 0x100_0000 * mem(pa + 3)
         + 0x1_0000_0000 * mem(pa + 4) + 0x100_0000_0000 * mem(pa + 5) + 0x1_0000_0000_0000 * mem(pa + 6)
         + 0x100_0000_0000_0000 * mem(pa + 7)
  }

  lemma WordRead(mem: Memory, pa: nat, v: nat)
    ensures HoldsWord(mem, pa, v) <==> Rd64(mem, pa) == v
  {
  }

  function InodePa(base: nat, idx: nat): nat {
    base + 4096 + 128 * idx
  }

  /** Block number in slot `slot` of the inode record at `ipa`. */
  function BlockAt(mem: Memory, ipa: nat, slot: nat): nat {
    Rd16(mem, ipa + 40 + 2 * slot)
  }

  function UntilNul(bytes: seq<Byte>): seq<Byte> {
    if bytes == [] || bytes[0] == 0 then [] else [bytes[0]] + UntilNul(bytes[1..])
  }

  function ReadName(mem: Memory, pa: nat): seq<Byte> {
    UntilNul(Peek(mem, pa, NAME_LEN))
  }

  function EntryPa(base: nat, blk: nat, ent: nat): nat {
    base + 4096 * blk + 36 * ent
  }

  function OpenCount(fds: map<nat, nat>, idx: nat): nat {
    if idx in fds then fds[idx] else 0
  }

  /** The decoded node and the node budget left over. */
  function NodeAt(mem: Memory, base: nat, idx: nat, name: seq<Byte>, depth: nat, fds: map<nat, nat>,
                  budget: nat): (FsNode, nat)
    decreases Max(MAX_DEPTH - depth, 0), 1, 0, 0
  {
    var ipa := InodePa(base, idx);
    var isDir := Rd16(mem, ipa) % 256 == TYPE_DIR;
    var size := Rd32(mem, ipa + 4);
    if !isDir || depth >= MAX_DEPTH then (FsNode(idx, name, isDir, size, OpenCount(fds, idx), []), budget)
    else
      var (children, left) := EntriesFrom(mem, base, ipa, 0, 0, depth, fds, budget);
      (FsNode(idx, name, isDir, size, OpenCount(fds, idx), children), left)
  }

  /** The live entries of a directory from entry `ent` of its block slot `slot` on. */
  function EntriesFrom(mem: Memory, base: nat, ipa: nat, slot: nat, ent: nat, depth: nat, fds: map<nat, nat>,
                       budget: nat): (seq<FsNode>, nat)
    requires depth < MAX_DEPTH && slot <= INODE_BLOCKS && ent <= DIRENTS_PER_BLOCK
    decreases MAX_DEPTH - depth, 0, INODE_BLOCKS - slot, DIRENTS_PER_BLOCK - ent
  {
    if slot == INODE_BLOCKS then ([], budget)
    else
      var blk := BlockAt(mem, ipa, slot);
      if blk == 0 then ([], budget)
      else if ent == DIRENTS_PER_BLOCK then EntriesFrom(mem, base, ipa, slot + 1, 0, depth, fds, budget)
      else if budget == 0 then ([], budget)
      else
        var de := EntryPa(base, blk, ent);
        var name := ReadName(mem, de);
        if name == [] then EntriesFrom(mem, base, ipa, slot, ent + 1, depth, fds, budget)
        else
          var (node, left) := NodeAt(mem, base, Rd16(mem, de + 32), name, depth + 1, fds, budget - 1);
          var (rest, left') := EntriesFrom(mem, base, ipa, slot, ent + 1, depth, fds, left);
          ([node] + rest, left')
  }

  /** The inner loop of `read_node`: one block of entries. `full` is the early return taken when the
      node budget is spent. */
  method ReadBlock(mem: Memory, base: nat, ipa: nat, slot: nat, depth: nat, fds: map<nat, nat>, found: seq<FsNode>,
                   budget: nat)
    returns (children: seq<FsNode>, left: nat, full: bool)
    requires depth < MAX_DEPTH && slot < INODE_BLOCKS && BlockAt(mem, ipa, slot) != 0
    ensures Joined(found, EntriesFrom(mem, base, ipa, slot, 0, depth, fds, budget)) ==
            if full then (children, left)
              else Joined(children, EntriesFrom(mem, base, ipa, slot + 1, 0, depth, fds, left))
    decreases MAX_DEPTH - depth, 0
  {
    hide NodeAt, EntriesFrom, Rd16, BlockAt, ReadName, Joined;
    children, left := found, budget;
    var blk := BlockAt(mem, ipa, slot);
    ghost var all := Joined(found, EntriesFrom(mem, base, ipa, slot, 0, depth, fds, budget));
    var ent := 0;
    while ent < DIRENTS_PER_BLOCK
      invariant 0 <= ent <= DIRENTS_PER_BLOCK
      invariant all == Joined(children, EntriesFrom(mem, base, ipa, slot, ent, depth, fds, left))
    {
      if left == 0 {
        EntriesEnd(mem, base, ipa, slot, ent, depth, fds, left, children);
        return children, left, true;
      }
      var de := EntryPa(base, blk, ent);
      var childName := ReadName(mem, de);
      EntryNext(mem, base, ipa, slot, ent, depth, fds, left, children);
      if childName != [] {
        var child, rest := ReadNode(mem, base, Rd16(mem, de + 32), childName, depth + 1, fds, left - 1);
        children, left := children + [child], rest;
      }
      ent := ent + 1;
    }
    BlockNext(mem, base, ipa, slot, depth, fds, left);
    full := false;
  }

  /** `read_node`: the walk with its loops and the shared budget. */
  method ReadNode(mem: Memory, base: nat, idx: nat, name: seq<Byte>, depth: nat, fds: map<nat, nat>, budget: nat)
    returns (node: FsNode, left: nat)
    ensures (node, left) == NodeAt(mem, base, idx, name, depth, fds, budget)
    decreases Max(MAX_DEPTH - depth, 0), 1
  {
    var ipa := InodePa(base, idx);
    var isDir := Rd16(mem, ipa) % 256 == TYPE_DIR;
    var size := Rd32(mem, ipa + 4);
    node, left := FsNode(idx, name, isDir, size, OpenCount(fds, idx), []), budget;
    if !isDir || depth >= MAX_DEPTH {
      return;
    }
    var children: seq<FsNode> := [];
    ghost var all := EntriesFrom(mem, base, ipa, 0, 0, depth, fds, budget);
    DirectoryNode(mem, base, idx, name, depth, fds, budget);
    assert children + all.0 == all.0;
    hide NodeAt, EntriesFrom, Rd16, BlockAt, Rd32, ReadName;
    var slot := 0;
    while slot < INODE_BLOCKS
      invariant 0 <= slot <= INODE_BLOCKS
      invariant all == Joined(children, EntriesFrom(mem, base, ipa, slot, 0, depth, fds, left))
    {
      var blk := BlockAt(mem, ipa, slot);
      if blk == 0 {
        break;
      }
      var full;
      children, left, full := ReadBlock(mem, base, ipa, slot, depth, fds, children, left);
      if full {
        node := node.(children := children);
        return;
      }
      slot := slot + 1;
    }
    EntriesEnd(mem, base, ipa, slot, 0, depth, fds, left, children);
    node := node.(children := children);
  }

  /** Children found so far, followed by those still to come. */
  ghost function Joined(children: seq<FsNode>, more: (seq<FsNode>, nat)): (seq<FsNode>, nat) {
    (children + more.0, more.1)
  }

  lemma EntriesStop(mem: Memory, base: nat, ipa: nat, slot: nat, ent: nat, depth: nat, fds: map<nat, nat>, budget: nat)
    requires depth < MAX_DEPTH && slot <= INODE_BLOCKS && ent <= DIRENTS_PER_BLOCK
    requires slot == INODE_BLOCKS || BlockAt(mem, ipa, slot) == 0 || (budget == 0 && ent < DIRENTS_PER_BLOCK)
    ensures EntriesFrom(mem, base, ipa, slot, ent, depth, fds, budget) == ([], budget)
  {
    hide BlockAt;
  }

  lemma EntriesEnd(mem: Memory, base: nat, ipa: nat, slot: nat, ent: nat, depth: nat, fds: map<nat, nat>, budget: nat,
                   children: seq<FsNode>)
    requires depth < MAX_DEPTH && slot <= INODE_BLOCKS && ent <= DIRENTS_PER_BLOCK
    requires slot == INODE_BLOCKS || BlockAt(mem, ipa, slot) == 0 || (budget == 0 && ent < DIRENTS_PER_BLOCK)
    ensures Joined(children, EntriesFrom(mem, base, ipa, slot, ent, depth, fds, budget)) == (children, budget)
  {
    hide BlockAt, EntriesFrom;
    EntriesStop(mem, base, ipa, slot, ent, depth, fds, budget);
    assert children + [] == children;
  }

  lemma BlockNext(mem: Memory, base: nat, ipa: nat, slot: nat, depth: nat, fds: map<nat, nat>, budget: nat)
    requires depth < MAX_DEPTH && slot < INODE_BLOCKS && BlockAt(mem, ipa, slot) != 0
    ensures EntriesFrom(mem, base, ipa, slot, DIRENTS_PER_BLOCK, depth, fds, budget) ==
            EntriesFrom(mem, base, ipa, slot + 1, 0, depth, fds, budget)
  {
    hide BlockAt;
  }

  lemma EntryStep(mem: Memory, base: nat, ipa: nat, slot: nat, ent: nat, depth: nat, fds: map<nat, nat>, budget: nat)
    requires depth < MAX_DEPTH && slot < INODE_BLOCKS && ent < DIRENTS_PER_BLOCK && budget > 0
    requires BlockAt(mem, ipa, slot) != 0
    ensures var de := EntryPa(base, BlockAt(mem, ipa, slot), ent);
            var name := ReadName(mem, de);
            var all := EntriesFrom(mem, base, ipa, slot, ent, depth, fds, budget);
            if name == [] then all == EntriesFrom(mem, base, ipa, slot, ent + 1, depth, fds, budget)
            else
              var (node, left) := NodeAt(mem, base, Rd16(mem, de + 32), name, depth + 1, fds, budget - 1);
              all == Joined([node], EntriesFrom(mem, base, ipa, slot, ent + 1, depth, fds, left))
  {
    hide Rd16, BlockAt, ReadName, NodeAt, EntryPa;
  }

  lemma EntryNext(mem: Memory, base: nat, ipa: nat, slot: nat, ent: nat, depth: nat, fds: map<nat, nat>, budget: nat,
                  children: seq<FsNode>)
    requires depth < MAX_DEPTH && slot < INODE_BLOCKS && ent < DIRENTS_PER_BLOCK && budget > 0
    requires BlockAt(mem, ipa, slot) != 0
    ensures var de := EntryPa(base, BlockAt(mem, ipa, slot), ent);
            var name := ReadName(mem, de);
            var all := Joined(children, EntriesFrom(mem, base, ipa, slot, ent, depth, fds, budget));
            if name == [] then all == Joined(children, EntriesFrom(mem, base, ipa, slot, ent + 1, depth, fds, budget))
            else
              var (node, left) := NodeAt(mem, base, Rd16(mem, de + 32), name, depth + 1, fds, budget - 1);
              all == Joined(children + [node], EntriesFrom(mem, base, ipa, slot, ent + 1, depth, fds, left))
  {
    hide Rd16, BlockAt, ReadName, NodeAt, EntryPa, EntriesFrom;
    EntryStep(mem, base, ipa, slot, ent, depth, fds, budget);
    var de := EntryPa(base, BlockAt(mem, ipa, slot), ent);
    if ReadName(mem, de) != [] {
      var (node, left) := NodeAt(mem, base, Rd16(mem, de + 32), ReadName(mem, de), depth + 1, fds, budget - 1);
      var rest := EntriesFrom(mem, base, ipa, slot, ent + 1, depth, fds, left).0;
      assert children + ([node] + rest) == children + [node] + rest;
    }
  }

  lemma DirectoryNode(mem: Memory, base: nat, idx: nat, name: seq<Byte>, depth: nat, fds: map<nat, nat>, budget: nat)
    requires depth < MAX_DEPTH && Rd16(mem, InodePa(base, idx)) % 256 == TYPE_DIR
    ensures var all := EntriesFrom(mem, base, InodePa(base, idx), 0, 0, depth, fds, budget);
            NodeAt(mem, base, idx, name, depth, fds, budget) ==
            (FsNode(idx, name, true, Rd32(mem, InodePa(base, idx) + 4), OpenCount(fds, idx), all.0), all.1)
  {
  }

  lemma LeafNode(mem: Memory, base: nat, idx: nat, name: seq<Byte>, depth: nat, fds: map<nat, nat>, budget: nat)
    requires depth >= MAX_DEPTH || Rd16(mem, InodePa(base, idx)) % 256 != TYPE_DIR
    ensures NodeAt(mem, base, idx, name, depth, fds, budget) ==
            (FsNode(idx, name, Rd16(mem, InodePa(base, idx)) % 256 == TYPE_DIR, Rd32(mem, InodePa(base, idx) + 4),
                    OpenCount(fds, idx), []), budget)
  {
  }

  // ----- Open files -----

  /** Slot `fd` of the file table is in use, for inode `idx`. */
  ghost predicate OpenAt(mem: Memory, table: nat, fd: nat, idx: nat) {
    !HoldsWord(mem, table + 32 * fd, 0) && HoldsWord(mem, table + 32 * fd + 8, idx)
  }

  /** Counts over the first `n` slots. */
  function OpenFds(mem: Memory, table: nat, n: nat): map<nat, nat> {
    if n == 0 then map[]
    else
      var counts, entry := OpenFds(mem, table, n - 1), table + 32 * (n - 1);
      if Rd64(mem, entry) == 0 then counts
      else
        var idx := Rd64(mem, entry + 8);
        counts[idx := OpenCount(counts, idx) + 1]
  }

  ghost function OpenSlots(mem: Memory, table: nat, n: nat, idx: nat): set<nat> {
    set fd: nat | fd < n && OpenAt(mem, table, fd, idx)
  }

  lemma OpenSlotsNext(mem: Memory, table: nat, n: nat, idx: nat)
    ensures OpenSlots(mem, table, 0, idx) == {}
    ensures OpenSlots(mem, table, n + 1, idx) ==
            OpenSlots(mem, table, n, idx) + if OpenAt(mem, table, n, idx) then {n} else {}
    ensures n !in OpenSlots(mem, table, n, idx)
  {
    hide OpenAt;
  }

  lemma NoneOpen(mem: Memory, table: nat, idx: nat)
    ensures OpenCount(OpenFds(mem, table, 0), idx) == |OpenSlots(mem, table, 0, idx)|
  {
    assert OpenSlots(mem, table, 0, idx) == {};
  }

  lemma Enlarged(slots: set<nat>, n: nat)
    ensures |slots + {}| == |slots| && (n !in slots ==> |slots + {n}| == |slots| + 1)
  {
    assert slots + {} == slots;
  }

  /** An inode's count is the number of slots in use for it. */
  lemma {:induction false} OpenFdsCount(mem: Memory, table: nat, n: nat, idx: nat)
    ensures OpenCount(OpenFds(mem, table, n), idx) == |OpenSlots(mem, table, n, idx)|
    decreases n
  {
    hide *;
    if n == 0 {
      NoneOpen(mem, table, idx);
    } else {
      OpenFdsCount(mem, table, n - 1, idx);
      OpenSlotsNext(mem, table, n - 1, idx);
      OneMore(mem, table, n - 1, idx);
      Enlarged(OpenSlots(mem, table, n - 1, idx), n - 1);
    }
  }

  lemma OneMore(mem: Memory, table: nat, n: nat, idx: nat)
    ensures OpenCount(OpenFds(mem, table, n + 1), idx) ==
            OpenCount(OpenFds(mem, table, n), idx) + if OpenAt(mem, table, n, idx) then 1 else 0
  {
    OpenIs(mem, table, n, idx);
    hide Rd64, OpenAt;
  }

  lemma OpenIs(mem: Memory, table: nat, fd: nat, idx: nat)
    ensures OpenAt(mem, table, fd, idx) <==>
            Rd64(mem, table + 32 * fd) != 0 && Rd64(mem, table + 32 * fd + 8) == idx
  {
    hide Rd64, HoldsWord;
    WordRead(mem, table + 32 * fd, 0);
    WordRead(mem, table + 32 * fd + 8, idx);
  }

  function OpenFiles(mem: Memory, sym: FsSymbols): map<nat, nat> {
    var table := Rd64(mem, sym.fdTable);
    if table == 0 then map[] else OpenFds(mem, table, FD_TABLE_SLOTS)
  }

  /** What the file-table global says: nothing is open without a table, and otherwise an inode's count is the
      number of the sixteen slots in use for it. */
  lemma OpenFilesCounted(mem: Memory, sym: FsSymbols, table: nat, idx: nat)
    requires HoldsWord(mem, sym.fdTable, table)
    ensures OpenCount(OpenFiles(mem, sym), idx) ==
            if table == 0 then 0 else |set fd: nat | fd < 16 && OpenAt(mem, table, fd, idx)|
  {
    WordRead(mem, sym.fdTable, table);
    hide Rd64, HoldsWord, OpenAt;
    OpenFdsCount(mem, table, 16, idx);
    assert OpenSlots(mem, table, 16, idx) == set fd: nat | fd < 16 && OpenAt(mem, table, fd, idx);
    hide OpenFds;
  }

  /** `open_fd_counts` */
  method OpenFdCounts(mem: Memory, sym: FsSymbols) returns (counts: map<nat, nat>)
    ensures counts == OpenFiles(mem, sym)
  {
    hide Rd64;
    counts := map[];
    var table := Rd64(mem, sym.fdTable);
    if table == 0 {
      return;
    }
    for fd := 0 to FD_TABLE_SLOTS
      invariant counts == OpenFds(mem, table, fd)
    {
      var entry := table + 32 * fd;
      if Rd64(mem, entry) != 0 {
        var idx := Rd64(mem, entry + 8);
        counts := counts[idx := OpenCount(counts, idx) + 1];
      }
    }
  }

  // ----- The inspector -----

  /** The walk of an image at `base`: nothing is shown without the right magic. */
  method CaptureAt(mem: Memory, base: nat, fds: map<nat, nat>) returns (root: Option<FsNode>)
    ensures root == if base == 0 || Rd32(mem, base) != MAGIC32 then None
                    else Some(NodeAt(mem, base, 0, [47], 0, fds, 1024).0)
  {
    if base == 0 || Rd32(mem, base) != MAGIC32 {
      return None;
    }
    var node, left := ReadNode(mem, base, 0, [47], 0, fds, MAX_NODES);
    root := Some(node);
  }

  /** `capture`: the image base and the open files are read from the kernel's globals. */
  method Capture(mem: Memory, sym: FsSymbols) returns (root: Option<FsNode>)
    ensures var base := Rd64(mem, sym.imageBase);
            root == if base == 0 || Rd32(mem, base) != MAGIC32 then None
                    else Some(NodeAt(mem, base, 0, [47], 0, OpenFiles(mem, sym), 1024).0)
  {
    hide NodeAt, OpenFiles, Rd32;
    var base := Rd64(mem, sym.imageBase);
    var fds := OpenFdCounts(mem, sym);
    root := CaptureAt(mem, base, fds);
  }

  /** The first `remaining` bytes found by walking an inode's blocks from slot `slot` on. */
  function FileBytes(mem: Memory, base: nat, ipa: nat, slot: nat, remaining: nat): seq<Byte>
    requires slot <= INODE_BLOCKS
    decreases INODE_BLOCKS - slot
  {
    if remaining == 0 || slot == INODE_BLOCKS then []
    else
      var blk := BlockAt(mem, ipa, slot);
      if blk == 0 then []
      else
        var take := Min(remaining, 4096);
        Peek(mem, base + 4096 * blk, take) + FileBytes(mem, base, ipa, slot + 1, remaining - take)
  }

  lemma FileNone(mem: Memory, base: nat, ipa: nat, slot: nat)
    requires slot <= INODE_BLOCKS
    ensures FileBytes(mem, base, ipa, slot, 0) == []
  {
  }

  lemma FileStep(mem: Memory, base: nat, ipa: nat, slot: nat, remaining: nat)
    requires slot < INODE_BLOCKS && remaining > 0 && BlockAt(mem, ipa, slot) != 0
    ensures var take := Min(remaining, 4096);
            FileBytes(mem, base, ipa, slot, remaining) ==
            Peek(mem, base + 4096 * BlockAt(mem, ipa, slot), take)
            + FileBytes(mem, base, ipa, slot + 1, remaining - take)
  {
    hide BlockAt;
  }

  lemma FileBlock(mem: Memory, base: nat, ipa: nat, slot: nat, remaining: nat, out: seq<Byte>)
    requires slot < INODE_BLOCKS && remaining > 0 && BlockAt(mem, ipa, slot) != 0
    ensures var take := Min(remaining, 4096);
            var chunk := Peek(mem, base + 4096 * BlockAt(mem, ipa, slot), take);
            out + FileBytes(mem, base, ipa, slot, remaining) ==
              out + chunk + FileBytes(mem, base, ipa, slot + 1, remaining - take)
  {
    hide BlockAt, FileBytes, Peek;
    FileStep(mem, base, ipa, slot, remaining);
  }

  lemma FileEnd(mem: Memory, base: nat, ipa: nat, slot: nat, remaining: nat, out: seq<Byte>)
    requires slot <= INODE_BLOCKS
    requires remaining == 0 || slot == INODE_BLOCKS || BlockAt(mem, ipa, slot) == 0
    ensures out + FileBytes(mem, base, ipa, slot, remaining) == out
  {
    hide BlockAt;
  }

  /** `read_file` */
  method ReadFile(mem: Memory, base: nat, idx: nat, size: nat) returns (out: seq<Byte>)
    ensures out == FileBytes(mem, base, InodePa(base, idx), 0, Min(size, MAX_PREVIEW))
  {
    hide FileBytes, Peek, BlockAt;
    var ipa := InodePa(base, idx);
    out := [];
    var remaining: nat := Min(size, MAX_PREVIEW);
    var slot := 0;
    ghost var whole := FileBytes(mem, base, ipa, 0, remaining);
    assert whole == [] + whole;
    while slot < INODE_BLOCKS
      invariant 0 <= slot <= INODE_BLOCKS
      invariant out + FileBytes(mem, base, ipa, slot, remaining) == whole
    {
      if remaining == 0 {
        break;
      }
      var blk := BlockAt(mem, ipa, slot);
      if blk == 0 {
        break;
      }
      var take := Min(remaining, 4096);
      FileBlock(mem, base, ipa, slot, remaining, out);
      out := out + Peek(mem, base + 4096 * blk, take);
      remaining := remaining - take;
      slot := slot + 1;
    }
    FileEnd(mem, base, ipa, slot, remaining, out);
  }

  /** `file_preview`: the image base is read from the kernel's global. */
  method FilePreview(mem: Memory, sym: FsSymbols, node: FsNode) returns (out: seq<Byte>)
    ensures var base := Rd64(mem, sym.imageBase);
            out == if node.isDir then []
                   else FileBytes(mem, base, InodePa(base, node.inode), 0, Min(node.size, MAX_PREVIEW))
  {
    hide Rd64;
    if node.isDir {
      return [];
    }
    var base := Rd64(mem, sym.imageBase);
    out := ReadFile(mem, base, node.inode, node.size);
  }
}
