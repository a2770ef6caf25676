/**
 The inspector's software Sv39 walk, next to the translation algorithm of sections 4.3.2 and 4.4.1
 of the RISC-V Privileged Architecture (version 20211203) without its permission and access checks.
 */
module Sv39 {
  import opened Common

  type Word = bv64

  /** The eight bytes at a physical address, as one little-endian number. */
  type Memory = Word -> Word

  type Level = i: Word | i < 3

  // ----- The architecture -----

  /** `va.vpn[i]` */
  function Vpn(va: Word, i: Level): Word {
    if i == 0 then (va >> 12) & 0x1ff else if i == 1 then (va >> 21) & 0x1ff else (va >> 30) & 0x1ff
  }

  function PageOffset(a: Word): Word {
    a & 0xfff
  }

  predicate Valid(pte: Word) { pte & 0x1 != 0 }
  predicate Readable(pte: Word) { pte & 0x2 != 0 }
  predicate Writable(pte: Word) { pte & 0x4 != 0 }
  predicate Executable(pte: Word) { pte & 0x8 != 0 }
  predicate Leaf(pte: Word) { Readable(pte) || Executable(pte) }

  /** `pte.ppn[j]`: 9, 9 and 26 bits. */
  function PtePpn(pte: Word, j: Level): Word {
    if j == 0 then (pte >> 10) & 0x1ff else if j == 1 then (pte >> 19) & 0x1ff else (pte >> 28) & 0x3ff_ffff
  }

  /** A physical address: its four fields side by side. */
  function Physical(ppn2: Word, ppn1: Word, ppn0: Word, offset: Word): Word {
    (ppn2 << 30) | (ppn1 << 21) | (ppn0 << 12) | offset
  }

  /** Write without read; bits 63 to 54; the user, accessed and dirty bits of a pointer to a table. */
  predicate Reserved(pte: Word) {
    (Writable(pte) && !Readable(pte)) || pte >> 54 != 0 || (!Leaf(pte) && pte & 0xd0 != 0)
  }

  predicate Misaligned(pte: Word, i: Level) {
    (i >= 1 && PtePpn(pte, 0) != 0) || (i == 2 && PtePpn(pte, 1) != 0)
  }

  /** Step 8: fields below the leaf's level come from the virtual address. */
  function LeafAddress(pte: Word, va: Word, i: Level): Word {
    var ppn1 := if i == 2 then Vpn(va, 1) else PtePpn(pte, 1);
    var ppn0 := if i >= 1 then Vpn(va, 0) else PtePpn(pte, 0);
    Physical(PtePpn(pte, 2), ppn1, ppn0, PageOffset(va))
  }

  function TableAddress(pte: Word): Word {
    Physical(PtePpn(pte, 2), PtePpn(pte, 1), PtePpn(pte, 0), 0)
  }

  /** Step 2: where entry `vpn` of the table at `a` lies; PTESIZE is 8. */
  function PteAddress(a: Word, vpn: Word): Word {
    a + vpn * 8
  }

  /** Steps 2 to 8 */
  function ReferenceWalk(mem: Memory, a: Word, va: Word, i: Level): Option<Word>
    decreases i
  {
    var pte := mem(PteAddress(a, Vpn(va, i)));
    if !Valid(pte) || Reserved(pte) then None
    else if Leaf(pte) then (if Misaligned(pte, i) then None else Some(LeafAddress(pte, va, i)))
    else if i == 0 then None
    else ReferenceWalk(mem, TableAddress(pte), va, i - 1)
  }

  /** Bits 63 to 39 all equal bit 38. */
  predicate CanonicalVa(va: Word) {
    va >> 38 == 0 || va >> 38 == 0x3ff_ffff
  }

  function Reference(mem: Memory, root: Word, va: Word): Option<Word> {
    if CanonicalVa(va) then ReferenceWalk(mem, root, va, 2) else None
  }

  // ----- The inspector -----

  function Shift(level: Level): Word {
    12 + 9 * level
  }

  function Index(va: Word, level: Level): Word {
    (va >> Shift(level)) & 0x1ff
  }

  /** `table + vpn * 8` */
  function EntryAt(table: Word, vpn: Word): Word {
    table + vpn * 8
  }

  /** `page_off_mask` */
  function Mask(level: Level): Word {
    (1 << Shift(level)) - 1
  }

  predicate Present(pte: Word) { pte & 1 != 0 }

  predicate Terminal(pte: Word) { (pte >> 1) & 1 != 0 || (pte >> 3) & 1 != 0 }

  /** `ppn << 12` */
  function Frame(pte: Word): Word {
    ((pte >> 10) & 0xfff_ffff_ffff) << 12
  }

  function Low(a: Word, level: Level): Word {
    a & Mask(level)
  }

  function Combine(pte: Word, va: Word, level: Level): Word {
    Frame(pte) | Low(va, level)
  }

  /** What one run of the loop from `level` down returns. */
  function Walk(mem: Memory, table: Word, va: Word, level: Level): Option<Word>
    decreases level
  {
    var pte := mem(EntryAt(table, Index(va, level)));
    if !Present(pte) then None
    else if Terminal(pte) then Some(Combine(pte, va, level))
    else if level == 0 then None
    else Walk(mem, Frame(pte), va, level - 1)
  }

  /** `translate_sv39` */
  method TranslateSv39(mem: Memory, root: Word, va: Word) returns (r: Option<Word>)
    ensures r == Walk(mem, root, va, 2)
  {
    hide EntryAt, Index, Present, Terminal, Frame, Combine;
    var table := root;
    var level: Word := 3;
    while level > 0
      invariant level <= 3
      invariant level > 0 ==> Walk(mem, table, va, level - 1) == Walk(mem, root, va, 2)
      invariant level == 0 ==> Walk(mem, root, va, 2) == None
    {
      level := level - 1;
      var pte := mem(EntryAt(table, Index(va, level)));
      if !Present(pte) {
        return None;
      }
      if Terminal(pte) {
        return Some(Combine(pte, va, level));
      }
      table := Frame(pte);
    }
    return None;
  }

  // ----- The two agree bit by bit -----

  lemma ShiftIs(i: Level)
    ensures Shift(i) == if i == 0 then 12 else if i == 1 then 21 else 30
  {
  }

  lemma IndexBits(va: Word, i: Level)
    ensures Index(va, i) == Vpn(va, i)
  {
    ShiftIs(i);
    hide Shift;
  }

  /** Both walks read the same entry. */
  lemma EntryBits(table: Word, vpn: Word)
    ensures EntryAt(table, vpn) == PteAddress(table, vpn)
  {
  }

  lemma MaskIs(i: Level)
    ensures Mask(i) == if i == 0 then 0xfff else if i == 1 then 0x1f_ffff else 0x3fff_ffff
  {
    ShiftIs(i);
    hide Shift;
  }

  lemma FlagBits(pte: Word)
    ensures Present(pte) <==> Valid(pte)
    ensures Terminal(pte) <==> Leaf(pte)
  {
  }

  lemma FrameBits(pte: Word)
    ensures Frame(pte) == TableAddress(pte)
  {
  }

  lemma Combine4K(pte: Word, va: Word)
    ensures Combine(pte, va, 0) == LeafAddress(pte, va, 0)
  {
    FrameBits(pte);
    MaskIs(0);
    hide Mask, Frame, PtePpn;
  }

  lemma Combine2M(pte: Word, va: Word)
    requires !Misaligned(pte, 1)
    ensures Combine(pte, va, 1) == LeafAddress(pte, va, 1)
  {
    MaskIs(1);
    hide Mask;
  }

  lemma Combine1G(pte: Word, va: Word)
    requires !Misaligned(pte, 2)
    ensures Combine(pte, va, 2) == LeafAddress(pte, va, 2)
  {
    FrameBits(pte);
    MaskIs(2);
    LowFields(va);
    hide Mask, Frame, PtePpn, Vpn, PageOffset;
  }

  lemma LowFields(va: Word)
    ensures va & 0x3fff_ffff == (Vpn(va, 1) << 21) | (Vpn(va, 0) << 12) | PageOffset(va)
  {
  }

  /** With an aligned frame, or-ing the offset in is replacing the low fields. */
  lemma CombineBits(pte: Word, va: Word, i: Level)
    requires !Misaligned(pte, i)
    ensures Combine(pte, va, i) == LeafAddress(pte, va, i)
  {
    hide Combine, LeafAddress, Misaligned;
    if i == 0 { Combine4K(pte, va); } else if i == 1 { Combine2M(pte, va); } else { Combine1G(pte, va); }
  }

  // ----- The inspector against the architecture -----

  /** No valid entry on the walk uses a reserved encoding or is a misaligned superpage. */
  predicate Regular(mem: Memory, table: Word, va: Word, level: Level)
    decreases level
  {
    var pte := mem(PteAddress(table, Vpn(va, level)));
    Valid(pte) ==>
      && !Reserved(pte) && (Leaf(pte) ==> !Misaligned(pte, level))
      && (!Leaf(pte) && level > 0 ==> Regular(mem, TableAddress(pte), va, level - 1))
  }

  /** The walk finds what the architecture finds, or goes on where the architecture faults. */
  lemma {:induction false} WalkExact(mem: Memory, table: Word, va: Word, level: Level)
    ensures Regular(mem, table, va, level) ==> Walk(mem, table, va, level) == ReferenceWalk(mem, table, va, level)
    ensures !Regular(mem, table, va, level) ==> ReferenceWalk(mem, table, va, level) == None
    ensures Walk(mem, table, va, level) == None ==> ReferenceWalk(mem, table, va, level) == None
    decreases level
  {
    hide Index, EntryAt, PteAddress, Vpn, Present, Terminal, Frame, Combine, LeafAddress, TableAddress, Misaligned,
         Reserved, Valid, Leaf;
    var pte := mem(PteAddress(table, Vpn(va, level)));
    IndexBits(va, level);
    EntryBits(table, Vpn(va, level));
    FlagBits(pte);
    FrameBits(pte);
    if !Misaligned(pte, level) { CombineBits(pte, va, level); }
    if level > 0 { WalkExact(mem, TableAddress(pte), va, level - 1); }
  }

  /** The inspector agrees with the architecture exactly when the tables hold no leaf for the address, or
      the address is canonical and the entries on its way are regular. */
  lemma AgreesExactly(mem: Memory, root: Word, va: Word)
    ensures Walk(mem, root, va, 2) == Reference(mem, root, va) <==>
            LeafFound(mem, root, va, 2).None? || (CanonicalVa(va) && Regular(mem, root, va, 2))
  {
    hide Walk, ReferenceWalk, Regular, CanonicalVa, LeafFound;
    WalkExact(mem, root, va, 2);
    RegionLeaf(mem, root, va, va, 2);
  }

  /** Memory whose every word is one page-table entry. */
  function Uniform(pte: Word): Memory {
    a => pte
  }

  /** The inspector translates an address on which the architecture faults. */
  ghost predicate Wrong(pte: Word, va: Word) {
    Walk(Uniform(pte), 0, va, 2).Some? && Reference(Uniform(pte), 0, va) == None
  }

  /** Bit 63 set alone, under a gigabyte leaf. */
  lemma NoncanonicalTranslated()
    ensures Wrong(0xf, 0x8000_0000_0000_0000)
  {
    hide Combine, EntryAt, Index, ReferenceWalk;
  }

  /** A leaf that may be written and executed and not read, which is reserved. */
  lemma ReservedTranslated()
    ensures Wrong(0xd, 0)
  {
    hide Combine, EntryAt, Index, LeafAddress;
  }

  /** A gigabyte leaf at physical page 1. */
  lemma MisalignedTranslated()
    ensures Wrong(0x40f, 0)
  {
    hide Combine, EntryAt, Index, LeafAddress;
  }

  /** Every valid entry of the table, and of the tables under it, is regular. */
  ghost predicate RegularTable(mem: Memory, table: Word, level: Level)
    decreases level
  {
    forall vpn: Word :: vpn < 512 ==>
      var pte := mem(PteAddress(table, vpn));
      Valid(pte) ==>
        && !Reserved(pte) && (Leaf(pte) ==> !Misaligned(pte, level))
        && (!Leaf(pte) && level > 0 ==> RegularTable(mem, TableAddress(pte), level - 1))
  }

  lemma VpnSmall(va: Word, i: Level)
    ensures Vpn(va, i) < 512
  {
  }

  lemma {:induction false} TableRegular(mem: Memory, table: Word, va: Word, level: Level)
    requires RegularTable(mem, table, level)
    ensures Regular(mem, table, va, level)
    decreases level
  {
    VpnSmall(va, level);
    hide PteAddress, Vpn, Valid, Reserved, Leaf, Misaligned, TableAddress;
    var pte := mem(PteAddress(table, Vpn(va, level)));
    if Valid(pte) && !Leaf(pte) && level > 0 { TableRegular(mem, TableAddress(pte), va, level - 1); }
  }

  /** Over a regular page table the inspector is the architecture on every canonical address. */
  lemma RegularAgrees(mem: Memory, root: Word, va: Word)
    requires RegularTable(mem, root, 2) && CanonicalVa(va)
    ensures Walk(mem, root, va, 2) == Reference(mem, root, va)
  {
    hide Walk, ReferenceWalk, Regular, CanonicalVa, RegularTable;
    TableRegular(mem, root, va, 2);
    AgreesExactly(mem, root, va);
  }

  // ----- Offsets inside a leaf -----

  /** The leaf entry the walk ends at, with its level. */
  function LeafFound(mem: Memory, table: Word, va: Word, level: Level): Option<(Word, Level)>
    decreases level
  {
    var pte := mem(EntryAt(table, Index(va, level)));
    if !Present(pte) then None
    else if Terminal(pte) then Some((pte, level))
    else if level == 0 then None
    else LeafFound(mem, Frame(pte), va, level - 1)
  }

  /** Two addresses in one 4 KiB, 2 MiB or 1 GiB region. */
  predicate SameRegion(va: Word, other: Word, i: Level) {
    High(va, i) == High(other, i)
  }

  function High(a: Word, i: Level): Word {
    a >> Shift(i)
  }

  function RegionBase(va: Word, i: Level): Word {
    va & !Mask(i)
  }

  lemma RegionIndex(va: Word, other: Word, i: Level, j: Level)
    requires SameRegion(va, other, i) && i <= j
    ensures Index(va, j) == Index(other, j)
  {
    ShiftIs(i);
    ShiftIs(j);
    hide Shift;
  }

  lemma {:induction false} RegionLeaf(mem: Memory, table: Word, va: Word, other: Word, level: Level)
    ensures var leaf := LeafFound(mem, table, va, level);
            && (leaf.None? <==> Walk(mem, table, va, level).None?)
            && (leaf.Some? ==> leaf.value.1 <= level)
            && (leaf.Some? && SameRegion(va, other, leaf.value.1) ==>
                Walk(mem, table, other, level) == Some(Combine(leaf.value.0, other, leaf.value.1)))
    decreases level
  {
    var pte := mem(EntryAt(table, Index(va, level)));
    hide EntryAt, Index, Present, Terminal, Frame, Combine, SameRegion;
    if Present(pte) && !Terminal(pte) && level > 0 { RegionLeaf(mem, Frame(pte), va, other, level - 1); }
    var leaf := LeafFound(mem, table, va, level);
    if leaf.Some? && SameRegion(va, other, leaf.value.1) { RegionIndex(va, other, leaf.value.1, level); }
  }

  lemma FrameLow(pte: Word, i: Level)
    ensures Misaligned(pte, i) <==> Low(Frame(pte), i) != 0
  {
    MaskIs(i);
    hide Mask;
  }

  lemma OrHigh(f: Word, va: Word)
    ensures (f | (va & 0xfff)) >> 12 == f >> 12
    ensures (f | (va & 0x1f_ffff)) >> 21 == f >> 21
    ensures (f | (va & 0x3fff_ffff)) >> 30 == f >> 30
  {
  }

  lemma CombineHigh(pte: Word, va: Word, i: Level)
    ensures High(Combine(pte, va, i), i) == High(Frame(pte), i)
  {
    OrHigh(Frame(pte), va);
    MaskIs(i);
    ShiftIs(i);
    hide Mask, Shift, Frame;
    if i == 0 {
      assert Low(va, i) == va & 0xfff;
    } else if i == 1 {
      assert Low(va, i) == va & 0x1f_ffff;
    } else {
      assert Low(va, i) == va & 0x3fff_ffff;
    }
  }

  lemma OrLow(f: Word, va: Word, m: Word)
    ensures f & m == 0 ==> (f | (va & m)) & m == va & m
    ensures f & m != 0 ==> (f | (va & !m & m)) & m != va & !m & m
  {
  }

  lemma CombineLow(pte: Word, va: Word, i: Level)
    ensures !Misaligned(pte, i) ==> Low(Combine(pte, va, i), i) == Low(va, i)
    ensures var base := RegionBase(va, i); Misaligned(pte, i) ==> Low(Combine(pte, base, i), i) != Low(base, i)
  {
    hide Mask, Frame, Misaligned;
    FrameLow(pte, i);
    OrLow(Frame(pte), va, Mask(i));
  }

  lemma RegionStart(va: Word, i: Level)
    ensures SameRegion(va, RegionBase(va, i), i) && SameRegion(va, va, i)
  {
    MaskIs(i);
    ShiftIs(i);
    hide Mask, Shift;
  }

  /** The offset of `va` in its leaf is kept. */
  ghost predicate KeepsOffset(mem: Memory, root: Word, va: Word, i: Level) {
    var pa := Walk(mem, root, va, 2);
    pa.Some? && Low(pa.value, i) == Low(va, i)
  }

  /** `va` is mapped into the frame that starts at `frame`. */
  ghost predicate InFrame(mem: Memory, root: Word, va: Word, i: Level, frame: Word) {
    var pa := Walk(mem, root, va, 2);
    pa.Some? && High(pa.value, i) == High(frame, i)
  }

  /** A leaf maps its whole region into one frame, and keeps every offset exactly when it is aligned. */
  lemma LeafExact(mem: Memory, root: Word, va: Word, pte: Word, i: Level)
    requires LeafFound(mem, root, va, 2) == Some((pte, i))
    ensures forall other :: SameRegion(va, other, i) ==> InFrame(mem, root, other, i, Frame(pte))
    ensures !Misaligned(pte, i) <==> forall other :: SameRegion(va, other, i) ==> KeepsOffset(mem, root, other, i)
  {
    hide LeafFound, Walk, Misaligned, Frame, Low, High, SameRegion, Combine, RegionBase;
    forall other | SameRegion(va, other, i)
      ensures InFrame(mem, root, other, i, Frame(pte)) && (!Misaligned(pte, i) ==> KeepsOffset(mem, root, other, i))
    {
      RegionLeaf(mem, root, va, other, 2);
      CombineHigh(pte, other, i);
      CombineLow(pte, other, i);
    }
    var base := RegionBase(va, i);
    RegionStart(va, i);
    RegionLeaf(mem, root, va, base, 2);
    CombineLow(pte, va, i);
  }
}
