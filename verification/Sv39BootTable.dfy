/**
  The boot page table of RISC-V (platforms/axplat-riscv64-qemu-virt/src/boot.rs): four raw Sv39
  root entries. The walk follows section 4.4 of the RISC-V Privileged Architecture v20211203 for a
  supervisor access; words are numbers, their bits are taken apart by division.
 */
module Sv39BootTable {
  import opened Arithmetic
  import opened Words

  const GIB: nat := 0x4000_0000
  const PHYS_VIRT_OFFSET: nat := 0xffff_ffc0_0000_0000
  const ROOT_LENGTH: nat := 512

  type Root = t: seq<u64> | |t| == ROOT_LENGTH witness seq(ROOT_LENGTH, _ => 0)

  datatype Access = Read | Write | Execute

  predicate BitSet(word: nat, weight: nat)
    requires weight > 0
  {
    word / weight % 2 == 1
  }

  // Permission and status bits of a page table entry.
  predicate Valid(pte: nat) { BitSet(pte, 1) }
  predicate Readable(pte: nat) { BitSet(pte, 2) }
  predicate Writable(pte: nat) { BitSet(pte, 4) }
  predicate Executable(pte: nat) { BitSet(pte, 8) }
  predicate UserPage(pte: nat) { BitSet(pte, 0x10) }
  predicate Accessed(pte: nat) { BitSet(pte, 0x40) }
  predicate Dirty(pte: nat) { BitSet(pte, 0x80) }

  /** The physical page number, bits 53..10. */
  function Ppn(pte: nat): nat { pte / 0x400 % 0x1000_0000_0000 }

  /** Bits 63..39 equal bit 38. */
  predicate Canonical(vaddr: nat) { vaddr / 0x40_0000_0000 == 0 || vaddr / 0x40_0000_0000 == 0x3ff_ffff }

  predicate Permits(pte: nat, access: Access) {
    && !UserPage(pte)
    && Accessed(pte)
    && match access
       case Read => Readable(pte)
       case Write => Writable(pte) && Dirty(pte)
       case Execute => Executable(pte)
  }

  /** A root entry as a one-gigabyte leaf: its page number must be aligned to the gigabyte. */
  predicate UsableLeaf(pte: nat, access: Access) {
    && Valid(pte)
    && (Readable(pte) || Executable(pte))
    && !(Writable(pte) && !Readable(pte))
    && Ppn(pte) % 0x4_0000 == 0
    && Permits(pte, access)
  }

  /** The root entry that serves an address. */
  function IndexOf(vaddr: nat): nat { vaddr / GIB % ROOT_LENGTH }

  /** The walk; an entry that points to a further table ends it, as the boot table has none. */
  function Walk(root: Root, vaddr: u64, access: Access): Option<nat> {
    var pte := root[IndexOf(vaddr)];
    if Canonical(vaddr) && UsableLeaf(pte, access) then Some(Ppn(pte) / 0x4_0000 * GIB + vaddr % GIB) else None
  }

  /** `(ppn << 10) | 0xef` */
  function LeafWord(ppn: nat): nat { ppn * 0x400 + 0xef }

  /** The source writes the word with a shift and an or. */
  lemma LeafWordBits()
    ensures ((((0x80000 as bv64) << 10) | 0xef) as nat) == LeafWord(0x80000)
    ensures ((((0x0 as bv64) << 10) | 0xef) as nat) == LeafWord(0)
  {
  }

  lemma LeavesUsable(access: Access)
    ensures UsableLeaf(LeafWord(0), access) && Ppn(LeafWord(0)) == 0
    ensures UsableLeaf(LeafWord(0x80000), access) && Ppn(LeafWord(0x80000)) / 0x4_0000 == 2
    ensures !UsableLeaf(0, access)
  {
  }

  function EmptyRoot(): Root { seq(ROOT_LENGTH, _ => 0) }

  function BootRoot(root: Root): Root {
    root[0 := LeafWord(0)][2 := LeafWord(0x80000)][0x100 := LeafWord(0)][0x102 := LeafWord(0x80000)]
  }

  /** The physical gigabytes the boot table maps: the device space and the memory. */
  predicate Mapped(paddr: nat) { paddr < GIB || 2 * GIB <= paddr < 3 * GIB }

  /** The intended map: both gigabytes at their own addresses and at the linear offset. */
  function BootTarget(vaddr: u64): Option<nat> {
    if Mapped(vaddr) then Some(vaddr)
    else if vaddr >= PHYS_VIRT_OFFSET && Mapped(vaddr - PHYS_VIRT_OFFSET) then Some(vaddr - PHYS_VIRT_OFFSET)
    else None
  }

  /** The four windows are the canonical addresses that the four written entries serve. */
  lemma WindowsAreEntries(vaddr: u64)
    requires Canonical(vaddr)
    ensures IndexOf(vaddr) == 0 <==> vaddr < GIB
    ensures IndexOf(vaddr) == 2 <==> 2 * GIB <= vaddr < 3 * GIB
    ensures IndexOf(vaddr) == 0x100 <==> PHYS_VIRT_OFFSET <= vaddr < PHYS_VIRT_OFFSET + GIB
    ensures IndexOf(vaddr) == 0x102 <==> PHYS_VIRT_OFFSET + 2 * GIB <= vaddr < PHYS_VIRT_OFFSET + 3 * GIB
  {
  }

  lemma WindowsAreCanonical(vaddr: u64)
    requires BootTarget(vaddr).Some?
    ensures Canonical(vaddr)
  {
  }

  /** The offset in the gigabyte, and the gigabyte, make up the target. */
  lemma TargetOf(vaddr: u64)
    requires BootTarget(vaddr).Some?
    ensures BootTarget(vaddr).value ==
            vaddr % GIB + if IndexOf(vaddr) == 0 || IndexOf(vaddr) == 0x100 then 0 else 2 * GIB
  {
    WindowsAreCanonical(vaddr);
    WindowsAreEntries(vaddr);
  }

  /** Whatever the table was before, the four entries install the intended map and disturb nothing else. */
  lemma BootRootInstalls(root: Root, vaddr: u64, access: Access)
    ensures Walk(BootRoot(root), vaddr, access) ==
            if BootTarget(vaddr).Some? then BootTarget(vaddr) else Walk(root, vaddr, access)
  {
    if Canonical(vaddr) {
      LeavesUsable(access);
      WindowsAreEntries(vaddr);
      if BootTarget(vaddr).Some? { TargetOf(vaddr); }
    } else if BootTarget(vaddr).Some? {
      WindowsAreCanonical(vaddr);
    }
  }

  lemma EmptyRootMapsNothing(vaddr: u64, access: Access)
    ensures Walk(EmptyRoot(), vaddr, access) == None
  {
    LeavesUsable(access);
  }

  /**
    For every address and every kind of access: the intended map, and elsewhere what the table
    translated before, which for the zeroed table of the source is nothing.
   */
  method InitBootPageTable(root: array<u64>)
    requires root.Length == ROOT_LENGTH
    modifies root
    ensures forall vaddr: u64, access :: Walk(root[..], vaddr, access) ==
              if BootTarget(vaddr).Some? then BootTarget(vaddr) else Walk(old(root[..]), vaddr, access)
    ensures (forall i :: 0 <= i < 512 ==> old(root[i]) == 0) ==>
              forall vaddr: u64, access :: Walk(root[..], vaddr, access) == BootTarget(vaddr)
    ensures root[..] == BootRoot(old(root[..]))
  {
    ghost var before: Root := root[..];
    root[0] := LeafWord(0x0);
    root[2] := LeafWord(0x80000);
    root[0x100] := LeafWord(0x0);
    root[0x102] := LeafWord(0x80000);
    assert root[..] == BootRoot(before);
    forall vaddr: u64, access ensures Walk(root[..], vaddr, access) ==
        if BootTarget(vaddr).Some? then BootTarget(vaddr) else Walk(before, vaddr, access) {
      BootRootInstalls(before, vaddr, access);
    }
    assert (forall i :: 0 <= i < 512 ==> old(root[i]) == 0) ==> before == EmptyRoot();
    forall vaddr: u64, access ensures Walk(EmptyRoot(), vaddr, access) == None {
      EmptyRootMapsNothing(vaddr, access);
    }
  }

  /**
    Exactly what the boot table translates, for every 64-bit address and every kind of access: the
    two gigabytes at their own addresses and at the linear offset, and nothing else.
   */
  lemma WalkIsExact(vaddr: u64, access: Access)
    ensures Walk(BootRoot(EmptyRoot()), vaddr, access) ==
            if vaddr < 0x4000_0000 || 0x8000_0000 <= vaddr < 0xc000_0000 then Some(vaddr)
            else if 0xffff_ffc0_0000_0000 <= vaddr < 0xffff_ffc0_4000_0000
                 || 0xffff_ffc0_8000_0000 <= vaddr < 0xffff_ffc0_c000_0000 then Some(vaddr - 0xffff_ffc0_0000_0000)
            else None
  {
    BootRootInstalls(EmptyRoot(), vaddr, access);
    EmptyRootMapsNothing(vaddr, access);
  }

  /** `phys_to_virt`: the addition must fit in 64 bits. */
  function PhysToVirt(paddr: nat): Option<u64> {
    if paddr + PHYS_VIRT_OFFSET < U64_LIMIT then Some(paddr + PHYS_VIRT_OFFSET) else None
  }

  /** `virt_to_phys`: the subtraction must not go below zero. */
  function VirtToPhys(vaddr: u64): Option<nat> {
    if vaddr >= PHYS_VIRT_OFFSET then Some(vaddr - PHYS_VIRT_OFFSET) else None
  }

  /**
    The two translations are inverse to each other, between the physical addresses whose sum with
    the offset fits in 64 bits and exactly the virtual addresses from 0xffff_ffc0_0000_0000 on.
   */
  lemma TranslationsInvert(paddr: nat, vaddr: u64)
    ensures PhysToVirt(paddr).Some? <==> paddr + 0xffff_ffc0_0000_0000 < U64_LIMIT
    ensures PhysToVirt(paddr).Some? ==>
              PhysToVirt(paddr).value >= 0xffff_ffc0_0000_0000 && VirtToPhys(PhysToVirt(paddr).value) == Some(paddr)
    ensures VirtToPhys(vaddr).Some? <==> vaddr >= 0xffff_ffc0_0000_0000
    ensures VirtToPhys(vaddr).Some? ==> PhysToVirt(VirtToPhys(vaddr).value) == Some(vaddr)
  {
  }

  /** They keep distances. */
  lemma TranslationIsLinear(a: nat, b: nat)
    requires PhysToVirt(a).Some? && PhysToVirt(b).Some?
    ensures PhysToVirt(b).value as int - PhysToVirt(a).value as int == b as int - a as int
  {
  }

  /** The walk agrees with `phys_to_virt`, in the upper half, exactly on the mapped gigabytes. */
  lemma LinearMapIffMapped(paddr: nat, access: Access)
    ensures (PhysToVirt(paddr).Some? && Walk(BootRoot(EmptyRoot()), PhysToVirt(paddr).value, access) == Some(paddr))
            <==> paddr < 0x4000_0000 || 0x8000_0000 <= paddr < 0xc000_0000
    ensures Mapped(paddr) ==> PhysToVirt(paddr) == Some(paddr + 0xffff_ffc0_0000_0000)
  {
    if PhysToVirt(paddr).Some? { WalkIsExact(PhysToVirt(paddr).value, access); }
  }

  /** A flag bit of an entry does not depend on its page number. */
  lemma FlagBit(q: nat, flags: nat, weight: nat, k: nat)
    requires weight > 0 && 2 * k * weight == 0x100
    ensures BitSet(q * 0x100 + flags, weight) <==> BitSet(flags, weight)
  {
    Regroup(q, k, weight);
    DivOfSum(2 * (q * k), flags, weight);
    EvenSum(q * k, flags / weight);
  }

  lemma Regroup(q: nat, k: nat, weight: nat)
    ensures q * (2 * k * weight) == 2 * (q * k) * weight
  {
  }

  lemma EvenSum(j: nat, x: nat)
    ensures (2 * j + x) % 2 == x % 2
  {
  }

  /** The entry for a page number (with the two software bits clear) and a byte of flags. */
  function EntryWord(ppn: nat, flags: nat): nat { ppn * 4 * 0x100 + flags }

  lemma EntryPpn(ppn: nat, flags: nat)
    requires ppn < 0x1000_0000_0000 && flags < 0x100
    ensures Ppn(EntryWord(ppn, flags)) == ppn
  {
    assert EntryWord(ppn, flags) / 0x400 == ppn;
  }

  lemma FlagsDecide(flags: nat)
    requires flags < 0x100
    ensures && BitSet(flags, 1) && BitSet(flags, 2) && BitSet(flags, 4) && BitSet(flags, 8)
            && !BitSet(flags, 0x10) && BitSet(flags, 0x40) && BitSet(flags, 0x80)
            <==> flags == 0xef || flags == 0xcf
  {
  }

  /**
    The flags are the right ones: of all flag bytes, only 0xef and the same without the global bit
    make an aligned gigabyte readable, writable and executable for the supervisor.
   */
  lemma FlagsAreNeeded(ppn: nat, flags: nat)
    requires ppn < 0x1000_0000_0000 && ppn % 0x4_0000 == 0 && flags < 0x100
    ensures var pte := EntryWord(ppn, flags);
            UsableLeaf(pte, Read) && UsableLeaf(pte, Write) && UsableLeaf(pte, Execute)
            <==> flags == 0xef || flags == 0xcf
  {
    EntryPpn(ppn, flags);
    FlagBit(ppn * 4, flags, 1, 0x80);
    FlagBit(ppn * 4, flags, 2, 0x40);
    FlagBit(ppn * 4, flags, 4, 0x20);
    FlagBit(ppn * 4, flags, 8, 0x10);
    FlagBit(ppn * 4, flags, 0x10, 8);
    FlagBit(ppn * 4, flags, 0x40, 2);
    FlagBit(ppn * 4, flags, 0x80, 1);
    FlagsDecide(flags);
  }
}
