/**
  The boot page table of 32-bit ARM (platforms/axplat-arm-qemu-virt/src/boot.rs).

  One table of 4096 one-megabyte sections serves both translation base registers. It is filled in
  two phases; during the second the CPU is already running on it. Entries are abstracted to their
  section base and memory type. The walk is that of the short-descriptor format, section B3.5 of
  ARM DDI 0406C.
 */
module ArmBootTable {
  import opened Words

  const ADDRESS_LIMIT: nat := 0x1_0000_0000
  const SECTION_SIZE: nat := 0x10_0000
  const PHYS_VIRT_OFFSET: nat := 0x8000_0000
  const TABLE_LENGTH: nat := 4096

  datatype Attr = Normal | Device

  datatype Entry = Fault | Section(base: nat, attr: Attr)

  datatype Target = Target(paddr: nat, attr: Attr)

  type Table = t: seq<Entry> | |t| == TABLE_LENGTH witness seq(TABLE_LENGTH, _ => Fault)

  /** `A32PTE::empty()` in every slot. */
  function EmptyTable(): Table { seq(TABLE_LENGTH, _ => Fault) }

  /** The hardware walk: bits 31..20 select the entry, bits 19..0 are the offset. */
  function Walk(t: Table, vaddr: nat): Option<Target>
    requires vaddr < ADDRESS_LIMIT
  {
    match t[vaddr / SECTION_SIZE]
    case Fault => None
    case Section(base, attr) => Some(Target(base + vaddr % SECTION_SIZE, attr))
  }

  // ---------- the two phases ----------

  const EARLY_BASE: nat := 0x4000_0000
  const EARLY_SECTIONS: nat := 4

  /** Before the MMU is on: four sections at 0x4000_0000, mapped to themselves and to 0xC000_0000. */
  function EarlyTable(t: Table): Table {
    seq(TABLE_LENGTH, i requires 0 <= i < TABLE_LENGTH =>
      if 0x400 <= i < 0x404 then Section(EARLY_BASE + (i - 0x400) * SECTION_SIZE, Normal)
      else if 0xC00 <= i < 0xC04 then Section(EARLY_BASE + (i - 0xC00) * SECTION_SIZE, Normal)
      else t[i])
  }

  method InitPageTables(pt: array<Entry>)
    requires pt.Length == TABLE_LENGTH
    modifies pt
    ensures pt[..] == EarlyTable(old(pt[..]))
  {
    for i := 0 to EARLY_SECTIONS
      invariant forall j :: 0 <= j < TABLE_LENGTH ==>
        pt[j] == if 0x400 <= j < 0x400 + i then Section(EARLY_BASE + (j - 0x400) * SECTION_SIZE, Normal) else old(pt[j])
    {
      var paddr := 0x4000_0000 + i * 0x10_0000;
      pt[paddr / 0x10_0000] := Section(paddr, Normal);
    }
    var startIdx := 0xC000_0000 / 0x10_0000;
    for i := 0 to EARLY_SECTIONS
      invariant forall j :: 0 <= j < TABLE_LENGTH ==>
        pt[j] == if 0xC00 <= j < 0xC00 + i then Section(EARLY_BASE + (j - 0xC00) * SECTION_SIZE, Normal)
                 else if 0x400 <= j < 0x404 then Section(EARLY_BASE + (j - 0x400) * SECTION_SIZE, Normal)
                 else old(pt[j])
    {
      var paddr := 0x4000_0000 + i * 0x10_0000;
      pt[startIdx + i] := Section(paddr, Normal);
    }
  }

  /** The table after `k` of the 2048 writes of the second phase. */
  function LateTable(t: Table, k: nat): Table
    requires k <= 0x800
  {
    seq(TABLE_LENGTH, i requires 0 <= i < TABLE_LENGTH =>
      if 0x800 <= i < 0x800 + k then Section((i - 0x800) * SECTION_SIZE, if i < 0xC00 then Device else Normal)
      else t[i])
  }

  method InitPageTablesAfterMmu(pt: array<Entry>)
    requires pt.Length == TABLE_LENGTH
    modifies pt
    ensures pt[..] == LateTable(old(pt[..]), 0x800)
  {
    for i := 0 to 0x4000_0000 / SECTION_SIZE
      invariant pt[..] == LateTable(old(pt[..]), i)
    {
      pt[0x800 + i] := Section(i * SECTION_SIZE, Device);
    }
    for i := 0 to 0x4000_0000 / SECTION_SIZE
      invariant pt[..] == LateTable(old(pt[..]), 0x400 + i)
    {
      pt[0xC00 + i] := Section(0x4000_0000 + i * SECTION_SIZE, Normal);
    }
  }

  // ---------- what the table means ----------

  /** The memory type of a physical address: devices below 0x4000_0000, memory above. */
  function AttrOf(paddr: nat): Attr { if paddr < 0x4000_0000 then Device else Normal }

  predicate InEarlyWindow(paddr: nat) { EARLY_BASE <= paddr < EARLY_BASE + EARLY_SECTIONS * SECTION_SIZE }

  /** The intended map when the first `k` megabytes of the linear map have been installed. */
  function Intended(vaddr: nat, k: nat): Option<Target> {
    if vaddr >= PHYS_VIRT_OFFSET then
      var paddr := vaddr - PHYS_VIRT_OFFSET;
      if paddr < k * SECTION_SIZE || InEarlyWindow(paddr) then Some(Target(paddr, AttrOf(paddr))) else None
    else if InEarlyWindow(vaddr) then Some(Target(vaddr, Normal))
    else None
  }

  /** The table the CPU runs on after `k` writes of the second phase. */
  function BootTable(k: nat): Table
    requires k <= 0x800
  {
    LateTable(EarlyTable(EmptyTable()), k)
  }

  /** At every write, for every virtual address, the walk yields exactly the intended map. */
  lemma WalkIsIntended(k: nat, vaddr: nat)
    requires k <= 0x800 && vaddr < ADDRESS_LIMIT
    ensures Walk(BootTable(k), vaddr) == Intended(vaddr, k)
  {
    var i, off := vaddr / SECTION_SIZE, vaddr % SECTION_SIZE;
    assert vaddr == i * SECTION_SIZE + off && 0 <= i < TABLE_LENGTH;
    assert BootTable(k)[i] ==
      if 0x800 <= i < 0x800 + k then Section((i - 0x800) * SECTION_SIZE, if i < 0xC00 then Device else Normal)
      else EarlyTable(EmptyTable())[i];
  }

  /** While the second phase runs, no address that is translated changes its target or memory type. */
  lemma TranslationsNeverChange(k: nat, later: nat, vaddr: nat)
    requires k <= later <= 0x800 && vaddr < ADDRESS_LIMIT
    requires Walk(BootTable(k), vaddr).Some?
    ensures Walk(BootTable(later), vaddr) == Walk(BootTable(k), vaddr)
  {
    WalkIsIntended(k, vaddr);
    WalkIsIntended(later, vaddr);
  }

  /** The second phase installs the linear map megabyte by megabyte, from its start. */
  lemma EachWriteMapsOneMegabyte(k: nat, vaddr: nat)
    requires k < 0x800 && vaddr < ADDRESS_LIMIT
    ensures Walk(BootTable(k + 1), vaddr) ==
            if 0x8000_0000 + k * 0x10_0000 <= vaddr < 0x8000_0000 + (k + 1) * 0x10_0000
            then Some(Target(vaddr - 0x8000_0000, if k < 0x400 then Device else Normal))
            else Walk(BootTable(k), vaddr)
  {
    WalkIsIntended(k, vaddr);
    WalkIsIntended(k + 1, vaddr);
  }

  /** `phys_to_virt`: the addition must fit in 32 bits. */
  function PhysToVirt(paddr: nat): Option<nat> {
    if paddr + PHYS_VIRT_OFFSET < ADDRESS_LIMIT then Some(paddr + PHYS_VIRT_OFFSET) else None
  }

  /** `virt_to_phys`: the subtraction must not go below zero. */
  function VirtToPhys(vaddr: nat): Option<nat> {
    if vaddr >= PHYS_VIRT_OFFSET then Some(vaddr - PHYS_VIRT_OFFSET) else None
  }

  /** The two translations are inverse, between the lower and the upper two gigabytes. */
  lemma TranslationsInvert(addr: nat)
    requires addr < ADDRESS_LIMIT
    ensures PhysToVirt(addr).Some? <==> addr < 0x8000_0000
    ensures PhysToVirt(addr).Some? ==>
              0x8000_0000 <= PhysToVirt(addr).value < ADDRESS_LIMIT && VirtToPhys(PhysToVirt(addr).value) == Some(addr)
    ensures VirtToPhys(addr).Some? <==> addr >= 0x8000_0000
    ensures VirtToPhys(addr).Some? ==> PhysToVirt(VirtToPhys(addr).value) == Some(addr)
    ensures addr < 0x8000_0000 ==> PhysToVirt(addr) == Some(addr + 0x8000_0000)
  {
  }

  /**
    After both phases the walk agrees with the linear map in both directions: what `phys_to_virt`
    returns translates back, and every translated kernel address is one `virt_to_phys` inverts. The
    early identity window is still there and nothing else below 0x8000_0000 is mapped.
   */
  lemma LinearMapRefined(addr: nat)
    requires addr < ADDRESS_LIMIT
    ensures PhysToVirt(addr).Some? ==>
              Walk(BootTable(0x800), PhysToVirt(addr).value)
              == Some(Target(addr, if addr < 0x4000_0000 then Device else Normal))
    ensures VirtToPhys(addr).Some? ==>
              Walk(BootTable(0x800), addr) == Some(Target(VirtToPhys(addr).value, AttrOf(VirtToPhys(addr).value)))
    ensures VirtToPhys(addr).None? ==>
              Walk(BootTable(0x800), addr)
              == if 0x4000_0000 <= addr < 0x4040_0000 then Some(Target(addr, Normal)) else None
  {
    WalkIsIntended(0x800, addr);
    if PhysToVirt(addr).Some? { WalkIsIntended(0x800, PhysToVirt(addr).value); }
  }

  /** Code and stacks of the first four megabytes stay usable at their linked addresses throughout. */
  lemma EarlyImageAlwaysMapped(k: nat, paddr: nat)
    requires k <= 0x800 && InEarlyWindow(paddr)
    ensures Walk(BootTable(k), paddr + PHYS_VIRT_OFFSET) == Some(Target(paddr, Normal))
    ensures Walk(BootTable(k), paddr) == Some(Target(paddr, Normal))
  {
    WalkIsIntended(k, paddr + PHYS_VIRT_OFFSET);
    WalkIsIntended(k, paddr);
  }

  /** Running the two phases on the initial table gives the boot table. */
  method BuildBootTable() returns (pt: array<Entry>)
    ensures fresh(pt) && pt.Length == TABLE_LENGTH && pt[..] == BootTable(0x800)
  {
    pt := new Entry[TABLE_LENGTH](_ => Fault);
    assert pt[..] == EmptyTable();
    InitPageTables(pt);
    InitPageTablesAfterMmu(pt);
  }
}
