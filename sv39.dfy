/** The RISC-V Sv39 architecture variant: its primitive paging constants,
    its page-table-entry flag constants, the `satp` register encoding used by
    `table` and `set_table`, and a machine that holds the register and memory
    and runs the contract's operations on them. */
module Sv39 {
  import opened Bits
  import opened Addresses
  import opened Arch

  const PAGE_SHIFT: Usize := 12         // 4096-byte pages
  const PAGE_ENTRY_SHIFT: Usize := 9    // 512 entries of 8 bytes per table
  const PAGE_LEVELS: Usize := 3
  const ENTRY_ADDRESS_SHIFT: Usize := 52

  /** The virtual base of the direct map of physical memory. The variant
      names it PHYS_OFFSET; the contract's `phys_to_virt` adds PAGE_OFFSET,
      which this variant does not define, and the model uses PHYS_OFFSET in
      its place. */
  const PHYS_OFFSET: Usize := 0xFFFF_FE00_0000_0000

  /** The Sv39 paging geometry. */
  const SV39: Geometry :=
    Geometry(PAGE_SHIFT, PAGE_ENTRY_SHIFT, PAGE_LEVELS, PHYS_OFFSET, ENTRY_ADDRESS_SHIFT)

  // Page-table-entry flags, as the variant declares them. In the Sv39 entry
  // layout bit 0 is V (valid), 1 is R, 2 is W, 3 is X and 4 is U.
  const ENTRY_FLAG_PRESENT: Usize := Shl(1, 0)
  const ENTRY_FLAG_READONLY: Usize := 0
  const ENTRY_FLAG_READWRITE: Usize := Shl(1, 2)
  const ENTRY_FLAG_USER: Usize := Shl(1, 4)
  const ENTRY_FLAG_NO_EXEC: Usize := 0
  const ENTRY_FLAG_EXEC: Usize := Shl(1, 3)
  /** The R bit, which the default page flags set without naming it. */
  const READ_BIT: Usize := Shl(1, 1)
  const ENTRY_FLAG_DEFAULT_PAGE: nat := Or(ENTRY_FLAG_PRESENT, READ_BIT)
  const ENTRY_FLAG_DEFAULT_TABLE: Usize := ENTRY_FLAG_PRESENT

  /** The PPN field of `satp`, its low 44 bits. */
  const SATP_PPN_MASK: Usize := 0x0000_0FFF_FFFF_FFFF

  /** The MODE value that selects Sv39 translation, in bits 63..60. */
  const SATP_MODE_SV39: Usize := 8

  /** The powers of two behind the Sv39 constants. */
  lemma Sv39Powers()
    ensures Pow2(3) == 8 && Pow2(9) == 512 && Pow2(12) == 0x1000
    ensures Pow2(39) == 0x80_0000_0000 && Pow2(44) == 0x1000_0000_0000
    ensures Pow2(52) == 0x10_0000_0000_0000 && Pow2(60) == 0x1000_0000_0000_0000
    ensures Pow2(64) == WORD_MODULUS
  {
    Pow2Byte();
    assert Pow2(3) == 8;
    Pow2Add(8, 1);
    Pow2Add(8, 4);
    Pow2Add(12, 12);
    Pow2Add(24, 12);
    Pow2Add(36, 3);
    Pow2Add(36, 8);
    Pow2Add(44, 8);
    Pow2Add(52, 8);
    Pow2Word();
  }

  /** Every derived constant of the contract can be evaluated for Sv39. */
  lemma Sv39IsValid()
    ensures ValidGeometry(SV39)
  {
  }

  /** The Sv39 primitives yield exactly the values the variant's constants
      test expects. */
  lemma ConstantsTest()
    ensures PageSize(SV39) == 4096
    ensures PageOffsetMask(SV39) == 0xFFF
    ensures PageAddressShift(SV39) == 39
    ensures PageAddressSize(SV39) == 0x0000_0080_0000_0000
    ensures PageAddressMask(SV39) == 0x0000_007F_FFFF_F000
    ensures PageEntrySize(SV39) == 8
    ensures PageEntries(SV39) == 512
    ensures PageEntryMask(SV39) == 0x1FF
    ensures PageNegativeMask(SV39) == 0xFFFF_FF80_0000_0000
    ensures EntryAddressSize(SV39) == 0x0010_0000_0000_0000
    ensures EntryAddressMask(SV39) == 0x000F_FFFF_FFFF_F000
    ensures EntryFlagsMask(SV39) == 0xFFF0_0000_0000_0FFF
    ensures PHYS_OFFSET == 0xFFFF_FE00_0000_0000
  {
    Sv39Powers();
  }

  /** Each nonzero flag is the single bit the Sv39 entry layout assigns to
      it (V, R, W, X, U are bits 0 to 4); the read-only and no-execute flags
      are zero; the defaults are V|R for a page and V for a table. */
  lemma FlagValues()
    ensures ENTRY_FLAG_PRESENT == Pow2(0) && READ_BIT == Pow2(1)
    ensures ENTRY_FLAG_READWRITE == Pow2(2) && ENTRY_FLAG_EXEC == Pow2(3)
    ensures ENTRY_FLAG_USER == Pow2(4)
    ensures ENTRY_FLAG_READONLY == 0 && ENTRY_FLAG_NO_EXEC == 0
    ensures ENTRY_FLAG_DEFAULT_PAGE == 3 && ENTRY_FLAG_DEFAULT_TABLE == 1
  {
    OneShl(0);
    OneShl(1);
    OneShl(2);
    OneShl(3);
    OneShl(4);
    assert Pow2(4) == 16;
    DisjointOr(1, 2);
  }

  /** A value below the page size, which every flag constant is, lies in the
      flag field of an entry and clear of its frame field. */
  lemma BelowPageSizeIsFlags(x: Usize)
    requires x < PageSize(SV39)
    ensures And(x, EntryFlagsMask(SV39)) == x
    ensures And(x, EntryAddressMask(SV39)) == 0
  {
    var f, a := EntryFlagsMask(SV39), EntryAddressMask(SV39);
    forall i: nat | i < WORD_BITS
      ensures TestBit(And(x, f), i) == TestBit(x, i)
      ensures TestBit(And(x, a), i) == TestBit(0, i)
    {
      EntryFlagsMaskBits(SV39, i);
      EntryAddressMaskBits(SV39, i);
      AndBit(x, f, i);
      AndBit(x, a, i);
      ZeroBits(i);
      if i >= PAGE_SHIFT {
        HighBitsClear(PAGE_SHIFT, x, i);
      }
    }
    WordsEqual(And(x, f), x);
    WordsEqual(And(x, a), 0);
  }

  /** The flag constants are distinct single bits (apart from the two zero
      flags), and every flag constant lies inside ENTRY_FLAGS_MASK. */
  lemma FlagsAreDistinctBitsInFlagField()
    ensures forall i: nat :: TestBit(ENTRY_FLAG_PRESENT, i) <==> i == 0
    ensures forall i: nat :: TestBit(READ_BIT, i) <==> i == 1
    ensures forall i: nat :: TestBit(ENTRY_FLAG_READWRITE, i) <==> i == 2
    ensures forall i: nat :: TestBit(ENTRY_FLAG_EXEC, i) <==> i == 3
    ensures forall i: nat :: TestBit(ENTRY_FLAG_USER, i) <==> i == 4
    ensures And(ENTRY_FLAG_PRESENT, EntryFlagsMask(SV39)) == ENTRY_FLAG_PRESENT
    ensures And(ENTRY_FLAG_READWRITE, EntryFlagsMask(SV39)) == ENTRY_FLAG_READWRITE
    ensures And(ENTRY_FLAG_EXEC, EntryFlagsMask(SV39)) == ENTRY_FLAG_EXEC
    ensures And(ENTRY_FLAG_USER, EntryFlagsMask(SV39)) == ENTRY_FLAG_USER
    ensures And(ENTRY_FLAG_DEFAULT_PAGE, EntryFlagsMask(SV39)) == ENTRY_FLAG_DEFAULT_PAGE
    ensures And(ENTRY_FLAG_DEFAULT_TABLE, EntryFlagsMask(SV39)) == ENTRY_FLAG_DEFAULT_TABLE
  {
    FlagValues();
    forall i: nat
      ensures TestBit(Pow2(0), i) <==> i == 0
      ensures TestBit(Pow2(1), i) <==> i == 1
      ensures TestBit(Pow2(2), i) <==> i == 2
      ensures TestBit(Pow2(3), i) <==> i == 3
      ensures TestBit(Pow2(4), i) <==> i == 4
    {
      SingleBit(0, i);
      SingleBit(1, i);
      SingleBit(2, i);
      SingleBit(3, i);
      SingleBit(4, i);
    }
    Sv39Powers();
    BelowPageSizeIsFlags(1);
    BelowPageSizeIsFlags(3);
    BelowPageSizeIsFlags(4);
    BelowPageSizeIsFlags(8);
    BelowPageSizeIsFlags(16);
  }

  /** `(8 << 60) | (address >> PAGE_SHIFT)` is a sum: the page number is
      below 2^52, so it never reaches the mode bits. */
  lemma SatpWordValue(address: Usize)
    ensures Or(Shl(SATP_MODE_SV39, 60), Shr(address, PAGE_SHIFT))
         == 0x8000_0000_0000_0000 + address / 0x1000
  {
    Sv39Powers();
    ShrDivides(address, PAGE_SHIFT);
    assert Shl(SATP_MODE_SV39, 60) == 8 * Pow2(60);
    ShiftedDisjoint(60, 8, address / 0x1000);
    DisjointOr(8 * Pow2(60), address / 0x1000);
  }

  /** The `satp` value `set_table` writes for a root table address. */
  function SatpFor(address: PhysicalAddress): (satp: Usize)
    ensures satp == 0x8000_0000_0000_0000 + address.Data() / 0x1000
  {
    SatpWordValue(address.Data());
    Or(Shl(SATP_MODE_SV39, 60), Shr(address.Data(), PAGE_SHIFT))
  }

  /** `(satp & 0x0FFF_FFFF_FFFF) << PAGE_SHIFT` is the 44-bit page number
      times the page size, with nothing shifted out. */
  lemma RootWordValue(satp: Usize)
    ensures And(satp, SATP_PPN_MASK) == satp % 0x1000_0000_0000
    ensures Shl(And(satp, SATP_PPN_MASK), PAGE_SHIFT) == (satp % 0x1000_0000_0000) * 0x1000
  {
    Sv39Powers();
    AndLowMask(satp, 44);
  }

  /** The root table address `table` reads back from a `satp` value. */
  function RootOf(satp: Usize): (root: PhysicalAddress)
    ensures root.Data() == (satp % 0x1000_0000_0000) * 0x1000
  {
    RootWordValue(satp);
    PhysicalAddress.New(Shl(And(satp, SATP_PPN_MASK), PAGE_SHIFT))
  }

  /** The `satp` that `set_table` writes has MODE 8 (Sv39) in bits 63..60
      and the address's page number in its low 44 bits (the PPN field). */
  lemma SatpModeAndPpn(address: PhysicalAddress)
    ensures SatpFor(address) / 0x1000_0000_0000_0000 == SATP_MODE_SV39
    ensures SatpFor(address) % 0x1000_0000_0000 == (address.Data() / 0x1000) % 0x1000_0000_0000
  {
    var q := address.Data() / 0x1000;
    DivModUnique(SatpFor(address), 0x1000_0000_0000_0000, 8, q);
    DivModUnique(SatpFor(address), 0x1000_0000_0000,
                 0x8_0000 + q / 0x1000_0000_0000, q % 0x1000_0000_0000);
  }

  /** The ASID field of that `satp` (bits 59..44) is zero exactly when the
      address is below 2^56; otherwise the address's top bits land there. */
  lemma SatpAsid(address: PhysicalAddress)
    ensures (SatpFor(address) / 0x1000_0000_0000) % 0x1_0000 == 0 <==>
              address.Data() < 0x100_0000_0000_0000
  {
    var a := address.Data();
    var q := a / 0x1000;
    var t := a / 0x100_0000_0000_0000;
    DivModUnique(a, 0x100_0000_0000_0000, q / 0x1000_0000_0000,
                 (q % 0x1000_0000_0000) * 0x1000 + a % 0x1000);
    DivModUnique(SatpFor(address), 0x1000_0000_0000, 0x8_0000 + t, q % 0x1000_0000_0000);
    DivModUnique(0x8_0000 + t, 0x1_0000, 8, t);
  }

  /** `table` yields a page-aligned address below 2^56 that depends only on
      the PPN field of `satp`: the mode and ASID bits are ignored. */
  lemma RootOfFields(satp: Usize, other: Usize)
    ensures RootOf(satp).Data() % 0x1000 == 0
    ensures RootOf(satp).Data() < 0x100_0000_0000_0000
    ensures RootOf(satp) == RootOf(other) <==>
              satp % 0x1000_0000_0000 == other % 0x1000_0000_0000
  {
  }

  /** `set_table(a)` then `table()` gives back `a` with its low 12 bits
      cleared, as long as `a` fits in the 56 bits of a Sv39 physical address;
      bits above those are lost. */
  lemma TableAfterSetTable(address: PhysicalAddress)
    ensures RootOf(SatpFor(address)).Data() ==
              address.Data() % 0x100_0000_0000_0000 - address.Data() % 0x1000
    ensures address.Data() < 0x100_0000_0000_0000 ==>
              RootOf(SatpFor(address)).Data() == address.Data() - address.Data() % 0x1000
  {
    var a := address.Data();
    var q := a / 0x1000;
    SatpModeAndPpn(address);
    DivModUnique(a, 0x100_0000_0000_0000, q / 0x1000_0000_0000,
                 (q % 0x1000_0000_0000) * 0x1000 + a % 0x1000);
  }

  /** `table()` then `set_table` writes MODE 8 with the PPN field kept and
      the ASID field cleared. */
  lemma SetTableAfterTable(satp: Usize)
    ensures SatpFor(RootOf(satp)) == 0x8000_0000_0000_0000 + satp % 0x1000_0000_0000
  {
    var ppn := satp % 0x1000_0000_0000;
    DivModUnique(RootOf(satp).Data(), 0x1000, ppn, 0);
  }

  /** Re-installing the current root does not move it. */
  lemma {:induction false} TableStable(satp: Usize)
    ensures RootOf(SatpFor(RootOf(satp))) == RootOf(satp)
  {
    var ppn := satp % 0x1000_0000_0000;
    SetTableAfterTable(satp);
    DivModUnique(SatpFor(RootOf(satp)), 0x1000_0000_0000, 0x8_0000, ppn);
  }

  /** The direct map covers physical addresses below 2 TiB: exactly those
      have a virtual image that does not overflow. */
  lemma DirectMapRange(phys: PhysicalAddress)
    ensures phys.Data() + SV39.pageOffset <= USIZE_MAX <==> phys.Data() < 2 * TERABYTE
    ensures phys.Data() < 2 * TERABYTE ==>
              PhysToVirt(SV39, phys).Data() == phys.Data() + 0xFFFF_FE00_0000_0000
  {
    SizeConstants();
    Pow2Add(40, 1);
    Pow2Byte();
    Pow2Add(8, 2);
    Pow2Add(10, 10);
    Pow2Add(20, 10);
    Pow2Add(30, 10);
  }

  /** A Sv39 machine: the `satp` register, which holds the root page table,
      and memory, one word per address. */
  class RiscV64Sv39Arch {
    var satp: Usize
    var memory: map<Usize, Usize>

    constructor(satp0: Usize, memory0: map<Usize, Usize>)
      ensures satp == satp0 && memory == memory0
    {
      satp := satp0;
      memory := memory0;
    }

    /** `read`: the word stored at a mapped address. */
    method Read(address: VirtualAddress) returns (value: Usize)
      requires address.Data() in memory
      ensures value == memory[address.Data()]
    {
      value := memory[address.Data()];
    }

    /** `write`: stores a word at a mapped address, and changes nothing else:
        reading it back gives the word, and every other address keeps its
        word. */
    method Write(address: VirtualAddress, value: Usize)
      requires address.Data() in memory
      modifies this
      ensures memory == old(memory)[address.Data() := value]
      ensures satp == old(satp)
      ensures memory.Keys == old(memory).Keys
      ensures memory[address.Data()] == value
      ensures forall a :: a in old(memory) && a != address.Data() ==> memory[a] == old(memory)[a]
    {
      memory := memory[address.Data() := value];
    }

    /** `table`: the root table address held in `satp`. */
    method Table() returns (root: PhysicalAddress)
      ensures root == RootOf(satp)
      ensures root.Data() % 0x1000 == 0
    {
      RootOfFields(satp, satp);
      root := RootOf(satp);
    }

    /** `set_table`: installs a root table by writing `satp`. */
    method SetTable(address: PhysicalAddress)
      modifies this
      ensures satp == SatpFor(address)
      ensures memory == old(memory)
      ensures address.Data() < 0x100_0000_0000_0000 ==>
                RootOf(satp).Data() == address.Data() - address.Data() % 0x1000
    {
      TableAfterSetTable(address);
      satp := SatpFor(address);
    }

    /** `invalidate_all`: re-installs the current root table. The root is
        unchanged; the ASID field of `satp` is cleared. */
    method InvalidateAll()
      modifies this
      ensures satp == SatpFor(RootOf(old(satp)))
      ensures RootOf(satp) == RootOf(old(satp))
      ensures memory == old(memory)
    {
      var root := Table();
      SetTable(root);
      TableStable(old(satp));
    }

    /** `invalidate`: Sv39 flushes everything, whatever the address. */
    method Invalidate(address: VirtualAddress)
      modifies this
      ensures satp == SatpFor(RootOf(old(satp)))
      ensures RootOf(satp) == RootOf(old(satp))
      ensures memory == old(memory)
    {
      InvalidateAll();
    }
  }
}
