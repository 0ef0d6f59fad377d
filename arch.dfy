/** The architecture contract: the primitive paging constants an
    architecture chooses, every constant derived from them by a fixed
    bit-arithmetic formula, and the default `phys_to_virt`. The operations
    that touch machine state (`read`, `write`, `table`, `set_table`,
    `invalidate`, `invalidate_all`) act on a machine and are modelled with
    the one architecture variant, in module Sv39. */
module Arch {
  import opened Bits
  import opened Addresses

  /** The primitive constants an architecture supplies, all usizes. */
  datatype Geometry = Geometry(
    pageShift: Usize,          // log2 of the page size
    pageEntryShift: Usize,     // log2 of the number of entries in a table
    pageLevels: Usize,         // depth of the table hierarchy
    pageOffset: Usize,         // virtual base of the direct map of physical memory
    entryAddressShift: Usize)  // first bit above the frame field of an entry

  /** PAGE_ADDRESS_SHIFT can be evaluated: neither the product nor the sum
      overflows a usize. */
  predicate AddressShiftDefined(g: Geometry)
  {
    g.pageLevels * g.pageEntryShift + g.pageShift <= USIZE_MAX
  }

  /** PAGE_ADDRESS_SIZE, PAGE_ADDRESS_MASK and PAGE_NEGATIVE_MASK can be
      evaluated: `1 << PAGE_ADDRESS_SHIFT` does not shift out of the word. */
  predicate AddressSizeDefined(g: Geometry)
  {
    AddressShiftDefined(g) && g.pageLevels * g.pageEntryShift + g.pageShift < WORD_BITS
  }

  /** Every derived constant can be evaluated: Rust's constant evaluation
      rejects an overflowing shift, product or sum and an underflowing
      subtraction. */
  predicate ValidGeometry(g: Geometry)
  {
    && AddressSizeDefined(g)
    && g.pageEntryShift <= g.pageShift
    && g.pageShift <= g.entryAddressShift < WORD_BITS
  }

  /** PAGE_SIZE = 1 << PAGE_SHIFT. */
  function PageSize(g: Geometry): (r: Usize)
    requires g.pageShift < WORD_BITS
    ensures r == Pow2(g.pageShift)
  {
    OneShl(g.pageShift);
    Shl(1, g.pageShift)
  }

  /** PAGE_OFFSET_MASK = PAGE_SIZE - 1: the in-page offset bits. */
  function PageOffsetMask(g: Geometry): (r: Usize)
    requires g.pageShift < WORD_BITS
  {
    PageSize(g) - 1
  }

  /** PAGE_ADDRESS_SHIFT = PAGE_LEVELS * PAGE_ENTRY_SHIFT + PAGE_SHIFT: the
      number of low virtual-address bits the hierarchy translates. */
  function PageAddressShift(g: Geometry): (r: Usize)
    requires AddressShiftDefined(g)
    ensures g.pageShift <= r
    ensures r == g.pageShift <==> g.pageLevels == 0 || g.pageEntryShift == 0
    ensures g.pageLevels != 0 ==> g.pageShift + g.pageEntryShift <= r
  {
    g.pageLevels * g.pageEntryShift + g.pageShift
  }

  /** PAGE_ADDRESS_SIZE = 1 << PAGE_ADDRESS_SHIFT. */
  function PageAddressSize(g: Geometry): (r: Usize)
    requires AddressSizeDefined(g)
    ensures r == Pow2(PageAddressShift(g))
    ensures PageSize(g) <= r
  {
    OneShl(PageAddressShift(g));
    RangeBits(g.pageShift, PageAddressShift(g), 0);
    Shl(1, PageAddressShift(g))
  }

  /** PAGE_ADDRESS_MASK = PAGE_ADDRESS_SIZE - PAGE_SIZE: the translated bits
      above the in-page offset. */
  function PageAddressMask(g: Geometry): (r: Usize)
    requires AddressSizeDefined(g)
  {
    PageAddressSize(g) - PageSize(g)
  }

  /** PAGE_ENTRY_SIZE = 1 << (PAGE_SHIFT - PAGE_ENTRY_SHIFT): the bytes in
      one table entry. */
  function PageEntrySize(g: Geometry): (r: Usize)
    requires g.pageEntryShift <= g.pageShift
    requires g.pageShift - g.pageEntryShift < WORD_BITS
    ensures r == Pow2(g.pageShift - g.pageEntryShift)
  {
    OneShl(g.pageShift - g.pageEntryShift);
    Shl(1, g.pageShift - g.pageEntryShift)
  }

  /** PAGE_ENTRIES = 1 << PAGE_ENTRY_SHIFT: the entries in one table. */
  function PageEntries(g: Geometry): (r: Usize)
    requires g.pageEntryShift < WORD_BITS
    ensures r == Pow2(g.pageEntryShift)
  {
    OneShl(g.pageEntryShift);
    Shl(1, g.pageEntryShift)
  }

  /** PAGE_ENTRY_MASK = PAGE_ENTRIES - 1: the bits of a table index. */
  function PageEntryMask(g: Geometry): (r: Usize)
    requires g.pageEntryShift < WORD_BITS
  {
    PageEntries(g) - 1
  }

  /** PAGE_NEGATIVE_MASK = !(PAGE_ADDRESS_SIZE - 1): the bits above the
      translated range. */
  function PageNegativeMask(g: Geometry): (r: Usize)
    requires AddressSizeDefined(g)
    ensures r == WORD_MODULUS - PageAddressSize(g)
  {
    Not(PageAddressSize(g) - 1)
  }

  /** ENTRY_ADDRESS_SIZE = 1 << ENTRY_ADDRESS_SHIFT. */
  function EntryAddressSize(g: Geometry): (r: Usize)
    requires g.entryAddressShift < WORD_BITS
    ensures r == Pow2(g.entryAddressShift)
  {
    OneShl(g.entryAddressShift);
    Shl(1, g.entryAddressShift)
  }

  /** ENTRY_ADDRESS_MASK = ENTRY_ADDRESS_SIZE - PAGE_SIZE: the frame field
      of a table entry. */
  function EntryAddressMask(g: Geometry): (r: Usize)
    requires g.pageShift <= g.entryAddressShift < WORD_BITS
  {
    RangeBits(g.pageShift, g.entryAddressShift, 0);
    EntryAddressSize(g) - PageSize(g)
  }

  /** ENTRY_FLAGS_MASK = !ENTRY_ADDRESS_MASK: every bit of an entry outside
      the frame field. */
  function EntryFlagsMask(g: Geometry): (r: Usize)
    requires g.pageShift <= g.entryAddressShift < WORD_BITS
  {
    Not(EntryAddressMask(g))
  }

  /** PAGE_OFFSET_MASK has exactly the low PAGE_SHIFT bits set. */
  lemma PageOffsetMaskBits(g: Geometry, i: nat)
    requires g.pageShift < WORD_BITS
    ensures TestBit(PageOffsetMask(g), i) <==> i < g.pageShift
  {
    LowBits(g.pageShift, i);
  }

  /** PAGE_ADDRESS_MASK has exactly the bits in
      [PAGE_SHIFT, PAGE_ADDRESS_SHIFT) set. */
  lemma PageAddressMaskBits(g: Geometry, i: nat)
    requires AddressSizeDefined(g)
    ensures TestBit(PageAddressMask(g), i) <==> g.pageShift <= i < PageAddressShift(g)
  {
    RangeBits(g.pageShift, PageAddressShift(g), i);
  }

  /** PAGE_NEGATIVE_MASK has exactly the bits from PAGE_ADDRESS_SHIFT up to
      the top of the word set. */
  lemma PageNegativeMaskBits(g: Geometry, i: nat)
    requires AddressSizeDefined(g) && i < WORD_BITS
    ensures TestBit(PageNegativeMask(g), i) <==> PageAddressShift(g) <= i
  {
    NotBit(PageAddressSize(g) - 1, i);
    LowBits(PageAddressShift(g), i);
  }

  /** PAGE_ENTRY_MASK has exactly the low PAGE_ENTRY_SHIFT bits set. */
  lemma PageEntryMaskBits(g: Geometry, i: nat)
    requires g.pageEntryShift < WORD_BITS
    ensures TestBit(PageEntryMask(g), i) <==> i < g.pageEntryShift
  {
    LowBits(g.pageEntryShift, i);
  }

  /** ENTRY_ADDRESS_MASK has exactly the bits in
      [PAGE_SHIFT, ENTRY_ADDRESS_SHIFT) set. */
  lemma EntryAddressMaskBits(g: Geometry, i: nat)
    requires g.pageShift <= g.entryAddressShift < WORD_BITS
    ensures TestBit(EntryAddressMask(g), i) <==> g.pageShift <= i < g.entryAddressShift
  {
    RangeBits(g.pageShift, g.entryAddressShift, i);
  }

  /** ENTRY_FLAGS_MASK has every other bit of the word set. */
  lemma EntryFlagsMaskBits(g: Geometry, i: nat)
    requires g.pageShift <= g.entryAddressShift < WORD_BITS && i < WORD_BITS
    ensures TestBit(EntryFlagsMask(g), i) <==> i < g.pageShift || g.entryAddressShift <= i
  {
    NotBit(EntryAddressMask(g), i);
    EntryAddressMaskBits(g, i);
  }

  /** The negative, address and offset masks split a virtual address into
      three fields: no two share a bit and together they cover the word. */
  lemma PageMasksPartition(g: Geometry)
    requires AddressSizeDefined(g)
    ensures And(PageNegativeMask(g), PageAddressMask(g)) == 0
    ensures And(PageNegativeMask(g), PageOffsetMask(g)) == 0
    ensures And(PageAddressMask(g), PageOffsetMask(g)) == 0
    ensures Or(Or(PageNegativeMask(g), PageAddressMask(g)), PageOffsetMask(g)) == USIZE_MAX
  {
    var n, a, o := PageNegativeMask(g), PageAddressMask(g), PageOffsetMask(g);
    Pow2Word();
    OrBelow(64, n, a);
    OrBelow(64, Or(n, a), o);
    forall i: nat | i < WORD_BITS
      ensures TestBit(And(n, a), i) == TestBit(0, i)
      ensures TestBit(And(n, o), i) == TestBit(0, i)
      ensures TestBit(And(a, o), i) == TestBit(0, i)
      ensures TestBit(Or(Or(n, a), o), i) == TestBit(USIZE_MAX, i)
    {
      PageNegativeMaskBits(g, i);
      PageAddressMaskBits(g, i);
      PageOffsetMaskBits(g, i);
      AndBit(n, a, i);
      AndBit(n, o, i);
      AndBit(a, o, i);
      OrBit(n, a, i);
      OrBit(Or(n, a), o, i);
      ZeroBits(i);
      AllOnesBit(i);
    }
    WordsEqual(And(n, a), 0);
    WordsEqual(And(n, o), 0);
    WordsEqual(And(a, o), 0);
    WordsEqual(Or(Or(n, a), o), USIZE_MAX);
  }

  /** Every virtual address is the union of its three fields. */
  lemma VirtualAddressFields(g: Geometry, va: Usize)
    requires AddressSizeDefined(g)
    ensures va == Or(Or(And(va, PageNegativeMask(g)), And(va, PageAddressMask(g))),
                     And(va, PageOffsetMask(g)))
  {
    var n, a, o := PageNegativeMask(g), PageAddressMask(g), PageOffsetMask(g);
    var fields := Or(Or(And(va, n), And(va, a)), And(va, o));
    Pow2Word();
    OrBelow(64, And(va, n), And(va, a));
    OrBelow(64, Or(And(va, n), And(va, a)), And(va, o));
    forall i: nat | i < WORD_BITS
      ensures TestBit(va, i) == TestBit(fields, i)
    {
      PageNegativeMaskBits(g, i);
      PageAddressMaskBits(g, i);
      PageOffsetMaskBits(g, i);
      AndBit(va, n, i);
      AndBit(va, a, i);
      AndBit(va, o, i);
      OrBit(And(va, n), And(va, a), i);
      OrBit(Or(And(va, n), And(va, a)), And(va, o), i);
    }
    WordsEqual(va, fields);
  }

  /** A table fills exactly one page: entry size times entry count is the
      page size. */
  lemma EntriesFillPage(g: Geometry)
    requires g.pageEntryShift <= g.pageShift < WORD_BITS
    ensures PageEntrySize(g) * PageEntries(g) == PageSize(g)
  {
    Pow2Add(g.pageShift - g.pageEntryShift, g.pageEntryShift);
  }

  /** Masking with PAGE_ENTRY_MASK keeps an index modulo PAGE_ENTRIES, and
      masking with PAGE_OFFSET_MASK keeps an offset modulo PAGE_SIZE. */
  lemma MasksSelectIndices(g: Geometry, x: Usize)
    requires g.pageEntryShift <= g.pageShift < WORD_BITS
    ensures And(x, PageEntryMask(g)) == x % PageEntries(g)
    ensures And(x, PageOffsetMask(g)) == x % PageSize(g)
  {
    AndLowMask(x, g.pageEntryShift);
    AndLowMask(x, g.pageShift);
  }

  /** The frame and flag fields of an entry are complementary: no shared bit,
      and together every bit. */
  lemma EntryMasksPartition(g: Geometry)
    requires g.pageShift <= g.entryAddressShift < WORD_BITS
    ensures And(EntryAddressMask(g), EntryFlagsMask(g)) == 0
    ensures Or(EntryAddressMask(g), EntryFlagsMask(g)) == USIZE_MAX
  {
    var a, f := EntryAddressMask(g), EntryFlagsMask(g);
    Pow2Word();
    OrBelow(64, a, f);
    forall i: nat | i < WORD_BITS
      ensures TestBit(And(a, f), i) == TestBit(0, i)
      ensures TestBit(Or(a, f), i) == TestBit(USIZE_MAX, i)
    {
      NotBit(a, i);
      AndBit(a, f, i);
      OrBit(a, f, i);
      ZeroBits(i);
      AllOnesBit(i);
    }
    WordsEqual(And(a, f), 0);
    WordsEqual(Or(a, f), USIZE_MAX);
  }

  /** An entry word splits uniquely into a frame field and a flag field:
      every word is the union of its two fields, and a frame and flags that
      keep to their own fields are exactly what the masks recover from their
      union. */
  lemma EntrySplit(g: Geometry, entry: Usize, frame: Usize, flags: Usize)
    requires g.pageShift <= g.entryAddressShift < WORD_BITS
    ensures entry == Or(And(entry, EntryAddressMask(g)), And(entry, EntryFlagsMask(g)))
    ensures (And(frame, EntryFlagsMask(g)) == 0 && And(flags, EntryAddressMask(g)) == 0) <==>
              (And(Or(frame, flags), EntryAddressMask(g)) == frame &&
               And(Or(frame, flags), EntryFlagsMask(g)) == flags)
  {
    ComplementJoin(EntryAddressMask(g), entry);
    ComplementFields(EntryAddressMask(g), frame, flags);
  }

  /** Default `phys_to_virt`: the direct map places physical address `p` at
      virtual address `p + PAGE_OFFSET`. Overflow of the sum is excluded. */
  function PhysToVirt(g: Geometry, phys: PhysicalAddress): (virt: VirtualAddress)
    requires phys.Data() + g.pageOffset <= USIZE_MAX
    ensures virt.Data() == phys.Data() + g.pageOffset
  {
    VirtualAddress.New(phys.Data() + g.pageOffset)
  }

  /** The direct map is order-preserving and one-to-one: two physical
      addresses compare as their virtual images do. */
  lemma PhysToVirtOrder(g: Geometry, p: PhysicalAddress, q: PhysicalAddress)
    requires p.Data() + g.pageOffset <= USIZE_MAX
    requires q.Data() + g.pageOffset <= USIZE_MAX
    ensures PhysToVirt(g, p).Cmp(PhysToVirt(g, q)) == p.Cmp(q)
    ensures PhysToVirt(g, p) == PhysToVirt(g, q) <==> p == q
  {
  }
}
