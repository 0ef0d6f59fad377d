# rmm paging contract and its RISC-V Sv39 variant, in Dafny

This project models the core of `rmm`, a memory-management crate. Its core is
the `Arch` contract. An architecture picks five primitive numbers: the page
shift, the table-index shift, the number of levels, the frame-field shift and
PAGE_OFFSET, the virtual base of the direct map of physical memory. It also
picks its entry-flag bits (present, writable, user, huge, global, no-exec),
which no formula relates to anything else; the model keeps the flag
constants that sv39.rs defines (src/arch/riscv64/sv39.rs:18-30) as constants
of the `Sv39` module. The sizes and masks are derived
from the five primitives by fixed bit formulas: page and table sizes, the
offset, address and negative masks of a virtual address, and the frame and
flag masks of a table entry. A generic page-table walker
computes indices and entry fields from these constants. On top of them sit
the contract's machine operations: `read`, `write`, `table`, `set_table`,
`invalidate`, `invalidate_all` and `phys_to_virt`.

The files are:

- `bits.dfy` (module `Bits`) models a Rust `usize` as a number in
  [0, 2^64). It defines the operators the code applies: `&` and `|`
  bit by bit, `!` as `usize::MAX - x`, `<<` as multiplication modulo
  2^64, and `>>` as repeated halving, which is proved equal to division by
  2^n. Lemmas give the bits of `&`, `|` and `!`, the value of `1 << n`,
  and `x >> n` as a quotient, plus one extensionality lemma: two words with
  the same 64 bits are equal.
- `addresses.dfy` (module `Addresses`) models `src/lib.rs`:
  - the size constants `KILOBYTE` to `TERABYTE`;
  - the tagged address types `PhysicalAddress` and `VirtualAddress`, each
    with `new`, `data`, `add` and the derived ordering;
  - the `MemoryArea` record.
- `arch.dfy` (module `Arch`) models the trait in `src/arch/mod.rs`:
  - the primitives, held in a `Geometry` value;
  - each derived constant, as a function that requires what Rust's
    constant evaluation demands (no shift out of the word, no
    subtraction underflow);
  - the structure of the masks: their exact bits, pairwise disjointness,
    coverage of the word, and the unique split of an entry into frame
    and flags;
  - the default `phys_to_virt`.
- `sv39.dfy` (module `Sv39`) models `src/arch/riscv64/sv39.rs`:
  - the primitives 12/9/3/52 and the flag constants;
  - the values the variant's `constants` test expects;
  - the `satp` encoding written by `set_table` and decoded by `table`,
    and their round trips;
  - a `RiscV64Sv39Arch` class holding the `satp` register and a word
    memory. Its methods are the contract's `read`, `write`, `table`,
    `set_table`, `invalidate_all` (`set_table(table())`) and `invalidate`,
    which falls back to a full flush.

`satp` is laid out as in section 4.1.11 of the RISC-V Privileged
Architecture specification (version 20211203): MODE in bits 63..60
(8 selects Sv39), ASID in bits 59..44 and the root page number (PPN) in
bits 43..0. The flag bits follow the Sv39 entry layout of section 4.4 of
the same specification: V = bit 0, R = 1, W = 2, X = 3 and U = 4.

Two consequences of the code are worth stating up front:

- `invalidate_all` does not keep `satp` as it was. On Sv39,
  `set_table(table())` writes MODE 8 and ASID 0; only the root that
  `table()` returns is unchanged (`Sv39.TableStable`,
  `Sv39.RiscV64Sv39Arch.InvalidateAll`).
- The `+` in `phys_to_virt` overflows for large `p`, so the model requires
  that the sum fits. `Sv39.DirectMapRange` shows that with Sv39's offset the
  sum fits exactly for physical addresses below 2 TiB.

## Model

| member | source | states |
|---|---|---|
| Addresses.SizeConstants | src/lib.rs:15-18 | KILOBYTE, MEGABYTE, GIGABYTE and TERABYTE are 2^10, 2^20, 2^30 and 2^40 |
| Addresses.PhysicalAddress.New | src/lib.rs:27-29 | `new(x)` wraps `x` unchanged: its `data()` is `x` |
| Addresses.PhysicalAddress.Data | src/lib.rs:32-34 | the wrapped usize; `new` and `data` are inverse as in Addresses.PhysicalAddress.NewData |
| Addresses.PhysicalAddress.Add | src/lib.rs:37-39 | `add(o)` is the address whose data is `data() + o`, never below the original; overflow is excluded by the precondition |
| Addresses.PhysicalAddress.Cmp | src/lib.rs:21-23 | the derived ordering: Equal iff the addresses are equal, Less iff the wrapped usize is smaller, Greater iff it is larger |
| Addresses.PhysicalAddress.NewData | src/lib.rs:27-34 | `data` and `new` are inverse in both directions |
| Addresses.PhysicalAddress.AddComposes | src/lib.rs:37-39 | `a.add(x).add(y) == a.add(x + y) == a.add(y).add(x)` when no sum overflows |
| Addresses.PhysicalAddress.NewAdd | src/lib.rs:27-39 | `new(x).add(o) == new(x + o)` |
| Addresses.PhysicalAddress.CmpOrder | src/lib.rs:21-23 | the ordering is antisymmetric (swapping the operands reverses it) and transitive, and adding the same offset to both sides preserves it |
| Addresses.VirtualAddress.New | src/lib.rs:49-51 | `new(x)` wraps `x` unchanged: its `data()` is `x` |
| Addresses.VirtualAddress.Data | src/lib.rs:54-56 | the wrapped usize; `new` and `data` are inverse as in Addresses.VirtualAddress.NewData |
| Addresses.VirtualAddress.Add | src/lib.rs:59-61 | `add(o)` is the address whose data is `data() + o`, never below the original; overflow is excluded by the precondition |
| Addresses.VirtualAddress.Cmp | src/lib.rs:43-45 | the derived ordering: Equal iff equal, Less or Greater exactly as the wrapped usize compares |
| Addresses.VirtualAddress.NewData | src/lib.rs:49-56 | `data` and `new` are inverse in both directions |
| Addresses.VirtualAddress.AddComposes | src/lib.rs:59-61 | adding in two steps equals adding the sum, in either order, when no sum overflows |
| Addresses.VirtualAddress.NewAdd | src/lib.rs:49-61 | `new(x).add(o) == new(x + o)` |
| Addresses.VirtualAddress.CmpOrder | src/lib.rs:43-45 | the ordering is antisymmetric and transitive, and adding the same offset to both sides preserves it |
| Addresses.MemoryArea | src/lib.rs:64-68 | a record of a base physical address and a size in bytes |
| Bits.And | src/arch/riscv64/sv39.rs:50 | Rust `&`: never above either operand; bit i is set iff it is set in both, as in Bits.AndBit |
| Bits.Or | src/arch/riscv64/sv39.rs:57-58 | Rust `\|`: at least the first operand and at most the sum; bit i is set iff it is set in either, as in Bits.OrBit |
| Bits.Not | src/arch/mod.rs:34 | Rust `!`: every one of the 64 bits flipped, as in Bits.NotBit |
| Bits.Shl | src/arch/mod.rs:26 | Rust `<<`: bits shifted past bit 63 are lost; `1 << n` is 2^n as in Bits.OneShl |
| Bits.Shr | src/arch/riscv64/sv39.rs:58 | Rust `>>`: the quotient by 2^n, as in Bits.ShrDivides |
| Bits.OneShl | src/arch/mod.rs:26 | `1 << n` is 2^n for every shift below 64 |
| Bits.NotBit | src/arch/mod.rs:34 | `!x` flips each of the 64 bits of `x` |
| Bits.ShrDivides | src/arch/riscv64/sv39.rs:58 | `x >> n` is the quotient of `x` by 2^n |
| Bits.AndLowMask | src/arch/riscv64/sv39.rs:50 | `x & (2^n - 1)` keeps `x` modulo 2^n |
| Arch.Geometry | src/arch/mod.rs:13-18 | the five primitive usizes an architecture supplies: PAGE_SHIFT, PAGE_ENTRY_SHIFT, PAGE_LEVELS, PAGE_OFFSET and ENTRY_ADDRESS_SHIFT; the entry-flag constants of src/arch/mod.rs:19-24 are not part of it |
| Arch.PageSize | src/arch/mod.rs:26 | PAGE_SIZE = `1 << PAGE_SHIFT` is 2^PAGE_SHIFT |
| Arch.PageOffsetMask | src/arch/mod.rs:27 | PAGE_SIZE - 1; its bits as in Arch.PageOffsetMaskBits |
| Arch.PageOffsetMaskBits | src/arch/mod.rs:27 | PAGE_OFFSET_MASK = PAGE_SIZE - 1 has exactly the bits below PAGE_SHIFT set |
| Arch.PageAddressShift | src/arch/mod.rs:28 | PAGE_ADDRESS_SHIFT is at least PAGE_SHIFT, equals it iff there are no levels or no index bits, and is at least PAGE_SHIFT + PAGE_ENTRY_SHIFT when there is a level |
| Arch.PageAddressSize | src/arch/mod.rs:29 | PAGE_ADDRESS_SIZE is 2^PAGE_ADDRESS_SHIFT and at least PAGE_SIZE |
| Arch.PageAddressMask | src/arch/mod.rs:30 | PAGE_ADDRESS_SIZE - PAGE_SIZE; its bits as in Arch.PageAddressMaskBits |
| Arch.PageAddressMaskBits | src/arch/mod.rs:30 | PAGE_ADDRESS_MASK has exactly the bits in [PAGE_SHIFT, PAGE_ADDRESS_SHIFT) set |
| Arch.PageEntrySize | src/arch/mod.rs:31 | PAGE_ENTRY_SIZE is 2^(PAGE_SHIFT - PAGE_ENTRY_SHIFT), defined whenever the subtraction neither underflows nor shifts out of the word |
| Arch.PageEntries | src/arch/mod.rs:32 | PAGE_ENTRIES is 2^PAGE_ENTRY_SHIFT |
| Arch.PageEntryMask | src/arch/mod.rs:33 | PAGE_ENTRIES - 1; its bits as in Arch.PageEntryMaskBits |
| Arch.PageEntryMaskBits | src/arch/mod.rs:33 | PAGE_ENTRY_MASK has exactly the bits below PAGE_ENTRY_SHIFT set |
| Arch.PageNegativeMask | src/arch/mod.rs:34 | PAGE_NEGATIVE_MASK is 2^64 - PAGE_ADDRESS_SIZE |
| Arch.PageNegativeMaskBits | src/arch/mod.rs:34 | PAGE_NEGATIVE_MASK has exactly the bits from PAGE_ADDRESS_SHIFT to 63 set |
| Arch.EntryAddressSize | src/arch/mod.rs:36 | ENTRY_ADDRESS_SIZE is 2^ENTRY_ADDRESS_SHIFT |
| Arch.EntryAddressMask | src/arch/mod.rs:37 | ENTRY_ADDRESS_SIZE - PAGE_SIZE; its bits as in Arch.EntryAddressMaskBits |
| Arch.EntryAddressMaskBits | src/arch/mod.rs:37 | ENTRY_ADDRESS_MASK has exactly the bits in [PAGE_SHIFT, ENTRY_ADDRESS_SHIFT) set |
| Arch.EntryFlagsMask | src/arch/mod.rs:38 | `!ENTRY_ADDRESS_MASK`; its bits as in Arch.EntryFlagsMaskBits |
| Arch.EntryFlagsMaskBits | src/arch/mod.rs:38 | ENTRY_FLAGS_MASK has exactly the other bits of the word set |
| Arch.PageMasksPartition | src/arch/mod.rs:27-34 | the negative, address and offset masks are pairwise disjoint, and their OR is all ones |
| Arch.VirtualAddressFields | src/arch/mod.rs:27-34 | every virtual address is the OR of its negative, address and offset fields |
| Arch.EntriesFillPage | src/arch/mod.rs:31-32 | PAGE_ENTRY_SIZE * PAGE_ENTRIES == PAGE_SIZE when PAGE_ENTRY_SHIFT <= PAGE_SHIFT |
| Arch.MasksSelectIndices | src/arch/mod.rs:27-33 | masking with PAGE_ENTRY_MASK gives the value modulo PAGE_ENTRIES; masking with PAGE_OFFSET_MASK gives it modulo PAGE_SIZE |
| Arch.EntryMasksPartition | src/arch/mod.rs:36-38 | ENTRY_ADDRESS_MASK & ENTRY_FLAGS_MASK == 0 and ENTRY_ADDRESS_MASK \| ENTRY_FLAGS_MASK == all ones |
| Arch.EntrySplit | src/arch/mod.rs:36-38 | an entry is the OR of its frame and flag fields; a frame and flags recombine and split back to themselves iff each keeps to its own field |
| Arch.PhysToVirt | src/arch/mod.rs:63-65 | `phys_to_virt(p).data() == p.data() + PAGE_OFFSET` when the sum does not overflow |
| Arch.PhysToVirtOrder | src/arch/mod.rs:63-65 | the direct map preserves order and is one-to-one |
| Sv39.SV39 | src/arch/riscv64/sv39.rs:12-17 | the Sv39 primitives 12/9/3/52, with PHYS_OFFSET (src/arch/riscv64/sv39.rs:33) in place of PAGE_OFFSET |
| Sv39.Sv39IsValid | src/arch/riscv64/sv39.rs:12-17 | with the Sv39 primitives every derived constant can be evaluated without overflow |
| Sv39.ConstantsTest | src/arch/riscv64/sv39.rs:69-85 | the Sv39 primitives give exactly the thirteen values the `constants` test asserts |
| Sv39.FlagValues | src/arch/riscv64/sv39.rs:18-30 | PRESENT, R, READWRITE, EXEC and USER are 2^0 to 2^4 in the order V, R, W, X, U; READONLY and NO_EXEC are 0; DEFAULT_PAGE is 3 and DEFAULT_TABLE is 1 |
| Sv39.BelowPageSizeIsFlags | src/arch/riscv64/sv39.rs:25-30 | a value below PAGE_SIZE lies entirely in ENTRY_FLAGS_MASK and clear of ENTRY_ADDRESS_MASK |
| Sv39.FlagsAreDistinctBitsInFlagField | src/arch/riscv64/sv39.rs:18-30 | the five nonzero flags PRESENT, R, READWRITE, EXEC and USER are the single bits 0, 1, 2, 3 and 4, and every flag and default lies in ENTRY_FLAGS_MASK |
| Sv39.SatpWordValue | src/arch/riscv64/sv39.rs:56-58 | `(8 << 60) \| (a >> 12)` equals `2^63 + a / 4096`: the page number never reaches the mode bits |
| Sv39.SatpFor | src/arch/riscv64/sv39.rs:54-60 | the `satp` written by `set_table(a)` is `2^63 + a / 4096` |
| Sv39.RootWordValue | src/arch/riscv64/sv39.rs:49-51 | `(satp & 0x0FFF_FFFF_FFFF) << 12` is the low 44 bits of `satp` times 4096, with nothing shifted out |
| Sv39.RootOf | src/arch/riscv64/sv39.rs:45-52 | the root `table` decodes from `satp` is `(satp mod 2^44) * 4096` |
| Sv39.SatpModeAndPpn | src/arch/riscv64/sv39.rs:56-58 | bits 63..60 of the written `satp` are 8, and its PPN field is the page number of the address modulo 2^44 |
| Sv39.SatpAsid | src/arch/riscv64/sv39.rs:56-58 | the ASID field of the written `satp` is zero iff the address is below 2^56 |
| Sv39.RootOfFields | src/arch/riscv64/sv39.rs:49-51 | the decoded root is page-aligned and below 2^56; two `satp` values decode to the same root iff their PPN fields are equal |
| Sv39.TableAfterSetTable | src/arch/riscv64/sv39.rs:45-60 | `table()` after `set_table(a)` is `a mod 2^56` with the low 12 bits cleared, which is `a` rounded down to its page when `a < 2^56` |
| Sv39.SetTableAfterTable | src/arch/riscv64/sv39.rs:45-60 | `set_table(table())` writes MODE 8, keeps the PPN field and clears the ASID field |
| Sv39.TableStable | src/arch/mod.rs:54-57 | re-installing the current root leaves the root that `table()` decodes unchanged |
| Sv39.DirectMapRange | src/arch/riscv64/sv39.rs:33 | with PHYS_OFFSET as the direct-map base, `phys_to_virt` is defined exactly for physical addresses below 2 TiB, and it adds 0xFFFF_FE00_0000_0000 |
| Sv39.RiscV64Sv39Arch.Read | src/arch/mod.rs:42-45 | `read(a)` returns the word stored at `a` |
| Sv39.RiscV64Sv39Arch.Write | src/arch/mod.rs:47-50 | `write(a, v)` stores `v` at `a`: reading it back gives `v`, every other address keeps its word, and `satp` is unchanged |
| Sv39.RiscV64Sv39Arch.Table | src/arch/riscv64/sv39.rs:45-52 | `table()` returns the root decoded from the current `satp`, which is page-aligned |
| Sv39.RiscV64Sv39Arch.SetTable | src/arch/riscv64/sv39.rs:54-60 | `set_table(a)` sets `satp` to the encoding of `a`, so that `table()` afterwards gives `a` rounded down to its page when `a < 2^56`; memory is unchanged |
| Sv39.RiscV64Sv39Arch.InvalidateAll | src/arch/mod.rs:54-57 | `invalidate_all()` is `set_table(table())`: the decoded root is unchanged and memory is unchanged |
| Sv39.RiscV64Sv39Arch.Invalidate | src/arch/riscv64/sv39.rs:39-43 | `invalidate(a)` is a full flush for every `a`: the same new state as `invalidate_all()` |

## Left out

- Inline assembly: `csrr`/`csrw` on `satp` (src/arch/riscv64/sv39.rs:48, 59) is not modelled. The register is a field of the machine class.
- Translation caching: the model has no TLB. `invalidate` and `invalidate_all` are specified by their effect on `satp` and memory. On RISC-V, writing `satp` does not itself flush cached translations; section 4.1.11 of the RISC-V Privileged Architecture specification requires an `SFENCE.VMA` for that. Whether the real code flushes anything is outside what the model can say.
- Address translation through the page tables is not modelled. `memory` is one fixed view keyed by the virtual address that `read` and `write` receive (src/arch/mod.rs:42-50); nothing translates that address through the root that `satp` selects. In the real system, `set_table` switches every later translation, so a read at the same virtual address after a root switch can return a different word. In the model it returns the same word. "Memory is unchanged" in the contracts of Sv39.RiscV64Sv39Arch.SetTable, Sv39.RiscV64Sv39Arch.InvalidateAll and Sv39.RiscV64Sv39Arch.Invalidate refers to this map, not to what a virtual read sees after a root switch.
- `init` (src/arch/riscv64/sv39.rs:35-37) is `unimplemented!` and always panics. It has no behaviour to model, and there is no memory map to return.
- Sv39.RiscV64Sv39Arch.Read: the model reads and writes one usize-sized word per address. It does not model the generic `T` of `ptr::read`/`ptr::write`. It does not model alignment, aliasing or undefined behaviour on an unmapped address; these are excluded by requiring the address to be in memory.
- Sv39.RiscV64Sv39Arch.Write: the same single-word, mapped-address restriction as `read`.
- Addresses.PhysicalAddress.Add: Rust's `+` panics on overflow in debug builds and wraps in release builds. The model chooses neither and excludes overflow by a precondition. The same holds for Addresses.VirtualAddress.Add and Arch.PhysToVirt.
- Arch.PageAddressShift: the product and sum are required not to overflow. Rust's constant evaluation also rejects such overflow, so this matches the code.
- The `emulate`, `x86_64` and `page` modules (src/arch/mod.rs:9-10, src/lib.rs:5-13) are not part of this model.
- Multi-core concerns are not modelled: cross-core TLB shootdown and serialising root switches.
- The trait declares constants that sv39.rs does not define: `PAGE_OFFSET`, `ENTRY_FLAG_WRITABLE`, `ENTRY_FLAG_HUGE` and `ENTRY_FLAG_GLOBAL`. sv39.rs in turn declares constants the trait does not have: `ENTRY_FLAG_READONLY`, `ENTRY_FLAG_READWRITE`, `ENTRY_FLAG_EXEC`, `ENTRY_FLAG_DEFAULT_PAGE`, `ENTRY_FLAG_DEFAULT_TABLE` and `PHYS_OFFSET`. As written, the impl would not compile against the trait. The model keeps the variant's constants as written and takes `PHYS_OFFSET` as the Sv39 value of `PAGE_OFFSET` for `phys_to_virt`.
- src/arch/mod.rs:9-10 declares no `riscv64` module, so as written sv39.rs is not part of the crate. The model treats it as the contract's variant all the same.
- ENTRY_ADDRESS_MASK covers entry bits 12..51 (sv39.rs:16-17 marks this TODO). A real Sv39 entry holds its PPN from bit 10 (section 4.4 of the RISC-V Privileged Architecture specification). Decoding entries belongs to the `page` module, which is not part of this model, so the consequence is not modelled.
- `ENTRY_FLAG_DEFAULT_PAGE` is typed as a natural number rather than a usize, because `|` is defined on natural numbers. Sv39.FlagValues proves its value is 3.
- Every usize is a number with the bitwise operators defined on it. Machine-level bit-vector semantics is reproduced by those definitions (`<<` discards bits above 63), not taken from a bit-vector type.
