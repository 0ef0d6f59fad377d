/** The crate's value types: physical and virtual addresses, the size
    constants, and the memory-area record handed out by an architecture's
    boot-time discovery. All of them are plain immutable values. */
module Addresses {
  import opened Bits

  const KILOBYTE: Usize := 1024
  const MEGABYTE: Usize := KILOBYTE * KILOBYTE
  const GIGABYTE: Usize := KILOBYTE * MEGABYTE
  const TERABYTE: Usize := KILOBYTE * GIGABYTE

  /** Each size constant is the next power of 2^10. */
  lemma {:induction false} SizeConstants()
    ensures KILOBYTE == Pow2(10)
    ensures MEGABYTE == Pow2(20)
    ensures GIGABYTE == Pow2(30)
    ensures TERABYTE == Pow2(40)
  {
    assert Pow2(10) == 1024;
    Pow2Add(10, 10);
    Pow2Add(10, 20);
    Pow2Add(10, 30);
  }

  /** The result of a total-order comparison, as Rust's `Ordering`. */
  datatype Ordering = Less | Equal | Greater {
    /** The answer of the same comparison with its operands swapped. */
    function Reverse(): Ordering
    {
      match this
      case Less => Greater
      case Equal => Equal
      case Greater => Less
    }
  }

  /** A physical memory address: a usize with a tag of its own. Equality and
      ordering are the derived ones of a single-field struct. */
  datatype PhysicalAddress = PhysicalAddress(raw: Usize) {

    /** Wraps a raw usize; no range or alignment check. */
    static function New(address: Usize): (r: PhysicalAddress)
      ensures r.Data() == address
    {
      PhysicalAddress(address)
    }

    /** The raw usize. */
    function Data(): Usize
    {
      raw
    }

    /** The address `offset` bytes further on. Rust's `+` on usize either
        panics or wraps on overflow, depending on the build; the model
        excludes overflow instead. */
    function Add(offset: Usize): (r: PhysicalAddress)
      requires Data() + offset <= USIZE_MAX
      ensures r.Data() == Data() + offset
      ensures r.Cmp(this) != Less
    {
      PhysicalAddress(raw + offset)
    }

    /** The derived `Ord::cmp`: compares the wrapped usize. */
    function Cmp(other: PhysicalAddress): (r: Ordering)
      ensures r == Equal <==> this == other
      ensures r == Less <==> Data() < other.Data()
      ensures r == Greater <==> Data() > other.Data()
    {
      if raw < other.raw then Less
      else if raw == other.raw then Equal
      else Greater
    }

    /** `data` undoes `new`, and `new` undoes `data`. */
    lemma NewData(address: Usize)
      ensures New(address).Data() == address
      ensures New(Data()) == this
    {
    }

    /** Adding in two steps is adding the sum, as long as no step overflows. */
    lemma AddComposes(x: Usize, y: Usize)
      requires Data() + x + y <= USIZE_MAX
      ensures Add(x).Add(y) == Add(x + y)
      ensures Add(x).Add(y) == Add(y).Add(x)
    {
    }

    /** `add` commutes with `new`. */
    static lemma NewAdd(x: Usize, offset: Usize)
      requires x + offset <= USIZE_MAX
      ensures New(x).Add(offset) == New(x + offset)
    {
    }

    /** The comparison is a total order: swapping the operands reverses it,
        and it is transitive. Adding the same offset keeps the order. */
    lemma CmpOrder(b: PhysicalAddress, c: PhysicalAddress, offset: Usize)
      ensures b.Cmp(this) == Cmp(b).Reverse()
      ensures Cmp(b) == Less && b.Cmp(c) == Less ==> Cmp(c) == Less
      ensures Data() + offset <= USIZE_MAX && b.Data() + offset <= USIZE_MAX ==>
                Add(offset).Cmp(b.Add(offset)) == Cmp(b)
    {
    }
  }

  /** A virtual memory address: the same shape as a physical one, kept apart
      by its type. */
  datatype VirtualAddress = VirtualAddress(raw: Usize) {

    /** Wraps a raw usize; no range or alignment check. */
    static function New(address: Usize): (r: VirtualAddress)
      ensures r.Data() == address
    {
      VirtualAddress(address)
    }

    /** The raw usize. */
    function Data(): Usize
    {
      raw
    }

    /** The address `offset` bytes further on; overflow is excluded, as for
        physical addresses. */
    function Add(offset: Usize): (r: VirtualAddress)
      requires Data() + offset <= USIZE_MAX
      ensures r.Data() == Data() + offset
      ensures r.Cmp(this) != Less
    {
      VirtualAddress(raw + offset)
    }

    /** The derived `Ord::cmp`: compares the wrapped usize. */
    function Cmp(other: VirtualAddress): (r: Ordering)
      ensures r == Equal <==> this == other
      ensures r == Less <==> Data() < other.Data()
      ensures r == Greater <==> Data() > other.Data()
    {
      if raw < other.raw then Less
      else if raw == other.raw then Equal
      else Greater
    }

    /** `data` undoes `new`, and `new` undoes `data`. */
    lemma NewData(address: Usize)
      ensures New(address).Data() == address
      ensures New(Data()) == this
    {
    }

    /** Adding in two steps is adding the sum, as long as no step overflows. */
    lemma AddComposes(x: Usize, y: Usize)
      requires Data() + x + y <= USIZE_MAX
      ensures Add(x).Add(y) == Add(x + y)
      ensures Add(x).Add(y) == Add(y).Add(x)
    {
    }

    /** `add` commutes with `new`. */
    static lemma NewAdd(x: Usize, offset: Usize)
      requires x + offset <= USIZE_MAX
      ensures New(x).Add(offset) == New(x + offset)
    {
    }

    /** The comparison is a total order: swapping the operands reverses it,
        and it is transitive. Adding the same offset keeps the order. */
    lemma CmpOrder(b: VirtualAddress, c: VirtualAddress, offset: Usize)
      ensures b.Cmp(this) == Cmp(b).Reverse()
      ensures Cmp(b) == Less && b.Cmp(c) == Less ==> Cmp(c) == Less
      ensures Data() + offset <= USIZE_MAX && b.Data() + offset <= USIZE_MAX ==>
                Add(offset).Cmp(b.Add(offset)) == Cmp(b)
    {
    }
  }

  /** One physically contiguous, usable region of memory found at boot. */
  datatype MemoryArea = MemoryArea(base: PhysicalAddress, size: Usize)
}
