/**
 * The hardware-access environment of the Rust driver (rust/src/env.rs):
 * legacy PCI configuration access, the bump allocator over one 1 GB
 * hugepage, the length check of physical-memory mappings, and the
 * translation of a virtual address through a pagemap entry.
 *
 * Addresses are natural numbers. The hugepage address, the content of the
 * pagemap file, the address the MMIO mapping lands at and the page size are
 * inputs: they come from mmap, /proc/self/pagemap, /dev/mem and sysconf.
 */
module Env {
  import opened Wrappers
  import opened Bytes
  import opened Arith

  // ---------------------------------------------------------------------
  // PCI configuration mechanism #1
  // ---------------------------------------------------------------------

  const PciConfigAddr: u16 := 0xCF8
  const PciConfigData: u16 := 0xCFC
  /** The port written after every 32-bit write, as a short delay. */
  const DelayPort: u16 := 0x80

  datatype PciAddress = PciAddress(bus: u8, device: u8, func: u8)

  /**
   * The CONFIG_ADDRESS word that selects `register` of the function at
   * `address`: enable bit 31, bus in bits 16-23, device from bit 11,
   * function from bit 8, register in the low byte.
   */
  function PciTargetWord(address: PciAddress, register: u8): (w: bv32)
    ensures w & 0x8000_0000 != 0
    ensures w & 0xFF == register as bv32
  {
    0x8000_0000
      | ((address.bus as bv32) << 16)
      | ((address.device as bv32) << 11)
      | ((address.func as bv32) << 8)
      | (register as bv32)
  }

  /**
   * For a device number below 32 and a function number below 8 (the ranges
   * of mechanism #1) the word holds each field in its own bit range, so the
   * target is recovered from it.
   */
  lemma PciTargetWordFields(address: PciAddress, register: u8)
    requires address.device < 32 && address.func < 8
    ensures (PciTargetWord(address, register) >> 16) & 0xFF == address.bus as bv32
    ensures (PciTargetWord(address, register) >> 11) & 0x1F == address.device as bv32
    ensures (PciTargetWord(address, register) >> 8) & 0x7 == address.func as bv32
    ensures (PciTargetWord(address, register) >> 24) & 0x7F == 0
  {
  }

  /** One access to an x86 I/O port. */
  datatype PortAccess =
    | Out32(port: u16, value: bv32)
    | Out8(port: u16, byte: bv8)
    | In32(port: u16)

  /** port_out_32: the write, then a zero byte to the delay port. */
  function PortOut32(port: u16, value: bv32): seq<PortAccess>
  {
    [Out32(port, value), Out8(DelayPort, 0)]
  }

  /** The port accesses of pci_read: select the register, then read the data port. */
  function PciReadAccesses(address: PciAddress, register: u8): (acc: seq<PortAccess>)
    ensures |acc| == 3 && acc[0] == Out32(PciConfigAddr, PciTargetWord(address, register))
    ensures acc[1] == Out8(DelayPort, 0)
    ensures acc[2] == In32(PciConfigData)
  {
    PortOut32(PciConfigAddr, PciTargetWord(address, register)) + [In32(PciConfigData)]
  }

  /** The port accesses of pci_write: select the register, then write the data port. */
  function PciWriteAccesses(address: PciAddress, register: u8, value: bv32): (acc: seq<PortAccess>)
    ensures |acc| == 4 && acc[0] == Out32(PciConfigAddr, PciTargetWord(address, register))
    ensures acc[1] == Out8(DelayPort, 0)
    ensures acc[2] == Out32(PciConfigData, value)
    ensures acc[3] == Out8(DelayPort, 0)
  {
    PortOut32(PciConfigAddr, PciTargetWord(address, register)) + PortOut32(PciConfigData, value)
  }

  /**
   * A configuration space behind the two ports, as mechanism #1 describes
   * it: CONFIG_ADDRESS latches a target, CONFIG_DATA reads or writes the
   * register the latched target names. Other ports are ignored.
   */
  datatype ConfigSpace = ConfigSpace(latched: bv32, registers: map<nat, bv32>)

  /** One port access: the configuration space after it, and the value it read, if it is a read. */
  function Access(cs: ConfigSpace, a: PortAccess): (ConfigSpace, seq<bv32>)
  {
    match a
    case Out32(port, value) =>
      if port == PciConfigAddr then (cs.(latched := value), [])
      else if port == PciConfigData then (cs.(registers := cs.registers[cs.latched as nat := value]), [])
      else (cs, [])
    case Out8(_, _) => (cs, [])
    case In32(port) =>
      if port == PciConfigData && cs.latched as nat in cs.registers then (cs, [cs.registers[cs.latched as nat]])
      else (cs, [0xFFFF_FFFF])
  }

  /** The configuration space after the accesses, and the values the reads returned, in order. */
  function Perform(cs: ConfigSpace, acc: seq<PortAccess>): (ConfigSpace, seq<bv32>)
    decreases |acc|
  {
    if acc == [] then (cs, [])
    else
      var first := Access(cs, acc[0]);
      var rest := Perform(first.0, acc[1..]);
      (rest.0, first.1 + rest.1)
  }

  /** Performing two runs of accesses one after the other is performing them together. */
  lemma {:induction false} PerformAppend(cs: ConfigSpace, a: seq<PortAccess>, b: seq<PortAccess>)
    ensures Perform(cs, a + b) == (Perform(Perform(cs, a).0, b).0, Perform(cs, a).1 + Perform(Perform(cs, a).0, b).1)
    decreases |a|
  {
    if a == [] {
      assert a + b == b;
      var q := Perform(cs, b);
      assert [] + q.1 == q.1;
      assert q == (q.0, q.1);
    } else {
      assert (a + b)[0] == a[0] && (a + b)[1..] == a[1..] + b;
      var f := Access(cs, a[0]);
      var p := Perform(f.0, a[1..]);
      var q := Perform(p.0, b);
      PerformAppend(f.0, a[1..], b);
      assert f.1 + (p.1 + q.1) == (f.1 + p.1) + q.1;
    }
  }

  lemma PerformOne(cs: ConfigSpace, x: PortAccess)
    ensures Perform(cs, [x]) == Access(cs, x)
  {
    assert [x][1..] == [];
    var f := Access(cs, x);
    assert f.1 + [] == f.1;
    assert f == (f.0, f.1);
  }

  /** A pci_write followed by a pci_read of the same register reads the value written. */
  lemma PciWriteThenRead(cs: ConfigSpace, address: PciAddress, register: u8, value: bv32)
    ensures Perform(cs, PciWriteAccesses(address, register, value) + PciReadAccesses(address, register)).1 == [value]
  {
    var t := PciTargetWord(address, register);
    var w := PciWriteAccesses(address, register, value);
    var rd := PciReadAccesses(address, register);
    var cs1 := cs.(latched := t);
    var cs2 := cs1.(registers := cs1.registers[t as nat := value]);
    assert rd[2..] == [In32(PciConfigData)] && w[3..] == [Out8(DelayPort, 0)];
    assert Access(cs2, In32(PciConfigData)).0 == cs2;
    assert Access(cs2, In32(PciConfigData)).1 == [value];
    PerformOne(cs2, In32(PciConfigData));
    PerformOne(cs2, Out8(DelayPort, 0));
    assert Perform(cs2, rd[2..]) == (cs2, [value]);
    assert rd[1..][0] == Out8(DelayPort, 0) && rd[1..][1..] == rd[2..] && [] + [value] == [value];
    assert w[2..][0] == Out32(PciConfigData, value) && w[2..][1..] == w[3..];
    assert w[1..][0] == Out8(DelayPort, 0) && w[1..][1..] == w[2..];
    assert Perform(cs2, rd[1..]) == (cs2, [value]);
    assert Perform(cs2, rd) == (cs2, [value]);
    assert Perform(cs2, w[3..]) == (cs2, []);
    assert Perform(cs1, w[2..]) == (cs2, []);
    assert Perform(cs1, w[1..]) == (cs2, []);
    assert Perform(cs, w) == (cs2, []);
    PerformAppend(cs, w, rd);
  }

  // ---------------------------------------------------------------------
  // The hugepage bump allocator
  // ---------------------------------------------------------------------

  const HugepageLog: nat := 30
  /** 1 << HugepageLog: one 1 GB hugepage. */
  const HugepageSize: nat := 0x4000_0000

  datatype AllocError =
    | NoSpaceForAlignment   // "Not enough space for alignment"
    | NoSpaceForAllocation  // "Not enough space for allocation"

  /**
   * The modulus by which allocate_slice pads: `size + 64 - size % 64`, the
   * least multiple of 64 strictly above the element size. It is never zero.
   */
  function AlignModulus(size: nat): (m: nat)
    ensures m >= 64 && m % 64 == 0
    ensures size < m <= size + 64
  {
    size + 64 - size % 64
  }

  /** The padding allocate_slice inserts before an element of `size` bytes. */
  function AlignDiff(used: nat, size: nat): (pad: nat)
    ensures pad < AlignModulus(size)
    ensures pad <= used
    ensures used < AlignModulus(size) ==> pad == used
  {
    ModBelow(used, AlignModulus(size));
    used % AlignModulus(size)
  }

  /**
   * One call of allocate_slice on the cursor `used`, for elements of
   * `size` bytes and `fullSize == count * size` bytes in all: the outcome
   * (the offset of the new region, or the panic) and the cursor it leaves.
   * When the second check fails the padding has already been added.
   */
  datatype Step = Step(outcome: Result<nat, AllocError>, used: nat)

  function AllocStep(used: nat, size: nat, fullSize: nat): (s: Step)
    ensures used <= s.used
    ensures used < HugepageSize ==> s.used < HugepageSize
    ensures s.outcome.Success? ==> used <= s.outcome.value && s.outcome.value + fullSize == s.used
  {
    var pad := AlignDiff(used, size);
    if pad + used >= HugepageSize then Step(Failure(NoSpaceForAlignment), used)
    else if fullSize + (used + pad) >= HugepageSize then Step(Failure(NoSpaceForAllocation), used + pad)
    else Step(Success(used + pad), used + pad + fullSize)
  }

  /** The three ways AllocStep ends, given the padding as allocate_slice computes it. */
  lemma AllocStepCases(used: nat, size: nat, fullSize: nat, pad: nat)
    requires pad == used % (size + 64 - size % 64)
    ensures pad == AlignDiff(used, size)
    ensures pad + used >= HugepageSize ==> AllocStep(used, size, fullSize) == Step(Failure(NoSpaceForAlignment), used)
    ensures pad + used < HugepageSize && fullSize + (used + pad) >= HugepageSize ==>
              AllocStep(used, size, fullSize) == Step(Failure(NoSpaceForAllocation), used + pad)
    ensures pad + used < HugepageSize && fullSize + (used + pad) < HugepageSize ==>
              AllocStep(used, size, fullSize) == Step(Success(used + pad), used + pad + fullSize)
  {
  }

  /** When allocate_slice fails, and what it leaves behind. */
  lemma AllocStepOutcome(used: nat, size: nat, fullSize: nat)
    ensures var s := AllocStep(used, size, fullSize);
      && (s.outcome == Failure(NoSpaceForAlignment) <==> used + AlignDiff(used, size) >= HugepageSize)
      && (s.outcome == Failure(NoSpaceForAlignment) ==> s.used == used)
      && (s.outcome == Failure(NoSpaceForAllocation) ==> s.used == used + AlignDiff(used, size))
      && (s.outcome.Success? <==> used + AlignDiff(used, size) + fullSize < HugepageSize)
      && (s.outcome.Success? ==> s.outcome.value == used + AlignDiff(used, size))
  {
  }

  /** A request of `allocate_slice::<T>(count)` with `size_of::<T>() == size`. */
  datatype Request = Request(size: nat, count: nat) {
    /** The bytes the request claims after its padding. */
    function FullSize(): nat { count * size }
  }

  /** A region [start, end) of the hugepage, as offsets from its base. */
  datatype Extent = Extent(start: nat, end: nat)

  /** The regions a series of requests obtains, the final cursor, and the panic that ended it, if any. */
  datatype Run = Run(extents: seq<Extent>, used: nat, failure: Option<AllocError>)

  function AllocAll(used: nat, reqs: seq<Request>): (run: Run)
    decreases |reqs|
  {
    if reqs == [] then Run([], used, None)
    else
      var s := AllocStep(used, reqs[0].size, reqs[0].FullSize());
      match s.outcome
      case Failure(e) => Run([], s.used, Some(e))
      case Success(start) =>
        var rest := AllocAll(s.used, reqs[1..]);
        Run([Extent(start, start + reqs[0].FullSize())] + rest.extents, rest.used, rest.failure)
  }

  /** The regions of `reqs`, in order, each as long as its request and within [lo, hi]. */
  ghost predicate Laid(extents: seq<Extent>, reqs: seq<Request>, lo: nat, hi: nat)
    requires |extents| <= |reqs|
  {
    && (forall i :: 0 <= i < |extents| ==>
          lo <= extents[i].start <= extents[i].end <= hi
          && extents[i].end - extents[i].start == reqs[i].FullSize())
    && (forall i, j :: 0 <= i < j < |extents| ==> extents[i].end <= extents[j].start)
  }

  /** A region ending where the following regions may start extends their layout to the front. */
  lemma LaidCons(first: Extent, rest: seq<Extent>, reqs: seq<Request>, lo: nat, hi: nat)
    requires 1 <= |reqs| && |rest| <= |reqs| - 1
    requires lo <= first.start <= first.end <= hi && first.end - first.start == reqs[0].FullSize()
    requires Laid(rest, reqs[1..], first.end, hi)
    ensures Laid([first] + rest, reqs, lo, hi)
  {
    var e := [first] + rest;
    forall i | 0 < i < |e|
      ensures e[i] == rest[i - 1] && reqs[i] == reqs[1..][i - 1]
    {
    }
  }

  /**
   * The regions of successive allocations are disjoint, in increasing order,
   * each as long as its request, and all below the final cursor, which stays
   * below the hugepage size; every request is served unless one panics.
   */
  lemma {:induction false} AllocAllDisjoint(used: nat, reqs: seq<Request>)
    requires used < HugepageSize
    decreases |reqs|
    ensures var run := AllocAll(used, reqs);
      && run.used < HugepageSize
      && (run.failure.None? <==> |run.extents| == |reqs|)
      && |run.extents| <= |reqs|
      && Laid(run.extents, reqs, used, run.used)
  {
    if reqs == [] {
      assert AllocAll(used, reqs) == Run([], used, None);
    } else {
      var fullSize := reqs[0].FullSize();
      var s := AllocStep(used, reqs[0].size, fullSize);
      match s.outcome
      case Failure(e) =>
        assert AllocAll(used, reqs) == Run([], s.used, Some(e));
      case Success(start) =>
        AllocAllDisjoint(s.used, reqs[1..]);
        var rest := AllocAll(s.used, reqs[1..]);
        var first := Extent(start, start + fullSize);
        assert AllocAll(used, reqs) == Run([first] + rest.extents, rest.used, rest.failure);
        LaidCons(first, rest.extents, reqs, used, rest.used);
    }
  }

  /**
   * The padding is not an address alignment: 10 four-byte elements and then
   * 10 more, from a fresh hugepage, land at offsets 0 and 80, and 80 is not
   * a multiple of 64.
   */
  lemma TwoSmallAllocations()
    ensures AllocAll(0, [Request(4, 10), Request(4, 10)]).extents == [Extent(0, 40), Extent(80, 120)]
    ensures 80 % 64 != 0
  {
    assert AllocStep(0, 4, 40) == Step(Success(0), 40);
    assert AlignDiff(40, 4) == 40;
    assert AllocStep(40, 4, 40) == Step(Success(80), 120);
    var reqs := [Request(4, 10), Request(4, 10)];
    assert reqs[1..] == [Request(4, 10)] && reqs[1..][1..] == [];
  }

  /** A typed view of `len` elements starting at address `addr`. */
  datatype Slice = Slice(addr: nat, len: nat)

  /** `<&mut [T]>::try_into::<&mut [T; n]>()`: succeeds exactly when the lengths agree. */
  function TryIntoArray(s: Slice, n: nat): (r: Option<Slice>)
    ensures r.Some? <==> s.len == n
    ensures r.Some? ==> r.value == s
  {
    if s.len == n then Some(s) else None
  }

  /**
   * The environment: the current write pointer into the hugepage and the
   * number of bytes used so far. `page` is where mmap placed the hugepage.
   */
  class LinuxEnvironment {
    var allocatedPage: nat
    var usedBytes: nat
    ghost const page: nat

    /** The pointer and the cursor move together, and the cursor stays inside the hugepage. */
    ghost predicate Valid()
      reads this
    {
      allocatedPage == page + usedBytes && usedBytes < HugepageSize
    }

    /** LinuxEnvironment::new, given the address of the hugepage mmap returned. */
    constructor (hugepage: nat)
      ensures Valid() && page == hugepage && usedBytes == 0
    {
      page := hugepage;
      allocatedPage := hugepage;
      usedBytes := 0;
    }

    /** allocate_slice::<T>(count) with `size_of::<T>() == size`. */
    method AllocateSlice(size: nat, count: nat) returns (r: Result<Slice, AllocError>)
      requires Valid()
      modifies this
      ensures Valid()
      ensures usedBytes == AllocStep(old(usedBytes), size, count * size).used
      ensures r == match AllocStep(old(usedBytes), size, count * size).outcome
                   case Success(start) => Success(Slice(page + start, count))
                   case Failure(e) => Failure(e)
      ensures r.Success? ==> r.value.addr == old(allocatedPage) + AlignDiff(old(usedBytes), size)
    {
      ghost var fullBytes := count * size;
      ghost var step := AllocStep(usedBytes, size, fullBytes);
      var alignDiff := usedBytes % (size + 64 - (size % 64));
      AllocStepCases(usedBytes, size, fullBytes, alignDiff);
      if alignDiff + usedBytes >= HugepageSize {
        return Failure(NoSpaceForAlignment);
      }
      allocatedPage := allocatedPage + alignDiff;
      usedBytes := usedBytes + alignDiff;

      var fullSize := count * size;
      if fullSize + usedBytes >= HugepageSize {
        return Failure(NoSpaceForAllocation);
      }
      var result := allocatedPage;
      allocatedPage := allocatedPage + fullSize;
      usedBytes := usedBytes + fullSize;
      r := Success(Slice(result, count));
    }

    /** allocate::<T, COUNT>(): allocate_slice(COUNT), then the conversion to a fixed-size array. */
    method Allocate(size: nat, count: nat) returns (r: Result<Slice, AllocError>)
      requires Valid()
      modifies this
      ensures Valid()
      ensures usedBytes == AllocStep(old(usedBytes), size, count * size).used
      ensures r.Success? <==> AllocStep(old(usedBytes), size, count * size).outcome.Success?
      ensures r.Success? ==> r.value.len == count
                             && r.value.addr == page + AllocStep(old(usedBytes), size, count * size).outcome.value
    {
      var s := AllocateSlice(size, count);
      if s.Failure? {
        return Failure(s.error);
      }
      var a := TryIntoArray(s.value, count);
      // the unwrap never panics: the slice has exactly `count` elements
      assert a.Some?;
      r := Success(a.value);
    }
  }

  // ---------------------------------------------------------------------
  // Physical-memory mappings
  // ---------------------------------------------------------------------

  datatype MapError =
    | MappingFailed      // opening /dev/mem or mapping it failed (the unwraps)
    | MappingMisaligned  // "Something went wrong with the /dev/mem mapping"

  /** The three parts `<[u8]>::align_to_mut::<T>` splits a byte slice into, counted in bytes, elements and bytes. */
  datatype Split = Split(prefix: nat, middle: nat, suffix: nat)

  /**
   * align_to_mut on `len` bytes at address `ptr`, for a T of `size` bytes
   * and alignment `align`: the shortest prefix that reaches an aligned
   * address, then as many whole elements as fit. A zero-sized T leaves the
   * whole input in the prefix.
   */
  function AlignTo(ptr: nat, len: nat, size: nat, align: nat): (s: Split)
    requires align >= 1
    ensures s.prefix + s.middle * size + s.suffix == len
    ensures s.prefix < len ==> (ptr + s.prefix) % align == 0 && s.suffix < size
  {
    if size == 0 then Split(len, 0, 0)
    else
      var offset := AlignOffset(ptr, align);
      if offset > len then Split(len, 0, 0)
      else Split(offset, (len - offset) / size, (len - offset) % size)
  }

  /** `ptr.align_offset(align)`: the distance to the next address that is a multiple of align. */
  function AlignOffset(ptr: nat, align: nat): (offset: nat)
    requires align >= 1
    ensures offset < align && (ptr + offset) % align == 0
    ensures offset == 0 <==> ptr % align == 0
  {
    var k := ptr % align;
    if k == 0 then 0
    else
      DivModUnique(ptr + (align - k), align, ptr / align + 1, 0);
      align - k
  }

  /**
   * map_physical_memory::<T>(addr, count): maps `count * size` bytes of
   * /dev/mem from physical address `addr`; `mapped` is the address the
   * mapping starts at (None when opening or mapping failed), an arbitrary
   * input here. The mapping library places it at a page base plus
   * `addr` modulo the page size, so whether it is aligned for T depends on
   * `addr`, which this model does not carry. The typed view must cover the
   * mapping exactly.
   */
  function MapPhysicalMemory(mapped: Option<nat>, count: nat, size: nat, align: nat): (r: Result<Slice, MapError>)
    requires align >= 1
    ensures mapped.None? ==> r == Failure(MappingFailed)
    ensures r.Success? ==> mapped.Some? && r.value.addr == mapped.value && r.value.len * size == count * size
  {
    match mapped
    case None => Failure(MappingFailed)
    case Some(ptr) =>
      var fullSize := count * size;
      var parts := AlignTo(ptr, fullSize, size, align);
      if parts.prefix != 0 || parts.suffix != 0 then Failure(MappingMisaligned)
      else Success(Slice(ptr, parts.middle))
  }

  /**
   * A mapping that starts at an address aligned for T yields exactly
   * `count` elements of a non-zero-sized T; a misaligned one of non-zero
   * length panics.
   */
  lemma MapPhysicalMemoryCount(ptr: nat, count: nat, size: nat, align: nat)
    requires align >= 1 && size > 0 && size % align == 0
    ensures ptr % align == 0 ==> MapPhysicalMemory(Some(ptr), count, size, align) == Success(Slice(ptr, count))
    ensures ptr % align != 0 && count > 0 ==> MapPhysicalMemory(Some(ptr), count, size, align) == Failure(MappingMisaligned)
  {
    MulDivCancel(count, size);
    if count > 0 {
      MulMono(count, size);
    }
  }

  /** A zero-sized T maps to an empty view, whatever `count` is. */
  lemma MapPhysicalMemoryZeroSized(ptr: nat, count: nat, align: nat)
    requires align >= 1
    ensures MapPhysicalMemory(Some(ptr), count, 0, align) == Success(Slice(ptr, 0))
  {
  }

  // ---------------------------------------------------------------------
  // Virtual-to-physical translation
  // ---------------------------------------------------------------------

  datatype PhysError =
    | PagemapReadFailed  // seek or read_exact past the end of the pagemap (the unwraps)
    | PageNotPresent     // "Page not present"
    | PageNotMapped      // "Page not mapped"

  const PresentBit: bv64 := 0x8000_0000_0000_0000
  const PfnMask: bv64 := 0x7F_FFFF_FFFF_FFFF

  /** The byte offset of the pagemap entry of the page holding addr: one 8-byte entry per page. */
  function PagemapOffset(addr: nat, pageSize: nat): (offset: nat)
    requires pageSize > 0
    ensures offset % 8 == 0 && offset / 8 == addr / pageSize
  {
    (addr / pageSize) * 8
  }

  /** The 8 bytes at `offset` of the pagemap, in native (little-endian) order. */
  function ReadEntry(pagemap: seq<u8>, offset: nat): (r: Result<bv64, PhysError>)
    ensures r.Success? <==> offset + 8 <= |pagemap|
  {
    if offset + 8 <= |pagemap| then
      var v := LeValue(pagemap[offset..offset + 8]);
      Pow256Widths();
      Success(v as bv64)
    else Failure(PagemapReadFailed)
  }

  /** The physical address in the page frame `pfn` at offset `addr % pageSize`. */
  function FrameAddress(pfn: nat, addr: nat, pageSize: nat): (phys: nat)
    requires pageSize > 0
    ensures phys % pageSize == addr % pageSize
    ensures phys / pageSize == pfn
  {
    DivModUnique(pfn * pageSize + addr % pageSize, pageSize, pfn, addr % pageSize);
    pfn * pageSize + addr % pageSize
  }

  /**
   * The checks and the arithmetic of get_physical_address once the 64-bit
   * pagemap entry of addr's page is known: the entry must have its present
   * bit (63) set and a non-zero page-frame number (bits 0-54).
   */
  function Translate(addr: nat, pageSize: nat, metadata: bv64): (r: Result<nat, PhysError>)
    requires pageSize > 0
  {
    if metadata & PresentBit == 0 then Failure(PageNotPresent)
    else
      var pfn := metadata & PfnMask;
      if pfn == 0 then Failure(PageNotMapped)
      else Success(FrameAddress(pfn as nat, addr, pageSize))
  }

  /**
   * Translation fails exactly when the present bit is clear or the frame
   * number is zero; otherwise the result lies in that frame, at addr's
   * offset within its page, and never in frame 0.
   */
  lemma TranslateSpec(addr: nat, pageSize: nat, metadata: bv64)
    requires pageSize > 0
    ensures var r := Translate(addr, pageSize, metadata);
      && (metadata & PresentBit == 0 ==> r == Failure(PageNotPresent))
      && (metadata & PresentBit != 0 && metadata & PfnMask == 0 ==> r == Failure(PageNotMapped))
      && (r.Success? <==> metadata & PresentBit != 0 && metadata & PfnMask != 0)
      && (r.Success? ==>
            && r.value == (metadata & PfnMask) as nat * pageSize + addr % pageSize
            && r.value % pageSize == addr % pageSize
            && r.value / pageSize == (metadata & PfnMask) as nat
            && r.value >= pageSize)
  {
    if metadata & PresentBit != 0 && metadata & PfnMask != 0 {
      var pfn := (metadata & PfnMask) as nat;
      MulMono(pfn, pageSize);
    }
  }

  /**
   * get_physical_address on addr, with the content of /proc/self/pagemap
   * as input: read the entry of addr's page, then translate through it.
   */
  function GetPhysicalAddress(addr: nat, pageSize: nat, pagemap: seq<u8>): (r: Result<nat, PhysError>)
    requires pageSize > 0
    ensures PagemapOffset(addr, pageSize) + 8 > |pagemap| <==> r == Failure(PagemapReadFailed)
    ensures PagemapOffset(addr, pageSize) + 8 <= |pagemap| ==>
              r == Translate(addr, pageSize, ReadEntry(pagemap, PagemapOffset(addr, pageSize)).value)
  {
    match ReadEntry(pagemap, PagemapOffset(addr, pageSize))
    case Failure(e) => Failure(e)
    case Success(metadata) => Translate(addr, pageSize, metadata)
  }
}
