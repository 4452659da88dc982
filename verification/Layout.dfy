/** Virtual addresses and the kernel's region layout (kernel/core/src/addr.rs, kernel/mm/src/layout.rs). */
module Layout {
  import opened Prelude

  const TWO_47: nat := 0x8000_0000_0000
  const TWO_48: nat := 0x1_0000_0000_0000
  const TIB: nat := 0x100_0000_0000
  const GIB: nat := 0x4000_0000
  const PAGE_SIZE: nat := 4096

  /** `VirtAddr::new_truncate`: sign-extension from bit 47. */
  function Truncate(addr: nat): nat {
    var low := addr % TWO_48;
    if low < TWO_47 then low else low + (TWO_64 - TWO_48)
  }

  predicate Canonical(addr: nat) {
    addr < TWO_47 || TWO_64 - TWO_47 <= addr < TWO_64
  }

  /** Truncation changes exactly the addresses that are not canonical. */
  lemma TruncateKeepsCanonical(addr: nat)
    ensures Truncate(addr) == addr <==> Canonical(addr)
    ensures Canonical(Truncate(addr))
  {
  }

  /** `VirtAddr + u64`. */
  function Offset(addr: nat, n: nat): nat {
    Truncate((addr + n) % TWO_64)
  }

  const DEFAULT_REGIONS_BASE: nat := 0xFFFF_C000_0000_0000
  const HEAP_OFFSET: nat := 0
  const HEAP_MAX_SIZE: nat := 2 * TIB
  const STACKS_OFFSET: nat := 8 * TIB
  const STACKS_MAX_SIZE: nat := 512 * GIB
  const MMIO_OFFSET: nat := 16 * TIB
  const MMIO_MAX_SIZE: nat := TIB
  const PERCPU_OFFSET: nat := 32 * TIB
  const PERCPU_MAX_SIZE: nat := TIB
  const VDSO_OFFSET: nat := 48 * TIB
  const VDSO_MAX_SIZE: nat := 0x20_0000
  const KERNEL_IMAGE_BASE: nat := 0xFFFF_FFFF_8000_0000
  const KERNEL_IMAGE_MAX_SIZE: nat := 0x800_0000

  datatype VirtRegion = VirtRegion(base: nat, maxSize: nat) {

    predicate Contains(addr: nat) {
      base <= addr < base + maxSize
    }

    /** Every address of the region, its end included, is canonical. */
    ghost predicate IsCanonical() {
      base + maxSize < TWO_64 && forall a: nat :: base <= a <= base + maxSize ==> Canonical(a)
    }
  }

  datatype MemoryLayout = MemoryLayout(
    heap: VirtRegion, stacks: VirtRegion, mmio: VirtRegion,
    percpu: VirtRegion, vdso: VirtRegion, kernelImage: VirtRegion)

  function WithRegionsBase(regionsBase: nat): MemoryLayout {
    var rb := Truncate(regionsBase);
    MemoryLayout(
      VirtRegion(Offset(rb, HEAP_OFFSET), HEAP_MAX_SIZE),
      VirtRegion(Offset(rb, STACKS_OFFSET), STACKS_MAX_SIZE),
      VirtRegion(Offset(rb, MMIO_OFFSET), MMIO_MAX_SIZE),
      VirtRegion(Offset(rb, PERCPU_OFFSET), PERCPU_MAX_SIZE),
      VirtRegion(Offset(rb, VDSO_OFFSET), VDSO_MAX_SIZE),
      VirtRegion(Truncate(KERNEL_IMAGE_BASE), KERNEL_IMAGE_MAX_SIZE))
  }

  /** Adding an offset inside the kernel half is plain addition. */
  lemma OffsetInKernelHalf(base: nat, n: nat)
    requires TWO_64 - TWO_47 <= base && base + n < TWO_64
    ensures Offset(base, n) == base + n && Truncate(base) == base
  {
    TruncateKeepsCanonical(base);
    TruncateKeepsCanonical(base + n);
  }

  /** For every base that leaves room for the regions below the top of the kernel half, no address is in two
      of the three regions, and all of them are canonical. */
  lemma RegionsApart(regionsBase: nat)
    requires TWO_64 - TWO_47 <= regionsBase < TWO_64 - MMIO_OFFSET - MMIO_MAX_SIZE
    ensures var l := WithRegionsBase(regionsBase);
            && l.heap.IsCanonical() && l.stacks.IsCanonical() && l.mmio.IsCanonical()
            && (forall a: nat :: l.heap.Contains(a) ==> !l.stacks.Contains(a) && !l.mmio.Contains(a))
            && (forall a: nat :: l.stacks.Contains(a) ==> !l.mmio.Contains(a))
            && l.heap.base == regionsBase && l.stacks.base == regionsBase + STACKS_OFFSET
            && l.mmio.base == regionsBase + MMIO_OFFSET
  {
    OffsetInKernelHalf(regionsBase, 0);
    OffsetInKernelHalf(regionsBase, STACKS_OFFSET);
    OffsetInKernelHalf(regionsBase, MMIO_OFFSET);
  }

  function Regions(l: MemoryLayout): (r: seq<VirtRegion>)
    ensures |r| == 6
  {
    [l.heap, l.stacks, l.mmio, l.percpu, l.vdso, l.kernelImage]
  }

  /** For every base with room for all regions below the kernel image, the six regions are canonical and follow
      each other without overlap; so they do for the default base. */
  lemma AllRegionsApart(regionsBase: nat)
    requires TWO_64 - TWO_47 <= regionsBase && regionsBase + VDSO_OFFSET + VDSO_MAX_SIZE <= KERNEL_IMAGE_BASE
    ensures var rs := Regions(WithRegionsBase(regionsBase));
            && (forall i :: 0 <= i < 6 ==> rs[i].IsCanonical())
            && (forall i, j :: 0 <= i < j < 6 ==> rs[i].base + rs[i].maxSize <= rs[j].base)
    ensures DEFAULT_REGIONS_BASE + VDSO_OFFSET + VDSO_MAX_SIZE <= KERNEL_IMAGE_BASE
  {
    RegionsApart(regionsBase);
    OffsetInKernelHalf(regionsBase, PERCPU_OFFSET);
    OffsetInKernelHalf(regionsBase, VDSO_OFFSET);
    OffsetInKernelHalf(KERNEL_IMAGE_BASE, 0);
  }
}
