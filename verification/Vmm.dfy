/** The kernel virtual memory manager of kernel/mm/src/vmm.rs. The page mapper is a map from pages to
    frames; the frame allocator is the list of frames it still has to give. */
module Vmm {
  import opened Prelude
  import opened Layout
  import opened Region

  const KERNEL_STACK_SIZE: nat := 64 * 1024
  const GUARD_PAGE_SIZE: nat := PAGE_SIZE
  const STACK_STRIDE: nat := GUARD_PAGE_SIZE + KERNEL_STACK_SIZE
  const STACKS_FREE_LIST_CAP: nat := 256
  const MMIO_FREE_LIST_CAP: nat := 128

  datatype VmmError = RegionExhausted | OutOfMemory | NotMapped | AlreadyMapped | SizeMismatch

  datatype KernelStack = KernelStack(top: nat, bottom: nat, guard: nat)

  datatype MmioMapping = MmioMapping(virtBase: nat, physBase: nat, size: nat)

  /** `Page::containing_address`. */
  function PageOf(addr: nat): nat {
    addr - addr % PAGE_SIZE
  }

  /** The base address of the `i`th page from `base`. */
  function NthPage(base: nat, i: nat): nat {
    base + i * PAGE_SIZE
  }

  ghost function Pages(base: nat, count: nat): set<nat> {
    set i: nat | i < count :: NthPage(base, i)
  }

  /** A page one of the calls may map: in the heap or MMIO region, or one of the sixteen upper pages of a
      stack slot. */
  ghost predicate MayMap(l: MemoryLayout, page: nat) {
    || l.heap.Contains(page)
    || l.mmio.Contains(page)
    || (l.stacks.Contains(page) && (page - l.stacks.base) % STACK_STRIDE >= GUARD_PAGE_SIZE)
  }

  /** The guard page of the `k`th stack slot. */
  function GuardPage(l: MemoryLayout, k: nat): nat {
    l.stacks.base + k * STACK_STRIDE
  }

  /** The layout of a page-aligned regions base with room above it. */
  ghost predicate GoodLayout(l: MemoryLayout) {
    var rb := l.heap.base;
    && rb % PAGE_SIZE == 0 && TWO_64 - TWO_47 <= rb < TWO_64 - MMIO_OFFSET - MMIO_MAX_SIZE
    && l.heap == VirtRegion(rb, HEAP_MAX_SIZE)
    && l.stacks == VirtRegion(rb + STACKS_OFFSET, STACKS_MAX_SIZE)
    && l.mmio == VirtRegion(rb + MMIO_OFFSET, MMIO_MAX_SIZE)
  }

  lemma PageBases(rb: nat)
    requires rb % PAGE_SIZE == 0
    ensures (rb + STACKS_OFFSET) % PAGE_SIZE == 0 && (rb + MMIO_OFFSET) % PAGE_SIZE == 0
  {
  }

  lemma GoodLayoutFacts(l: MemoryLayout)
    requires GoodLayout(l)
    ensures l.heap.IsCanonical() && l.stacks.IsCanonical() && l.mmio.IsCanonical()
    ensures forall a: nat :: l.heap.Contains(a) ==> !l.stacks.Contains(a) && !l.mmio.Contains(a)
    ensures forall a: nat :: l.stacks.Contains(a) ==> !l.mmio.Contains(a)
    ensures l.heap.base % PAGE_SIZE == 0 && l.stacks.base % PAGE_SIZE == 0 && l.mmio.base % PAGE_SIZE == 0
    ensures l.stacks.base + l.stacks.maxSize + STACK_STRIDE < TWO_64
  {
    var rb := l.heap.base;
    RegionsApart(rb);
    PageBases(rb);
  }

  /** A guard page is never among the pages the calls may map. */
  lemma GuardsAreOffLimits(l: MemoryLayout, k: nat)
    requires GoodLayout(l) && l.stacks.Contains(GuardPage(l, k))
    ensures !MayMap(l, GuardPage(l, k))
  {
    GoodLayoutFacts(l);
    assert GuardPage(l, k) - l.stacks.base == k * STACK_STRIDE;
    assert (k * STACK_STRIDE) % STACK_STRIDE == 0;
  }

  /** The upper pages of the stack slot at `base` may be mapped. */
  lemma StackPagesMayBeMapped(l: MemoryLayout, base: nat, i: nat)
    requires l.stacks.base <= base && (base - l.stacks.base) % STACK_STRIDE == 0
    requires base + STACK_STRIDE <= l.stacks.base + l.stacks.maxSize && i < 16
    ensures MayMap(l, NthPage(base + GUARD_PAGE_SIZE, i))
  {
    var off := base - l.stacks.base;
    var inner := GUARD_PAGE_SIZE + i * PAGE_SIZE;
    assert off == STACK_STRIDE * (off / STACK_STRIDE);
    assert (off + inner) % STACK_STRIDE == inner;
  }

  lemma SlotMayBeMapped(l: MemoryLayout, guard: nat, bottom: nat)
    requires bottom == guard + GUARD_PAGE_SIZE
    requires l.stacks.base <= guard && (guard - l.stacks.base) % STACK_STRIDE == 0
    requires guard + STACK_STRIDE <= l.stacks.base + l.stacks.maxSize
    ensures forall i: nat :: i < 16 ==> MayMap(l, NthPage(bottom, i))
  {
    forall i: nat | i < 16
      ensures MayMap(l, NthPage(bottom, i))
    {
      StackPagesMayBeMapped(l, guard, i);
    }
  }

  // ---------------------------------------------------------------------------
  // What a call maps, and what stands behind a mapping
  // ---------------------------------------------------------------------------

  /** `after` is `before` with the first `n` pages from `base` mapped to `frames`, and nothing else changed. */
  ghost predicate Extends(before: map<nat, nat>, after: map<nat, nat>, base: nat, frames: seq<nat>, n: nat) {
    && n <= |frames|
    && (forall i: nat :: i < n ==> NthPage(base, i) in after && after[NthPage(base, i)] == frames[i])
    && (forall p :: p !in Pages(base, n) ==>
          (p in after <==> p in before) && (p in after ==> after[p] == before[p]))
  }

  lemma ExtendsNext(before: map<nat, nat>, after: map<nat, nat>, base: nat, frames: seq<nat>, i: nat)
    requires Extends(before, after, base, frames, i) && i < |frames|
    ensures Extends(before, after[NthPage(base, i) := frames[i]], base, frames, i + 1)
  {
    PagesGrow(base, i);
    assert forall k: nat :: k < i ==> NthPage(base, k) in Pages(base, i);
  }

  /** The page belongs to the used part of the heap, to a live stack slot or to a live MMIO range. */
  ghost predicate Backs(l: MemoryLayout, next: nat, stacks: set<Range>, mmio: set<Range>, p: nat) {
    (l.heap.Contains(p) && p < next) || InLive(stacks, p) || InLive(mmio, p)
  }

  ghost predicate AllBacked(l: MemoryLayout, mapped: map<nat, nat>, next: nat, stacks: set<Range>, mmio: set<Range>) {
    forall p :: p in mapped ==> Backs(l, next, stacks, mmio, p)
  }

  /** The live ranges lie in the region. */
  ghost predicate Inside(region: VirtRegion, live: set<Range>) {
    forall a: nat :: InLive(live, a) ==> region.Contains(a)
  }

  /** A new stack slot with a guard page that was never mapped. */
  ghost predicate SlotAdded(l: MemoryLayout, live: set<Range>, live': set<Range>, everMapped: set<nat>, guard: nat) {
    && live' == live + {Range(guard, STACK_STRIDE)} && Range(guard, STACK_STRIDE) !in live
    && (exists k: nat :: guard == GuardPage(l, k)) && guard !in everMapped
  }

  /** None of the first `n` pages from `base` is mapped. */
  ghost predicate Unmapped(mapped: map<nat, nat>, base: nat, n: nat) {
    forall i: nat :: i < n ==> NthPage(base, i) !in mapped
  }

  /** Mapping pages that only now have something behind them maps unmapped pages, and leaves every mapping
      backed. */
  lemma MappingIsFresh(l: MemoryLayout, before: map<nat, nat>, after: map<nat, nat>, base: nat, frames: seq<nat>,
                       n: nat, next: nat, stacks: set<Range>, mmio: set<Range>,
                       next': nat, stacks': set<Range>, mmio': set<Range>)
    requires Extends(before, after, base, frames, n) && AllBacked(l, before, next, stacks, mmio)
    requires next <= next' && stacks <= stacks' && mmio <= mmio'
    requires forall i: nat :: i < n ==>
               !Backs(l, next, stacks, mmio, NthPage(base, i)) && Backs(l, next', stacks', mmio', NthPage(base, i))
    ensures AllBacked(l, after, next', stacks', mmio') && Unmapped(before, base, n)
  {
    forall p | p in after
      ensures Backs(l, next', stacks', mmio', p)
    {
      if p in Pages(base, n) {
        var i: nat :| i < n && NthPage(base, i) == p;
      } else {
        MoreBacks(l, next, stacks, mmio, next', stacks', mmio', p);
      }
    }
  }

  lemma MoreBacks(l: MemoryLayout, next: nat, stacks: set<Range>, mmio: set<Range>,
                  next': nat, stacks': set<Range>, mmio': set<Range>, p: nat)
    requires next <= next' && stacks <= stacks' && mmio <= mmio' && Backs(l, next, stacks, mmio, p)
    ensures Backs(l, next', stacks', mmio', p)
  {
    if InLive(stacks, p) {
      var r :| r in stacks && r.Has(p);
      assert r in stacks';
    } else if InLive(mmio, p) {
      var r :| r in mmio && r.Has(p);
      assert r in mmio';
    }
  }

  /** Heap pages past the old end are backed only now. */
  lemma HeapPageIsNew(l: MemoryLayout, next: nat, stacks: set<Range>, mmio: set<Range>, next': nat, p: nat)
    requires GoodLayout(l) && Inside(l.stacks, stacks) && Inside(l.mmio, mmio)
    requires l.heap.Contains(p) && next <= p < next'
    ensures !Backs(l, next, stacks, mmio, p) && Backs(l, next', stacks, mmio, p)
  {
    GoodLayoutFacts(l);
  }

  /** So are the pages of a new stack slot. */
  lemma SlotPageIsNew(l: MemoryLayout, next: nat, stacks: set<Range>, mmio: set<Range>, slot: Range, p: nat)
    requires GoodLayout(l) && Inside(l.mmio, mmio) && l.stacks.Contains(p) && slot.Has(p) && !InLive(stacks, p)
    ensures !Backs(l, next, stacks, mmio, p) && Backs(l, next, stacks + {slot}, mmio, p)
  {
    GoodLayoutFacts(l);
    assert slot in stacks + {slot};
  }

  /** And of a new MMIO range. */
  lemma MmioPageIsNew(l: MemoryLayout, next: nat, stacks: set<Range>, mmio: set<Range>, r: Range, p: nat)
    requires GoodLayout(l) && Inside(l.stacks, stacks) && l.mmio.Contains(p) && r.Has(p) && !InLive(mmio, p)
    ensures !Backs(l, next, stacks, mmio, p) && Backs(l, next, stacks, mmio + {r}, p)
  {
    GoodLayoutFacts(l);
    assert r in mmio + {r};
  }

  ghost predicate NoPageIn(mapped: map<nat, nat>, r: Range) {
    forall p :: p in mapped ==> !r.Has(p)
  }

  /** Returning a range none of whose pages is mapped takes nothing from behind a mapping. */
  lemma ReturnKeepsBacked(l: MemoryLayout, mapped: map<nat, nat>, next: nat, stacks: set<Range>, mmio: set<Range>,
                          r: Range)
    ensures AllBacked(l, mapped, next, stacks, mmio) && NoPageIn(mapped, r) ==>
              AllBacked(l, mapped, next, stacks - {r}, mmio) && AllBacked(l, mapped, next, stacks, mmio - {r})
  {
    if AllBacked(l, mapped, next, stacks, mmio) && NoPageIn(mapped, r) {
      forall p | p in mapped
        ensures Backs(l, next, stacks - {r}, mmio, p) && Backs(l, next, stacks, mmio - {r}, p)
      {
        assert Backs(l, next, stacks, mmio, p);
        if InLive(stacks, p) {
          var s :| s in stacks && s.Has(p);
          assert s in stacks - {r};
        }
        if InLive(mmio, p) {
          var s :| s in mmio && s.Has(p);
          assert s in mmio - {r};
        }
      }
    }
  }

  /** A range just allocated overlaps none that was live before. */
  lemma NewRangeIsApart(lo: nat, free: seq<Range>, watermark: nat, live: set<Range>, r: Range)
    requires Partition(lo, free, watermark, live + {r}) && r !in live
    ensures forall a: nat :: r.Has(a) ==> !InLive(live, a)
  {
    var all := live + {r};
    assert r in all && forall s :: s in live ==> s in all;
  }

  /** All mappings the calls of one manager have made so far, and the region allocators they came from. */
  class Vmm {
    const layout: MemoryLayout
    const heapAlloc: RegionAllocator
    const stacksAlloc: FreeRegionAllocator
    const mmioAlloc: FreeRegionAllocator
    var mapped: map<nat, nat>
    ghost var everMapped: set<nat>

    ghost predicate Valid()
      reads this, heapAlloc, stacksAlloc, mmioAlloc
    {
      && GoodLayout(layout) && stacksAlloc != mmioAlloc
      && heapAlloc.Valid() && heapAlloc.region == layout.heap && (heapAlloc.next - layout.heap.base) % PAGE_SIZE == 0
      && stacksAlloc.Valid() && stacksAlloc.region == layout.stacks && stacksAlloc.unit == STACK_STRIDE
      && mmioAlloc.Valid() && mmioAlloc.region == layout.mmio && mmioAlloc.unit == PAGE_SIZE
      && SafeMappings()
    }

    /** No page was ever mapped outside the pages that may be. */
    ghost predicate SafeMappings()
      reads this
    {
      mapped.Keys <= everMapped && forall p :: p in everMapped ==> MayMap(layout, p)
    }

    /** Every mapped page has its range behind it. A caller that unmaps the pages of a range before giving the
        range back keeps it so. */
    ghost predicate Tidy()
      reads this, heapAlloc, stacksAlloc, mmioAlloc
    {
      AllBacked(layout, mapped, heapAlloc.next, stacksAlloc.live, mmioAlloc.live)
    }

    lemma LiveInside()
      requires Valid()
      ensures Inside(layout.stacks, stacksAlloc.live) && Inside(layout.mmio, mmioAlloc.live)
    {
      LiveAndFreeTile(layout.stacks.base, stacksAlloc.freeList, stacksAlloc.watermark, stacksAlloc.live);
      LiveAndFreeTile(layout.mmio.base, mmioAlloc.freeList, mmioAlloc.watermark, mmioAlloc.live);
    }

    /** After any run of calls, no guard page of any stack slot has ever been mapped. */
    lemma GuardPagesNeverMapped(k: nat)
      requires Valid() && layout.stacks.Contains(GuardPage(layout, k))
      ensures GuardPage(layout, k) !in everMapped && GuardPage(layout, k) !in mapped
    {
      GuardsAreOffLimits(layout, k);
    }

    /** After any run of calls, every live stack range is one whole number of slots from a slot boundary on. */
    lemma LiveStacksAreSlots(r: Range)
      requires Valid() && r in stacksAlloc.live && r.size > 0
      ensures exists k: nat :: r.base == GuardPage(layout, k)
      ensures r.base !in everMapped
    {
      LiveAndFreeTile(layout.stacks.base, stacksAlloc.freeList, stacksAlloc.watermark, stacksAlloc.live);
      assert Grained(STACK_STRIDE, layout.stacks.base, r);
      assert r.Has(r.base);
      SlotGuard(layout, r.base);
    }

    constructor (regionsBase: nat)
      requires regionsBase % PAGE_SIZE == 0
      requires TWO_64 - TWO_47 <= regionsBase < TWO_64 - MMIO_OFFSET - MMIO_MAX_SIZE
      ensures Valid() && Tidy() && mapped == map[] && everMapped == {}
      ensures fresh(heapAlloc) && fresh(stacksAlloc) && fresh(mmioAlloc)
      ensures layout == WithRegionsBase(regionsBase) && heapAlloc.next == layout.heap.base
      ensures stacksAlloc.watermark == layout.stacks.base && stacksAlloc.freeList == [] && stacksAlloc.live == {}
      ensures mmioAlloc.watermark == layout.mmio.base && mmioAlloc.freeList == [] && mmioAlloc.live == {}
      ensures stacksAlloc.capacity == STACKS_FREE_LIST_CAP && mmioAlloc.capacity == MMIO_FREE_LIST_CAP
    {
      var l := WithRegionsBase(regionsBase);
      RegionsApart(regionsBase);
      GoodLayoutFacts(l);
      layout := l;
      heapAlloc := new RegionAllocator(l.heap);
      stacksAlloc := new FreeRegionAllocator(l.stacks, STACKS_FREE_LIST_CAP, STACK_STRIDE);
      mmioAlloc := new FreeRegionAllocator(l.mmio, MMIO_FREE_LIST_CAP, PAGE_SIZE);
      mapped := map[];
      everMapped := {};
    }

    /** The mapping loop of the heap and of stacks: one fresh frame per page, until the frames run out. */
    method MapFresh(base: nat, count: nat, frames: seq<nat>) returns (ok: bool)
      requires (count > 0 ==> base % PAGE_SIZE == 0) && SafeMappings()
      requires forall a: nat :: base <= a < base + count * PAGE_SIZE ==> Canonical(a)
      requires forall i: nat :: i < count ==> MayMap(layout, NthPage(base, i))
      modifies this`mapped, this`everMapped
      ensures SafeMappings() && ok == (count <= |frames|)
      ensures everMapped == old(everMapped) + Pages(base, Min(count, |frames|))
      ensures Extends(old(mapped), mapped, base, frames, Min(count, |frames|))
    {
      var i := 0;
      while i < count
        invariant 0 <= i <= count && i <= |frames| && SafeMappings()
        invariant everMapped == old(everMapped) + Pages(base, i)
        invariant Extends(old(mapped), mapped, base, frames, i)
      {
        if i == |frames| {
          return false;
        }
        PageArithmetic(base, count, i);
        var page := PageOf(Offset(base, i * PAGE_SIZE));
        PagesGrow(base, i);
        ExtendsNext(old(mapped), mapped, base, frames, i);
        mapped := mapped[page := frames[i]];
        everMapped := everMapped + {page};
        i := i + 1;
      }
      return true;
    }

    /** Grows the heap by whole pages, mapping them to the given frames in order. When the frames run out, the
        pages they reached stay mapped and the range stays used. */
    method GrowHeap(bytes: nat, frames: seq<nat>) returns (r: Result<(nat, nat), VmmError>)
      requires Valid() && heapAlloc.next + bytes + 2 * PAGE_SIZE < TWO_64
      modifies this`mapped, this`everMapped, heapAlloc
      ensures Valid() && old(everMapped) <= everMapped
      ensures r == Err(RegionExhausted) <==>
                old(heapAlloc.next) + PageCount(bytes) * PAGE_SIZE > layout.heap.base + layout.heap.maxSize
      ensures r == Err(RegionExhausted) ==> mapped == old(mapped) && heapAlloc.next == old(heapAlloc.next)
      ensures r != Err(RegionExhausted) ==>
        var n, base := PageCount(bytes), old(heapAlloc.next);
        && heapAlloc.next == base + n * PAGE_SIZE
        && Extends(old(mapped), mapped, base, frames, Min(n, |frames|))
        && (old(Tidy()) ==> Unmapped(old(mapped), base, Min(n, |frames|)))
        && r == (if n <= |frames| then Ok((base, n * PAGE_SIZE)) else Err(OutOfMemory))
      ensures bytes <= PageCount(bytes) * PAGE_SIZE < bytes + PAGE_SIZE
      ensures old(Tidy()) ==> Tidy()
    {
      var pageCount := PageCount(bytes);
      var actual := pageCount * PAGE_SIZE;
      WholePages(bytes);
      GoodLayoutFacts(layout);
      LiveInside();
      var base := heapAlloc.Allocate(actual);
      if base == None {
        return Err(RegionExhausted);
      }
      MultiplesAdd(base.value - layout.heap.base, actual, PAGE_SIZE);
      PagesInRegion(layout.heap, base.value, pageCount);
      var ok := MapFresh(base.value, pageCount, frames);
      HeapGrowthIsFresh(old(mapped), base.value, frames, Min(pageCount, |frames|));
      return if ok then Ok((base.value, actual)) else Err(OutOfMemory);
    }

    lemma HeapGrowthIsFresh(before: map<nat, nat>, base: nat, frames: seq<nat>, n: nat)
      requires Inside(layout.stacks, stacksAlloc.live) && Inside(layout.mmio, mmioAlloc.live) && GoodLayout(layout)
      requires Extends(before, mapped, base, frames, n) && base <= heapAlloc.next
      requires forall i: nat :: i < n ==> layout.heap.Contains(NthPage(base, i)) && NthPage(base, i) < heapAlloc.next
      ensures AllBacked(layout, before, base, stacksAlloc.live, mmioAlloc.live) ==> Tidy() && Unmapped(before, base, n)
    {
      if AllBacked(layout, before, base, stacksAlloc.live, mmioAlloc.live) {
        forall i: nat | i < n
          ensures !Backs(layout, base, stacksAlloc.live, mmioAlloc.live, NthPage(base, i))
          ensures Backs(layout, heapAlloc.next, stacksAlloc.live, mmioAlloc.live, NthPage(base, i))
        {
          HeapPageIsNew(layout, base, stacksAlloc.live, mmioAlloc.live, heapAlloc.next, NthPage(base, i));
        }
        MappingIsFresh(layout, before, mapped, base, frames, n, base, stacksAlloc.live, mmioAlloc.live,
                       heapAlloc.next, stacksAlloc.live, mmioAlloc.live);
      }
    }

    /** Allocates a stack slot, at `slot`, and maps all of it but the guard page at its bottom. When the frames run
        out, the slot stays live with the pages they reached mapped. */
    method AllocKernelStack(frames: seq<nat>) returns (r: Result<KernelStack, VmmError>, ghost slot: nat)
      requires Valid()
      modifies this`mapped, this`everMapped, stacksAlloc
      ensures Valid() && old(everMapped) <= everMapped
      ensures r == Err(RegionExhausted) <==> old(stacksAlloc.Exhausted(STACK_STRIDE))
      ensures r == Err(RegionExhausted) ==> stacksAlloc.live == old(stacksAlloc.live) && mapped == old(mapped)
      ensures r != Err(RegionExhausted) ==>
        && old(stacksAlloc.Chosen(STACK_STRIDE, slot))
        && SlotAdded(layout, old(stacksAlloc.live), stacksAlloc.live, everMapped, slot)
        && Extends(old(mapped), mapped, slot + GUARD_PAGE_SIZE, frames, Min(16, |frames|))
        && (old(Tidy()) ==> Unmapped(old(mapped), slot + GUARD_PAGE_SIZE, Min(16, |frames|)))
        && r == (if |frames| < 16 then Err(OutOfMemory)
                 else Ok(KernelStack(slot + STACK_STRIDE, slot + GUARD_PAGE_SIZE, slot)))
      ensures old(Tidy()) ==> Tidy()
    {
      var base := TakeSlot();
      if base == None {
        return Err(RegionExhausted), 0;
      }
      var ok, bottom, top := MapSlot(base.value, frames, old(stacksAlloc.live));
      return if ok then Ok(KernelStack(top, bottom, base.value)) else Err(OutOfMemory), base.value;
    }

    /** The address range of a stack with its guard page. */
    method TakeSlot() returns (base: Option<nat>)
      requires Valid()
      modifies stacksAlloc
      ensures Valid() && (base == None <==> old(stacksAlloc.Exhausted(STACK_STRIDE)))
      ensures base == None ==> stacksAlloc.live == old(stacksAlloc.live)
      ensures base.Some? ==> old(stacksAlloc.Chosen(STACK_STRIDE, base.value))
      ensures base.Some? ==> stacksAlloc.live == old(stacksAlloc.live) + {Range(base.value, STACK_STRIDE)}
                             && Range(base.value, STACK_STRIDE) !in old(stacksAlloc.live)
    {
      StrideIsWhole();
      GoodLayoutFacts(layout);
      base := stacksAlloc.Allocate(GUARD_PAGE_SIZE + KERNEL_STACK_SIZE);
    }

    /** The mapping loop of a stack just allocated at `guard`. */
    method MapSlot(guard: nat, frames: seq<nat>, ghost liveBefore: set<Range>)
      returns (ok: bool, bottom: nat, top: nat)
      requires Valid()
      requires stacksAlloc.live == liveBefore + {Range(guard, STACK_STRIDE)}
      requires Range(guard, STACK_STRIDE) !in liveBefore
      modifies this`mapped, this`everMapped
      ensures Valid() && old(everMapped) <= everMapped && ok == (|frames| >= 16)
      ensures bottom == guard + GUARD_PAGE_SIZE && top == guard + STACK_STRIDE
      ensures SlotAdded(layout, liveBefore, stacksAlloc.live, everMapped, guard)
      ensures Extends(old(mapped), mapped, bottom, frames, Min(16, |frames|))
      ensures AllBacked(layout, old(mapped), heapAlloc.next, liveBefore, mmioAlloc.live) ==>
                Tidy() && Unmapped(old(mapped), bottom, Min(16, |frames|))
    {
      GoodLayoutFacts(layout);
      LiveInside();
      NewSlot(liveBefore, guard);
      SlotArithmetic(layout, guard);
      bottom := Offset(guard, GUARD_PAGE_SIZE);
      top := Offset(bottom, KERNEL_STACK_SIZE);
      SlotMayBeMapped(layout, guard, bottom);
      ok := MapFresh(bottom, KERNEL_STACK_SIZE / PAGE_SIZE, frames);
      StackMappingIsFresh(old(mapped), liveBefore, guard, frames, Min(16, |frames|));
    }

    /** A slot just allocated starts with a guard page and overlaps no other. */
    lemma NewSlot(liveBefore: set<Range>, base: nat)
      requires stacksAlloc.Valid() && stacksAlloc.region == layout.stacks && stacksAlloc.unit == STACK_STRIDE
      requires GoodLayout(layout) && stacksAlloc.live == liveBefore + {Range(base, STACK_STRIDE)}
      requires Range(base, STACK_STRIDE) !in liveBefore
      ensures layout.stacks.base <= base && (base - layout.stacks.base) % STACK_STRIDE == 0
      ensures base + STACK_STRIDE <= layout.stacks.base + layout.stacks.maxSize
      ensures (exists k: nat :: base == GuardPage(layout, k)) && !MayMap(layout, base)
      ensures forall a: nat :: Range(base, STACK_STRIDE).Has(a) ==> !InLive(liveBefore, a) && layout.stacks.Contains(a)
    {
      var slot := Range(base, STACK_STRIDE);
      assert slot in stacksAlloc.live;
      LiveAndFreeTile(layout.stacks.base, stacksAlloc.freeList, stacksAlloc.watermark, stacksAlloc.live);
      assert Grained(STACK_STRIDE, layout.stacks.base, slot);
      SlotGuard(layout, base);
      NewRangeIsApart(layout.stacks.base, stacksAlloc.freeList, stacksAlloc.watermark, liveBefore, slot);
    }

    lemma StackMappingIsFresh(before: map<nat, nat>, liveBefore: set<Range>, guard: nat, frames: seq<nat>, n: nat)
      requires GoodLayout(layout) && Inside(layout.mmio, mmioAlloc.live) && n <= 16
      requires stacksAlloc.live == liveBefore + {Range(guard, STACK_STRIDE)}
      requires Extends(before, mapped, guard + GUARD_PAGE_SIZE, frames, n)
      requires forall a: nat :: Range(guard, STACK_STRIDE).Has(a) ==>
                 !InLive(liveBefore, a) && layout.stacks.Contains(a)
      ensures AllBacked(layout, before, heapAlloc.next, liveBefore, mmioAlloc.live) ==>
                Tidy() && Unmapped(before, guard + GUARD_PAGE_SIZE, n)
    {
      var slot, bottom := Range(guard, STACK_STRIDE), guard + GUARD_PAGE_SIZE;
      if AllBacked(layout, before, heapAlloc.next, liveBefore, mmioAlloc.live) {
        forall i: nat | i < n
          ensures !Backs(layout, heapAlloc.next, liveBefore, mmioAlloc.live, NthPage(bottom, i))
          ensures Backs(layout, heapAlloc.next, stacksAlloc.live, mmioAlloc.live, NthPage(bottom, i))
        {
          assert slot.Has(NthPage(bottom, i));
          SlotPageIsNew(layout, heapAlloc.next, liveBefore, mmioAlloc.live, slot, NthPage(bottom, i));
        }
        MappingIsFresh(layout, before, mapped, bottom, frames, n, heapAlloc.next, liveBefore, mmioAlloc.live,
                       heapAlloc.next, stacksAlloc.live, mmioAlloc.live);
      }
    }

    /** The frames of a device: consecutive pages from `phys` on. */
    static function DeviceFrames(phys: nat, count: nat): (frames: seq<nat>)
      ensures |frames| == count && forall i: nat :: i < count ==> frames[i] == PageOf(phys + i * PAGE_SIZE)
    {
      seq(count, (i: nat) => PageOf(phys + i * PAGE_SIZE))
    }

    /** Maps device memory page by page, both caching modes alike. */
    method MapMmio(phys: nat, size: nat) returns (r: Result<MmioMapping, VmmError>)
      requires Valid() && mmioAlloc.watermark + size + 2 * PAGE_SIZE < TWO_64
      modifies this`mapped, this`everMapped, mmioAlloc
      ensures Valid() && old(everMapped) <= everMapped
      ensures r.Err? <==> PageCount(size) > 0 && old(mmioAlloc.Exhausted(PageCount(size) * PAGE_SIZE))
      ensures r.Ok? ==>
        var m, n := r.value, PageCount(size);
        && (if n > 0 then old(mmioAlloc.Chosen(n * PAGE_SIZE, m.virtBase)) else m.virtBase == old(mmioAlloc.watermark))
        && m.physBase == phys && m.size == n * PAGE_SIZE
        && (n > 0 ==> mmioAlloc.live == old(mmioAlloc.live) + {Range(m.virtBase, m.size)}
                      && Range(m.virtBase, m.size) !in old(mmioAlloc.live))
        && (n == 0 ==> mmioAlloc.live == old(mmioAlloc.live))
        && Extends(old(mapped), mapped, m.virtBase, DeviceFrames(phys, n), n)
        && (old(Tidy()) ==> Unmapped(old(mapped), m.virtBase, n))
      ensures r.Err? ==> r.error == RegionExhausted && mapped == old(mapped) && mmioAlloc.live == old(mmioAlloc.live)
      ensures old(Tidy()) ==> Tidy()
    {
      var pageCount := PageCount(size);
      var actual := pageCount * PAGE_SIZE;
      WholePages(size);
      GoodLayoutFacts(layout);
      LiveInside();
      var base := mmioAlloc.Allocate(actual);
      if base == None {
        return Err(RegionExhausted);
      }
      NewMmioRange(old(mmioAlloc.live), base.value, pageCount);
      PagesInRegion(layout.mmio, base.value, pageCount);
      var ok := MapFresh(base.value, pageCount, DeviceFrames(phys, pageCount));
      MmioMappingIsFresh(old(mapped), old(mmioAlloc.live), base.value, DeviceFrames(phys, pageCount), pageCount);
      return Ok(MmioMapping(base.value, phys, actual));
    }

    lemma NewMmioRange(liveBefore: set<Range>, base: nat, count: nat)
      requires mmioAlloc.Valid() && mmioAlloc.region == layout.mmio && mmioAlloc.unit == PAGE_SIZE
      requires count == 0 ==> base == mmioAlloc.watermark
      requires count > 0 ==> mmioAlloc.live == liveBefore + {Range(base, count * PAGE_SIZE)}
                             && Range(base, count * PAGE_SIZE) !in liveBefore
      ensures layout.mmio.base <= base && (count > 0 ==> (base - layout.mmio.base) % PAGE_SIZE == 0)
      ensures base + count * PAGE_SIZE <= layout.mmio.base + layout.mmio.maxSize
      ensures count > 0 ==> forall a: nat :: Range(base, count * PAGE_SIZE).Has(a) ==> !InLive(liveBefore, a)
    {
      LiveAndFreeTile(layout.mmio.base, mmioAlloc.freeList, mmioAlloc.watermark, mmioAlloc.live);
      if count > 0 {
        assert Grained(PAGE_SIZE, layout.mmio.base, Range(base, count * PAGE_SIZE));
        NewRangeIsApart(layout.mmio.base, mmioAlloc.freeList, mmioAlloc.watermark, liveBefore,
                        Range(base, count * PAGE_SIZE));
      }
    }

    lemma MmioMappingIsFresh(before: map<nat, nat>, liveBefore: set<Range>, base: nat, frames: seq<nat>, n: nat)
      requires GoodLayout(layout) && Inside(layout.stacks, stacksAlloc.live)
      requires Extends(before, mapped, base, frames, n)
      requires mmioAlloc.live == liveBefore + if n > 0 then {Range(base, n * PAGE_SIZE)} else {}
      requires forall i: nat :: i < n ==> layout.mmio.Contains(NthPage(base, i))
      requires n > 0 ==> forall a: nat :: Range(base, n * PAGE_SIZE).Has(a) ==> !InLive(liveBefore, a)
      ensures AllBacked(layout, before, heapAlloc.next, stacksAlloc.live, liveBefore) ==>
                Tidy() && Unmapped(before, base, n)
    {
      if AllBacked(layout, before, heapAlloc.next, stacksAlloc.live, liveBefore) {
        forall i: nat | i < n
          ensures !Backs(layout, heapAlloc.next, stacksAlloc.live, liveBefore, NthPage(base, i))
          ensures Backs(layout, heapAlloc.next, stacksAlloc.live, mmioAlloc.live, NthPage(base, i))
        {
          var r := Range(base, n * PAGE_SIZE);
          assert r.Has(NthPage(base, i));
          MmioPageIsNew(layout, heapAlloc.next, stacksAlloc.live, liveBefore, r, NthPage(base, i));
        }
        MappingIsFresh(layout, before, mapped, base, frames, n, heapAlloc.next, stacksAlloc.live, liveBefore,
                       heapAlloc.next, stacksAlloc.live, mmioAlloc.live);
      }
    }

    /** Unmaps one page; `larger` says that the mapper finds the address inside a larger page. */
    method UnmapPage(page: nat, larger: bool) returns (r: Result<nat, VmmError>)
      requires Valid() && (larger ==> page !in mapped)
      modifies this`mapped
      ensures Valid() && (old(Tidy()) ==> Tidy())
      ensures larger ==> r == Err(SizeMismatch)
      ensures !larger && page !in old(mapped) ==> r == Err(NotMapped)
      ensures page in old(mapped) ==> r == Ok(old(mapped)[page])
      ensures mapped == old(mapped) - {page}
    {
      if larger {
        return Err(SizeMismatch);
      }
      if page !in mapped {
        return Err(NotMapped);
      }
      r := Ok(mapped[page]);
      mapped := mapped - {page};
    }

    method DeallocStackRegion(guard: nat) returns (r: Result<(), VmmError>)
      requires Valid() && Range(guard, STACK_STRIDE) in stacksAlloc.live
      modifies stacksAlloc
      ensures Valid()
      ensures old(Tidy()) && NoPageIn(mapped, Range(guard, STACK_STRIDE)) ==> Tidy()
      ensures r.Ok? ==> stacksAlloc.live == old(stacksAlloc.live) - {Range(guard, STACK_STRIDE)}
      ensures r.Err? <==> old(stacksAlloc.Stuck(Range(guard, STACK_STRIDE)))
      ensures r.Err? ==> r.error == RegionExhausted && stacksAlloc.live == old(stacksAlloc.live)
                         && |stacksAlloc.live - {Range(guard, STACK_STRIDE)}| > stacksAlloc.capacity
    {
      StrideIsWhole();
      ReturnKeepsBacked(layout, mapped, heapAlloc.next, stacksAlloc.live, mmioAlloc.live, Range(guard, STACK_STRIDE));
      var res := stacksAlloc.Deallocate(guard, GUARD_PAGE_SIZE + KERNEL_STACK_SIZE);
      return if res.Ok? then Ok(()) else Err(RegionExhausted);
    }

    method DeallocMmioRegion(virtBase: nat, size: nat) returns (r: Result<(), VmmError>)
      requires Valid() && size < TWO_64
      requires PageAlignUp(size) > 0 ==> MmioRange(virtBase, size) in mmioAlloc.live
      modifies mmioAlloc
      ensures Valid()
      ensures old(Tidy()) && NoPageIn(mapped, MmioRange(virtBase, size)) ==> Tidy()
      ensures r.Ok? ==> mmioAlloc.live == old(mmioAlloc.live) - {MmioRange(virtBase, size)}
      ensures r.Err? <==> PageAlignUp(size) > 0 && old(mmioAlloc.Stuck(MmioRange(virtBase, size)))
      ensures r.Err? ==> r.error == RegionExhausted && mmioAlloc.live == old(mmioAlloc.live)
                         && |mmioAlloc.live - {MmioRange(virtBase, size)}| > mmioAlloc.capacity
    {
      ghost var range := MmioRange(virtBase, size);
      ReturnKeepsBacked(layout, mapped, heapAlloc.next, stacksAlloc.live, mmioAlloc.live, range);
      var res := mmioAlloc.Deallocate(virtBase, size);
      return if res.Ok? then Ok(()) else Err(RegionExhausted);
    }
  }

  /** The range an MMIO mapping of `size` bytes occupies. */
  ghost function MmioRange(virtBase: nat, size: nat): Range {
    Range(virtBase, PageAlignUp(size))
  }

  function PageCount(bytes: nat): nat {
    (bytes + PAGE_SIZE - 1) / PAGE_SIZE
  }

  lemma WholePages(bytes: nat)
    requires bytes + 2 * PAGE_SIZE < TWO_64
    ensures var actual := PageCount(bytes) * PAGE_SIZE;
            && bytes <= actual < bytes + PAGE_SIZE && actual % PAGE_SIZE == 0 && PageAlignUp(actual) == actual
  {
  }

  /** A slot at a whole number of strides starts with a guard page, which may not be mapped. */
  lemma SlotGuard(l: MemoryLayout, base: nat)
    requires GoodLayout(l) && l.stacks.base <= base
    requires (base - l.stacks.base) % STACK_STRIDE == 0 && l.stacks.Contains(base)
    ensures exists k: nat :: base == GuardPage(l, k)
    ensures !MayMap(l, base)
  {
    var k := (base - l.stacks.base) / STACK_STRIDE;
    assert base == GuardPage(l, k);
    GuardsAreOffLimits(l, k);
  }

  lemma StridesArePages(off: nat)
    requires off % STACK_STRIDE == 0
    ensures off % PAGE_SIZE == 0
  {
    assert off == PAGE_SIZE * (17 * (off / STACK_STRIDE));
  }

  lemma StrideIsWhole()
    ensures PageAlignUp(STACK_STRIDE) == STACK_STRIDE
  {
  }

  lemma OffsetIsSum(addr: nat, n: nat)
    requires Canonical(addr + n)
    ensures Offset(addr, n) == addr + n
  {
    TruncateKeepsCanonical(addr + n);
  }

  lemma SlotArithmetic(l: MemoryLayout, base: nat)
    requires l.stacks.IsCanonical() && l.stacks.base % PAGE_SIZE == 0
    requires l.stacks.base <= base && (base - l.stacks.base) % STACK_STRIDE == 0
    requires base + STACK_STRIDE <= l.stacks.base + l.stacks.maxSize
    ensures Offset(base, GUARD_PAGE_SIZE) == base + GUARD_PAGE_SIZE
    ensures Offset(base + GUARD_PAGE_SIZE, KERNEL_STACK_SIZE) == base + STACK_STRIDE
    ensures (base + GUARD_PAGE_SIZE) % PAGE_SIZE == 0
    ensures forall a: nat :: base <= a < base + STACK_STRIDE ==> Canonical(a)
  {
    OffsetIsSum(base, GUARD_PAGE_SIZE);
    OffsetIsSum(base + GUARD_PAGE_SIZE, KERNEL_STACK_SIZE);
    StridesArePages(base - l.stacks.base);
    MultiplesAdd(base - l.stacks.base, l.stacks.base, PAGE_SIZE);
    MultiplesAdd(base, GUARD_PAGE_SIZE, PAGE_SIZE);
  }

  /** Whole pages inside a region. */
  lemma PagesInRegion(region: VirtRegion, base: nat, count: nat)
    requires region.IsCanonical() && region.base % PAGE_SIZE == 0
    requires region.base <= base && (count > 0 ==> (base - region.base) % PAGE_SIZE == 0)
    requires base + count * PAGE_SIZE <= region.base + region.maxSize
    ensures count > 0 ==> base % PAGE_SIZE == 0
    ensures forall i: nat :: i < count ==> region.Contains(NthPage(base, i))
    ensures forall a: nat :: base <= a < base + count * PAGE_SIZE ==> Canonical(a)
  {
    if count > 0 {
      MultiplesAdd(base - region.base, region.base, PAGE_SIZE);
    }
    forall i: nat | i < count
      ensures region.Contains(NthPage(base, i))
    {
    }
  }

  lemma PageArithmetic(base: nat, count: nat, i: nat)
    requires base % PAGE_SIZE == 0 && i < count
    requires forall a: nat :: base <= a < base + count * PAGE_SIZE ==> Canonical(a)
    ensures PageOf(Offset(base, i * PAGE_SIZE)) == NthPage(base, i)
  {
    var a := base + i * PAGE_SIZE;
    assert base <= a < base + count * PAGE_SIZE;
    TruncateKeepsCanonical(a);
  }

  lemma PagesGrow(base: nat, i: nat)
    ensures Pages(base, i + 1) == Pages(base, i) + {NthPage(base, i)}
    ensures NthPage(base, i) !in Pages(base, i)
  {
  }
}
