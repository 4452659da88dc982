/** The linked-list heap of kernel/mm/src/heap.rs, with poisoning and tracking off. Memory is a map from
    addresses to 64-bit words; a free block keeps its size in its first word and the address of the next
    free block in its second. */
module Heap {
  import opened Prelude
  import opened Layout
  import opened Region

  const MIN_BLOCK_SIZE: nat := 32
  const BLOCK_ALIGN: nat := 16
  const NULL: nat := 0

  type Memory = map<nat, nat>

  function Word(mem: Memory, a: nat): nat {
    if a in mem then mem[a] else 0
  }

  /** Every byte of every word that changed is free in `blocks`. */
  ghost predicate WritesIn(mem: Memory, mem': Memory, blocks: seq<Range>) {
    forall w: nat, a: nat :: Word(mem', w) != Word(mem, w) && w <= a < w + 8 ==> InFree(blocks, a)
  }

  /** No word with a byte in a live allocation changed. */
  ghost predicate SparesLive(mem: Memory, mem': Memory, live: map<nat, nat>) {
    forall p: nat, w: nat, a: nat :: p in live && Range(p, live[p]).Has(a) && w <= a < w + 8 ==>
      Word(mem', w) == Word(mem, w)
  }

  /** Rounds `addr` up to a multiple of `align`. */
  function AlignUp(addr: nat, align: nat): nat
    requires align > 0
  {
    addr + align - 1 - (addr + align - 1) % align
  }

  // ---------------------------------------------------------------------------
  // Well-formed free lists
  // ---------------------------------------------------------------------------

  /** Address-sorted, at least 32 bytes each, no two adjacent. */
  ghost predicate GoodBlocks(blocks: seq<Range>) {
    && Ordered(BLOCK_ALIGN, blocks, TWO_64)
    && forall i :: 0 <= i < |blocks| ==> GoodBlock(blocks[i])
  }

  ghost predicate GoodBlock(b: Range) {
    BLOCK_ALIGN <= b.base && b.size >= MIN_BLOCK_SIZE && b.End() <= TWO_64
  }

  /** Every block starts on a 16-byte boundary. */
  ghost predicate Aligned(blocks: seq<Range>) {
    forall i :: 0 <= i < |blocks| ==> blocks[i].base % BLOCK_ALIGN == 0
  }

  lemma SpliceKeepsAligned(blocks: seq<Range>, i: nat, j: nat, mid: seq<Range>)
    requires Aligned(blocks) && Aligned(mid) && i <= j <= |blocks|
    ensures Aligned(Splice(blocks, i, j, mid))
  {
  }

  lemma CoalesceKeepsAligned(blocks: seq<Range>, idx: nat, r: Range)
    requires Aligned(blocks) && r.base % BLOCK_ALIGN == 0 && idx <= |blocks|
    ensures Aligned(Coalesced(blocks, idx, r))
  {
    SpliceKeepsAligned(blocks, if MergesPrev(blocks, idx, r) then idx - 1 else idx,
                       if MergesNext(blocks, idx, r) then idx + 1 else idx, [Merged(blocks, idx, r)]);
  }

  /** The address of the `i`th block, or null past the end. */
  function At(blocks: seq<Range>, i: nat): nat {
    if i < |blocks| then blocks[i].base else NULL
  }

  /** The headers in memory chain the blocks together. */
  ghost predicate Linked(mem: Memory, head: nat, blocks: seq<Range>) {
    && head == At(blocks, 0)
    && forall i :: 0 <= i < |blocks| ==> LinkAt(mem, blocks, i)
  }

  /** The `i`th block's header gives its size and its successor. */
  ghost predicate LinkAt(mem: Memory, blocks: seq<Range>, i: nat)
    requires i < |blocks|
  {
    HasHeader(mem, blocks[i], At(blocks, i + 1))
  }

  ghost predicate HasHeader(mem: Memory, b: Range, next: nat) {
    Word(mem, b.base) == b.size && Word(mem, b.base + 8) == next
  }

  function SetHeader(mem: Memory, a: nat, size: nat, next: nat): Memory {
    mem[a := size][a + 8 := next]
  }

  function FreeBytes(blocks: seq<Range>): nat {
    if blocks == [] then 0 else blocks[0].size + FreeBytes(blocks[1..])
  }

  lemma {:induction false} FreeBytesConcat(a: seq<Range>, b: seq<Range>)
    ensures FreeBytes(a + b) == FreeBytes(a) + FreeBytes(b)
  {
    if a == [] {
      assert a + b == b;
    } else {
      FreeBytesConcat(a[1..], b);
      assert (a + b)[1..] == a[1..] + b;
    }
  }

  lemma FreeBytesSplice(free: seq<Range>, i: nat, j: nat, mid: seq<Range>)
    requires i <= j <= |free|
    ensures FreeBytes(Splice(free, i, j, mid)) + FreeBytes(free[i..j]) == FreeBytes(free) + FreeBytes(mid)
  {
    FreeBytesConcat(free[..i] + mid, free[j..]);
    FreeBytesConcat(free[..i], mid);
    assert free == free[..i] + free[i..j] + free[j..];
    FreeBytesConcat(free[..i] + free[i..j], free[j..]);
    FreeBytesConcat(free[..i], free[i..j]);
  }

  lemma FreeBytesOne(r: Range)
    ensures FreeBytes([r]) == r.size
  {
    assert [r][1..] == [];
  }

  /** The bytes of the neighbour before `idx`, if `r` merges with it, and of the one at `idx`. */
  lemma NeighbourBytes(free: seq<Range>, i: nat, idx: nat, j: nat)
    requires i <= idx <= j <= |free| && idx - i <= 1 && j - idx <= 1
    ensures FreeBytes(free[i..j]) == (if i < idx then free[i].size else 0) + (if idx < j then free[idx].size else 0)
  {
    assert free[i..j] == free[i..idx] + free[idx..j];
    FreeBytesConcat(free[i..idx], free[idx..j]);
    assert i < idx ==> free[i..idx] == [free[i]];
    assert idx < j ==> free[idx..j] == [free[idx]];
    if i < idx {
      FreeBytesOne(free[i]);
    }
    if idx < j {
      FreeBytesOne(free[idx]);
    }
  }

  /** Merging a block in adds its bytes to the free bytes. */
  lemma CoalesceAddsBytes(free: seq<Range>, idx: nat, r: Range)
    requires idx <= |free|
    ensures FreeBytes(Coalesced(free, idx, r)) == FreeBytes(free) + r.size
  {
    var i := if MergesPrev(free, idx, r) then idx - 1 else idx;
    var j := if MergesNext(free, idx, r) then idx + 1 else idx;
    NeighbourBytes(free, i, idx, j);
    FreeBytesSplice(free, i, j, [Merged(free, idx, r)]);
    FreeBytesOne(Merged(free, idx, r));
  }

  /** Merging a good block in keeps the list good and frees exactly its addresses. */
  lemma CoalesceKeepsGood(blocks: seq<Range>, idx: nat, r: Range)
    requires GoodBlocks(blocks) && GoodBlock(r) && Between(BLOCK_ALIGN, blocks, TWO_64, idx, r)
    ensures GoodBlocks(Coalesced(blocks, idx, r))
    ensures forall a: nat :: InFree(Coalesced(blocks, idx, r), a) <==> InFree(blocks, a) || r.Has(a)
  {
    CoalesceEffect(BLOCK_ALIGN, blocks, TWO_64, idx, r);
    var blocks' := Coalesced(blocks, idx, r);
    forall a: nat
      ensures InFree(blocks', a) <==> InFree(blocks, a) || r.Has(a)
    {
      assert Avail(blocks', TWO_64, a) <==> Avail(blocks, TWO_64, a) || r.Has(a);
    }
    assert GoodBlock(Merged(blocks, idx, r));
  }

  /** Taking a block off the list keeps the rest good. */
  lemma RemoveKeepsGood(blocks: seq<Range>, k: nat)
    requires GoodBlocks(blocks) && k < |blocks|
    ensures var rest := Splice(blocks, k, k + 1, []);
            && GoodBlocks(rest) && FreeBytes(rest) + blocks[k].size == FreeBytes(blocks)
            && forall a: nat :: InFree(rest, a) <==> InFree(blocks, a) && !blocks[k].Has(a)
  {
    SpliceOrdered(BLOCK_ALIGN, blocks, TWO_64, k, k + 1, []);
    FreeBytesSplice(blocks, k, k + 1, []);
    assert blocks[k..k + 1] == [blocks[k]];
    FreeBytesOne(blocks[k]);
    forall a: nat
      ensures InFree(Splice(blocks, k, k + 1, []), a) <==> InFree(blocks, a) && !blocks[k].Has(a)
    {
      SpliceInFree(blocks, k, k + 1, [], a);
      InOne(blocks, k, a);
    }
  }

  /** Blocks of a good list, and blocks outside it, keep their headers apart. */
  lemma HeadersApart(b: Range, c: Range)
    requires GoodBlock(b) && GoodBlock(c) && (b.End() <= c.base || c.End() <= b.base)
    ensures {b.base, b.base + 8} !! {c.base, c.base + 8}
  {
  }

  /** The chain after entries `i..j` became one block `m`. */
  lemma LinkedSplice(mem: Memory, head: nat, blocks: seq<Range>, mem': Memory, head': nat, i: nat, j: nat, m: Range)
    requires Linked(mem, head, blocks) && i <= j <= |blocks|
    requires HasHeader(mem', m, At(blocks, j))
    requires head' == if i == 0 then m.base else head
    requires i > 0 ==> HasHeader(mem', blocks[i - 1], m.base)
    requires forall t :: 0 <= t < |blocks| && (t < i - 1 || t >= j) ==> LinkAt(mem', blocks, t)
    ensures Linked(mem', head', Splice(blocks, i, j, [m]))
  {
    var blocks' := Splice(blocks, i, j, [m]);
    var shift := j - i - 1;
    forall t | 0 <= t < |blocks'|
      ensures LinkAt(mem', blocks', t)
    {
      assert t < i - 1 ==> LinkAt(mem', blocks, t);
      assert t > i ==> LinkAt(mem', blocks, t + shift);
      if t < i {
        assert blocks'[t] == blocks[t];
        assert t + 1 < i ==> blocks'[t + 1] == blocks[t + 1];
      } else if t == i {
        assert blocks'[i] == m;
        assert i + 1 < |blocks'| ==> blocks'[i + 1] == blocks[j];
      } else {
        assert blocks'[t] == blocks[t + shift];
        assert t + 1 < |blocks'| ==> blocks'[t + 1] == blocks[t + 1 + shift];
      }
    }
  }

  /** The chain after entry `k` was unlinked. */
  lemma LinkedRemove(mem: Memory, head: nat, blocks: seq<Range>, mem': Memory, head': nat, k: nat)
    requires Linked(mem, head, blocks) && k < |blocks|
    requires head' == if k == 0 then At(blocks, 1) else head
    requires k > 0 ==> HasHeader(mem', blocks[k - 1], At(blocks, k + 1))
    requires forall t :: 0 <= t < |blocks| && t != k && t != k - 1 ==> LinkAt(mem', blocks, t)
    ensures Linked(mem', head', Splice(blocks, k, k + 1, []))
  {
    var rest := Splice(blocks, k, k + 1, []);
    forall t | 0 <= t < |rest|
      ensures LinkAt(mem', rest, t)
    {
      assert t < k - 1 ==> LinkAt(mem', blocks, t);
      assert t >= k ==> LinkAt(mem', blocks, t + 1);
      if t < k {
        assert rest[t] == blocks[t];
        assert t + 1 < k ==> rest[t + 1] == blocks[t + 1];
      } else {
        assert rest[t] == blocks[t + 1];
      }
      assert k <= t + 1 < |rest| ==> rest[t + 1] == blocks[t + 2];
    }
  }

  class LinkedListAllocator {
    var head: nat
    var mem: Memory
    var heapStart: nat
    var heapEnd: nat
    var allocatedBytes: nat
    ghost var blocks: seq<Range>         // the free list, in order
    ghost var live: map<nat, nat>        // what is handed out: address to size
    ghost var mapped: set<Range>         // the regions the heap was given
    ghost var mappedBytes: nat           // their total size

    ghost predicate ListOk()
      reads this
    {
      GoodBlocks(blocks) && Linked(mem, head, blocks)
    }

    /** Walks to the first block past `addr`, remembering the one before. */
    method FindPosition(addr: nat) returns (prev: nat, current: nat, ghost k: nat)
      requires ListOk()
      ensures k <= |blocks| && current == At(blocks, k) && prev == if k == 0 then NULL else blocks[k - 1].base
      ensures forall i :: 0 <= i < k ==> blocks[i].base < addr
      ensures forall i :: k <= i < |blocks| ==> addr <= blocks[i].base
    {
      prev, current, k := NULL, head, 0;
      while current != NULL && current < addr
        invariant k <= |blocks| && current == At(blocks, k) && prev == if k == 0 then NULL else blocks[k - 1].base
        invariant forall i :: 0 <= i < k ==> blocks[i].base < addr
        decreases |blocks| - k
      {
        assert LinkAt(mem, blocks, k);
        prev := current;
        current := Word(mem, current + 8);
        k := k + 1;
      }
    }

    /** The block touches its predecessor: it is absorbed, and the successor with it if they touch too. */
    method AbsorbIntoPrev(block: nat, size: nat, prev: nat, current: nat, ghost k: nat)
      requires ListOk() && 0 < k <= |blocks| && prev == blocks[k - 1].base && current == At(blocks, k)
      requires GoodBlock(Range(block, size)) && Between(BLOCK_ALIGN, blocks, TWO_64, k, Range(block, size))
      requires MergesPrev(blocks, k, Range(block, size))
      modifies this`mem
      ensures InsertWrites(old(mem), head, blocks, mem, head, k, Range(block, size))
    {
      AbsorbWrites(mem, head, blocks, k, Range(block, size));
      mem := mem[prev := Word(mem, prev) + size];
      var mergedEnd := prev + Word(mem, prev);
      if current != NULL && mergedEnd == current {
        mem := SetHeader(mem, prev, Word(mem, prev) + Word(mem, current), Word(mem, current + 8));
      }
    }

    /** The block gets its own place in the chain, absorbing its successor if they touch. */
    method LinkBetween(block: nat, size: nat, prev: nat, current: nat, ghost k: nat)
      requires ListOk() && k <= |blocks|
      requires prev == (if k == 0 then NULL else blocks[k - 1].base) && current == At(blocks, k)
      requires GoodBlock(Range(block, size)) && Between(BLOCK_ALIGN, blocks, TWO_64, k, Range(block, size))
      requires Word(mem, block) == size && !MergesPrev(blocks, k, Range(block, size))
      modifies this`mem, this`head
      ensures InsertWrites(old(mem), old(head), blocks, mem, head, k, Range(block, size))
    {
      LinkWrites(mem, head, blocks, k, Range(block, size));
      if current != NULL && block + size == current {
        mem := SetHeader(mem, block, size + Word(mem, current), Word(mem, current + 8));
      } else {
        mem := mem[block + 8 := current];
      }
      if prev == NULL {
        head := block;
      } else {
        mem := mem[prev + 8 := block];
      }
    }

    /** Links a block in address order and merges it with the blocks it touches. */
    method InsertAndCoalesce(block: nat)
      requires ListOk()
      requires GoodBlock(Range(block, Word(mem, block)))
      requires forall a: nat :: block <= a < block + Word(mem, block) ==> !InFree(blocks, a)
      modifies this`head, this`mem, this`blocks
      ensures ListOk() && Adds(old(mem), old(blocks), mem, blocks, old(Range(block, Word(mem, block))))
    {
      var size := Word(mem, block);
      var prev, current, k := FindPosition(block);
      ghost var r := Range(block, size);
      OutsideIsBetween(blocks, k, r);
      if k > 0 {
        assert LinkAt(mem, blocks, k - 1);
      }
      if prev != NULL && prev + Word(mem, prev) == block {
        AbsorbIntoPrev(block, size, prev, current, k);
      } else {
        LinkBetween(block, size, prev, current, k);
      }
      InsertResult(old(mem), old(head), blocks, mem, head, k, r);
      blocks := Coalesced(blocks, k, r);
    }

    /** Writes a header for a region outside the list and links it in. */
    method AddFreeRegion(addr: nat, size: nat)
      requires ListOk() && GoodBlock(Range(addr, size))
      requires forall a: nat :: Range(addr, size).Has(a) ==> !InFree(blocks, a)
      modifies this`head, this`mem, this`blocks
      ensures ListOk() && Adds(old(mem), old(blocks), mem, blocks, Range(addr, size))
    {
      OutsideHeader(mem, head, blocks, Range(addr, size));
      mem := SetHeader(mem, addr, size, NULL);
      InsertAndCoalesce(addr);
    }

    /** Takes block `k` out of the chain. */
    method Unlink(prev: nat, current: nat, ghost k: nat)
      requires ListOk() && k < |blocks| && current == blocks[k].base
      requires prev == if k == 0 then NULL else blocks[k - 1].base
      modifies this`head, this`mem, this`blocks
      ensures ListOk() && (old(Aligned(blocks)) ==> Aligned(blocks))
      ensures Removes(old(mem), old(blocks), mem, blocks, old(blocks[k]))
    {
      ghost var bs := blocks;
      assert LinkAt(mem, bs, k);
      var next := Word(mem, current + 8);
      if prev == NULL {
        head := next;
      } else {
        assert LinkAt(mem, bs, k - 1);
        mem := mem[prev + 8 := next];
      }
      UnlinkResult(old(mem), old(head), bs, mem, head, k);
      RemoveKeepsGood(bs, k);
      if Aligned(bs) {
        SpliceKeepsAligned(bs, k, k + 1, []);
      }
      blocks := Splice(bs, k, k + 1, []);
    }

    /** Frees the space before an allocation if it can hold a header. */
    method KeepFront(addr: nat, size: nat)
      requires ListOk() && Aligned(blocks) && BLOCK_ALIGN <= addr && addr + size <= TWO_64 && addr % BLOCK_ALIGN == 0
      requires forall a: nat :: Range(addr, size).Has(a) ==> !InFree(blocks, a)
      modifies this`head, this`mem, this`blocks
      ensures ListOk() && Aligned(blocks) && Adds(old(mem), old(blocks), mem, blocks, FrontKept(addr, size))
    {
      if size >= MIN_BLOCK_SIZE {
        AddFreeRegion(addr, size);
      }
    }

    /** Frees the space behind an allocation, from the next 16-byte boundary on, if it can hold a header. */
    method KeepRemainder(from: nat, end: nat)
      requires ListOk() && Aligned(blocks) && BLOCK_ALIGN <= from <= end <= TWO_64
      requires forall a: nat :: from <= a < end ==> !InFree(blocks, a)
      modifies this`head, this`mem, this`blocks
      ensures ListOk() && Aligned(blocks) && Adds(old(mem), old(blocks), mem, blocks, RearKept(from, end))
    {
      if end - from >= MIN_BLOCK_SIZE {
        var remAligned := AlignUp(from, BLOCK_ALIGN);
        AlignUpFacts(from, BLOCK_ALIGN);
        var remSize := end - remAligned;
        if remSize >= MIN_BLOCK_SIZE {
          AddFreeRegion(remAligned, remSize);
        }
      } else {
        AlignUpFacts(from, BLOCK_ALIGN);
      }
    }

    /** Puts back what is left of a block around an allocation, as far as it can hold a header. */
    method KeepRest(block: nat, start: nat, size: nat, end: nat)
      requires ListOk() && Aligned(blocks) && BLOCK_ALIGN <= block && block % BLOCK_ALIGN == 0
      requires block <= start && start + size <= end <= TWO_64
      requires forall a: nat :: block <= a < end ==> !InFree(blocks, a)
      modifies this`head, this`mem, this`blocks
      ensures ListOk() && Aligned(blocks)
      ensures KeepsAround(old(mem), old(blocks), mem, blocks, Range(block, end - block), Range(start, size))
    {
      KeepFront(block, start - block);
      RearIsOutside(Range(block, end - block), Range(start, size), old(blocks), blocks);
      KeepRemainder(start + size, end);
    }

    /** Cuts `[start, start + size)` out of block `k`; what is left of it in front and behind goes back on
        the list when it is big enough to hold a header. */
    method Carve(prev: nat, current: nat, start: nat, size: nat, ghost k: nat)
      requires ListOk() && Aligned(blocks)
      requires k < |blocks| && current == blocks[k].base && prev == if k == 0 then NULL else blocks[k - 1].base
      requires current <= start && start + size <= blocks[k].End() && size > 0
      modifies this`head, this`mem, this`blocks
      ensures ListOk() && Aligned(blocks) && HandsOut(old(mem), old(blocks), mem, blocks, Range(start, size))
      ensures Carved(old(blocks), old(blocks[k]), Range(start, size), blocks)
    {
      assert LinkAt(mem, blocks, k) && GoodBlock(blocks[k]);
      var blockSize := Word(mem, current);
      Unlink(prev, current, k);
      ghost var mem1, blocks1 := mem, blocks;
      KeepRest(current, start, size, current + blockSize);
      CarveResult(old(mem), old(blocks), k, Range(start, size), mem1, blocks1, mem, blocks);
    }

    /** Walks to the first block that can hold the request. */
    method SearchFit(size: nat, align: nat) returns (prev: nat, current: nat, start: nat, ghost k: nat)
      requires ListOk() && align > 0
      ensures k <= |blocks| && forall i :: 0 <= i < k ==> !CanHold(blocks[i], size, align)
      ensures current == NULL ==> forall i :: k <= i < |blocks| ==> !CanHold(blocks[i], size, align)
      ensures current != NULL ==> k < |blocks| && current == blocks[k].base && start == AlignUp(current, align)
                                  && CanHold(blocks[k], size, align)
      ensures prev == if k == 0 then NULL else blocks[k - 1].base
    {
      prev, current, start, k := NULL, head, 0, 0;
      while current != NULL
        invariant k <= |blocks| && current == At(blocks, k) && prev == if k == 0 then NULL else blocks[k - 1].base
        invariant forall i :: 0 <= i < k ==> !CanHold(blocks[i], size, align)
        decreases |blocks| - k
      {
        assert LinkAt(mem, blocks, k);
        var blockSize := Word(mem, current);
        start := AlignUp(current, align);
        if start + size >= TWO_64 {
          LaterOverflowToo(blocks, k, size, align);
          current := NULL;
          return;
        }
        if start + size <= current + blockSize {
          return;
        }
        prev := current;
        current := Word(mem, current + 8);
        k := k + 1;
      }
    }

    /** First fit. Fails, changing nothing, exactly when no free block can hold the request. */
    method FindFirstFit(size: nat, align: nat) returns (r: Option<nat>)
      requires ListOk() && Aligned(blocks) && size >= MIN_BLOCK_SIZE && align > 0
      modifies this`head, this`mem, this`blocks
      ensures ListOk() && Aligned(blocks)
      ensures r == None ==> mem == old(mem) && blocks == old(blocks)
      ensures r == None <==> forall i :: 0 <= i < |old(blocks)| ==> !CanHold(old(blocks)[i], size, align)
      ensures r.Some? ==> r.value % align == 0 && HandsOut(old(mem), old(blocks), mem, blocks, Range(r.value, size))
      ensures r.Some? ==> FirstFit(old(blocks), size, align, r.value, blocks)
    {
      var prev, current, start, k := SearchFit(size, align);
      if current == NULL {
        return None;
      }
      AlignUpFacts(current, align);
      Carve(prev, current, start, size, k);
      assert FitsFirst(old(blocks), size, align, k);
      return Some(start);
    }

    // -------------------------------------------------------------------------
    // The allocator proper
    // -------------------------------------------------------------------------

    ghost predicate Valid()
      reads this
    {
      && ListOk() && Aligned(blocks)
      && GoodLive(live, blocks)
      && allocatedBytes == Total(live)
      && FreeBytes(blocks) + allocatedBytes <= mappedBytes
      && (forall a: nat :: InFree(blocks, a) || Owns(live, a) ==> InLive(mapped, a))
      && (forall r :: r in mapped ==> r.End() <= heapEnd) && heapEnd <= TWO_64
    }

    /** Takes over one mapped region; `memory` is what the words held before. */
    constructor (memory: Memory, heapStart: nat, heapSize: nat)
      requires BLOCK_ALIGN <= heapStart && heapStart % BLOCK_ALIGN == 0 && heapSize >= MIN_BLOCK_SIZE
      requires heapStart + heapSize <= TWO_64
      ensures Valid() && live == map[] && mappedBytes == heapSize && FreeBytes(blocks) == heapSize
      ensures mapped == {Range(heapStart, heapSize)} && heapEnd == heapStart + heapSize && this.heapStart == heapStart
    {
      head := heapStart;
      mem := SetHeader(memory, heapStart, heapSize, NULL);
      blocks := [Range(heapStart, heapSize)];
      this.heapStart, heapEnd, allocatedBytes := heapStart, heapStart + heapSize, 0;
      live, mapped, mappedBytes := map[], {Range(heapStart, heapSize)}, heapSize;
      new;
      FreeBytesOne(Range(heapStart, heapSize));
      assert LinkAt(mem, blocks, 0);
    }

    /** One locked section of `alloc`: first fit and the byte count. */
    method AllocLocked(size: nat, align: nat) returns (r: Option<nat>)
      requires Valid() && size >= MIN_BLOCK_SIZE && align > 0 && align % BLOCK_ALIGN == 0 && heapEnd + align <= TWO_64
      modifies this
      ensures Valid() && mapped == old(mapped) && mappedBytes == old(mappedBytes) && heapEnd == old(heapEnd)
      ensures r == None ==> live == old(live) && mem == old(mem) && blocks == old(blocks)
      ensures r == None <==> forall i :: 0 <= i < |old(blocks)| ==> !CanHold(old(blocks)[i], size, align)
      ensures r.Some? ==> r.value % align == 0 && r.value !in old(live) && live == old(live)[r.value := size]
      ensures r.Some? ==> FirstFit(old(blocks), size, align, r.value, blocks)
      ensures SparesLive(old(mem), mem, old(live))
    {
      r := FindFirstFit(size, align);
      LiveWordsKept(old(mem), mem, live, old(blocks));
      if r.Some? {
        MultipleOfMultiples(r.value, align, BLOCK_ALIGN);
        TakeKeepsLive(old(mem), old(blocks), mem, blocks, live, Range(r.value, size));
        TotalInsert(live, r.value, size);
        allocatedBytes := allocatedBytes + size;
        live := live[r.value := size];
      }
    }

    /** The first part of the second locked section: the grown region joins the free list. */
    method GrowLocked(ptr: nat, actual: nat)
      requires Valid() && GoodBlock(Range(ptr, actual)) && ptr % BLOCK_ALIGN == 0
      requires forall a: nat :: Range(ptr, actual).Has(a) ==> !InLive(mapped, a)
      modifies this
      ensures Valid() && live == old(live)
      ensures mapped == old(mapped) + {Range(ptr, actual)} && mappedBytes == old(mappedBytes) + actual
      ensures heapEnd == Max(old(heapEnd), ptr + actual) && FreeBytes(blocks) == old(FreeBytes(blocks)) + actual
      ensures forall a: nat :: InFree(blocks, a) <==> old(InFree(blocks, a)) || Range(ptr, actual).Has(a)
      ensures SparesLive(old(mem), mem, live)
    {
      ghost var r := Range(ptr, actual);
      AddFreeRegion(ptr, actual);
      heapEnd := Max(heapEnd, ptr + actual);
      GrowKeepsLive(old(mem), old(blocks), mem, blocks, live, mapped, r);
      mapped := mapped + {r};
      mappedBytes := mappedBytes + actual;
    }

    /** `GlobalAlloc::alloc` up to the release of the lock. The request is padded to 32 bytes and 16-byte
        alignment. */
    method Alloc(layoutSize: nat, layoutAlign: nat) returns (r: Option<nat>)
      requires Valid() && IsPowerOfTwo(layoutAlign) && heapEnd + Max(layoutAlign, BLOCK_ALIGN) <= TWO_64
      modifies this
      ensures Valid() && mapped == old(mapped) && SparesLive(old(mem), mem, old(live))
      ensures r == None ==> live == old(live) && mem == old(mem) && blocks == old(blocks)
      ensures r == None <==> forall i :: 0 <= i < |old(blocks)| ==>
                !CanHold(old(blocks)[i], Max(layoutSize, MIN_BLOCK_SIZE), Max(layoutAlign, BLOCK_ALIGN))
      ensures r.Some? ==> Serves(old(live), live, r.value, layoutSize, layoutAlign)
      ensures r.Some? ==> FirstFit(old(blocks), Max(layoutSize, MIN_BLOCK_SIZE), Max(layoutAlign, BLOCK_ALIGN),
                                   r.value, blocks)
    {
      var align := Max(layoutAlign, BLOCK_ALIGN);
      AlignFacts(layoutAlign);
      r := AllocLocked(Max(layoutSize, MIN_BLOCK_SIZE), align);
      if r.Some? {
        MultipleOfMultiples(r.value, align, layoutAlign);
        MultipleOfMultiples(r.value, align, BLOCK_ALIGN);
      }
    }

    /** `GlobalAlloc::alloc` once it holds the lock again, with the region the growth callback mapped. Other CPUs
        may have allocated and freed since; a region that suits the request always serves it. */
    method AllocGrown(layoutSize: nat, layoutAlign: nat, grown: Range)
      returns (r: Option<nat>, ghost joined: seq<Range>)
      requires Valid() && IsPowerOfTwo(layoutAlign) && heapEnd + Max(layoutAlign, BLOCK_ALIGN) <= TWO_64
      requires GoodBlock(grown) && grown.base % BLOCK_ALIGN == 0
      requires grown.End() + Max(layoutAlign, BLOCK_ALIGN) <= TWO_64
      requires forall a: nat :: grown.Has(a) ==> !InLive(mapped, a)
      modifies this
      ensures Valid() && mapped == old(mapped) + {grown} && SparesLive(old(mem), mem, old(live))
      ensures GoodBlocks(joined) && forall a: nat :: InFree(joined, a) <==> old(InFree(blocks, a)) || grown.Has(a)
      ensures r == None ==> live == old(live) && blocks == joined
      ensures r == None <==> forall i :: 0 <= i < |joined| ==>
                !CanHold(joined[i], Max(layoutSize, MIN_BLOCK_SIZE), Max(layoutAlign, BLOCK_ALIGN))
      ensures r.Some? ==> Serves(old(live), live, r.value, layoutSize, layoutAlign)
      ensures r.Some? ==> FirstFit(joined, Max(layoutSize, MIN_BLOCK_SIZE), Max(layoutAlign, BLOCK_ALIGN),
                                   r.value, blocks)
      ensures Suits(grown, layoutSize, layoutAlign) ==> r.Some?
    {
      GrowLocked(grown.base, grown.size);
      ghost var grownMem := mem;
      joined := blocks;
      if Suits(grown, layoutSize, layoutAlign) {
        AlignFacts(layoutAlign);
        RegionCanHold(blocks, grown, Max(layoutSize, MIN_BLOCK_SIZE), Max(layoutAlign, BLOCK_ALIGN));
      }
      r := Alloc(layoutSize, layoutAlign);
      SparesTwice(old(mem), grownMem, mem, old(live));
    }

    /** `GlobalAlloc::dealloc` of a live allocation, with the layout it was allocated with. */
    method Dealloc(ptr: nat, layoutSize: nat)
      requires Valid() && ptr in live && live[ptr] == Max(layoutSize, MIN_BLOCK_SIZE)
      modifies this
      ensures Valid() && live == old(live) - {ptr} && mapped == old(mapped) && mappedBytes == old(mappedBytes)
      ensures FreeBytes(blocks) == old(FreeBytes(blocks)) + old(live)[ptr]
      ensures forall a: nat :: InFree(blocks, a) <==> old(InFree(blocks, a)) || Range(ptr, old(live)[ptr]).Has(a)
      ensures SparesLive(old(mem), mem, live)
    {
      var size := Max(layoutSize, MIN_BLOCK_SIZE);
      TotalSplit(live, ptr);
      allocatedBytes := allocatedBytes - size;
      AddFreeRegion(ptr, size);
      GiveKeepsLive(old(mem), old(blocks), mem, blocks, live, ptr);
      live := live - {ptr};
    }
  }

  ghost predicate CanHold(b: Range, size: nat, align: nat)
    requires align > 0
  {
    AlignUp(b.base, align) + size <= b.End() && AlignUp(b.base, align) + size < TWO_64
  }

  lemma AlignUpFacts(addr: nat, align: nat)
    requires align > 0
    ensures var r := AlignUp(addr, align); r % align == 0 && addr <= r < addr + align
  {
    var x := addr + align - 1;
    assert x - x % align == align * (x / align);
    MultipleOf(x / align, align);
  }

  lemma AlignUpMonotone(a: nat, b: nat, align: nat)
    requires align > 0 && a <= b
    ensures AlignUp(a, align) <= AlignUp(b, align)
  {
    var x, y := AlignUp(a, align), AlignUp(b, align);
    AlignUpFacts(a, align);
    AlignUpFacts(b, align);
    MultiplesAdd(x, y, align);
    if x > y {
      SmallMultiple(x - y, align);
    }
  }

  lemma {:induction false} MulGap(n: nat, x: nat, y: nat)
    ensures x > y ==> n * x >= n * y + n
    decreases x
  {
    if x > y {
      Distribute(n, x - 1, 1);
      MulGap(n, x - 1, y);
    }
  }

  /** If the request does not fit the address space at one block, it fits it at no later one. */
  lemma LaterOverflowToo(blocks: seq<Range>, k: nat, size: nat, align: nat)
    requires GoodBlocks(blocks) && k < |blocks| && align > 0 && AlignUp(blocks[k].base, align) + size >= TWO_64
    ensures forall i :: k <= i < |blocks| ==> !CanHold(blocks[i], size, align)
  {
    forall i | k <= i < |blocks|
      ensures !CanHold(blocks[i], size, align)
    {
      AlignUpMonotone(blocks[k].base, blocks[i].base, align);
    }
  }

  /** The space in front of an allocation that goes back on the list: all of it or, under 32 bytes, nothing. */
  ghost function FrontKept(addr: nat, size: nat): Range {
    Range(addr, if size >= MIN_BLOCK_SIZE then size else 0)
  }

  /** The space behind an allocation that goes back: from the next 16-byte boundary on, unless that is under 32
      bytes. */
  ghost function RearKept(from: nat, end: nat): Range {
    var aligned := AlignUp(from, BLOCK_ALIGN);
    Range(aligned, if aligned + MIN_BLOCK_SIZE <= end then end - aligned else 0)
  }

  /** Of the block `b`, which `r` was cut out of, exactly the kept parts are free now; nothing else changed. */
  ghost predicate Carved(blocks: seq<Range>, b: Range, r: Range, blocks': seq<Range>)
    requires b.base <= r.base
  {
    forall a: nat :: InFree(blocks', a) <==>
      (InFree(blocks, a) && !b.Has(a)) || FrontKept(b.base, r.base - b.base).Has(a) || RearKept(r.End(), b.End()).Has(a)
  }

  /** The first block that can hold the request is the `k`th. */
  ghost predicate FitsFirst(blocks: seq<Range>, size: nat, align: nat, k: nat)
    requires align > 0
  {
    k < |blocks| && CanHold(blocks[k], size, align) && forall i :: 0 <= i < k ==> !CanHold(blocks[i], size, align)
  }

  /** The request was cut out of the first block that can hold it, at its lowest aligned address. */
  ghost predicate FirstFit(blocks: seq<Range>, size: nat, align: nat, at: nat, blocks': seq<Range>)
    requires align > 0
  {
    exists k: nat ::
      && FitsFirst(blocks, size, align, k)
      && at == AlignUp(blocks[k].base, align) && blocks[k].base <= at
      && Carved(blocks, blocks[k], Range(at, size), blocks')
  }

  /** `r` was free and is handed out: the list keeps nothing of it, loses at most 77 bytes besides, and only
      words that were free were written. */
  ghost predicate HandsOut(mem: Memory, blocks: seq<Range>, mem': Memory, blocks': seq<Range>, r: Range) {
    && (forall a: nat :: r.Has(a) ==> InFree(blocks, a))
    && (forall a: nat :: InFree(blocks', a) ==> InFree(blocks, a) && !r.Has(a))
    && FreeBytes(blocks') + r.size <= FreeBytes(blocks) <= FreeBytes(blocks') + r.size + 77
    && WritesIn(mem, mem', blocks)
  }

  /** The space behind an allocation is not on the list once the block is off it and its front is back. */
  lemma RearIsOutside(b: Range, r: Range, blocks1: seq<Range>, blocks2: seq<Range>)
    requires b.base <= r.base && r.End() <= b.End()
    requires forall a: nat :: b.Has(a) ==> !InFree(blocks1, a)
    requires forall a: nat :: InFree(blocks2, a) <==> InFree(blocks1, a) || FrontKept(b.base, r.base - b.base).Has(a)
    ensures forall a: nat :: r.End() <= a < b.End() ==> !InFree(blocks2, a)
  {
    forall a: nat | r.End() <= a < b.End()
      ensures !InFree(blocks2, a)
    {
      assert b.Has(a) && !FrontKept(b.base, r.base - b.base).Has(a);
    }
  }

  /** What is kept of `b` around `r` became free, and only free words were written. */
  ghost predicate KeepsAround(mem: Memory, blocks: seq<Range>, mem': Memory, blocks': seq<Range>, b: Range, r: Range)
    requires b.base <= r.base
  {
    var front, rear := FrontKept(b.base, r.base - b.base), RearKept(r.End(), b.End());
    && (forall a: nat :: InFree(blocks', a) <==> InFree(blocks, a) || front.Has(a) || rear.Has(a))
    && FreeBytes(blocks') == FreeBytes(blocks) + front.size + rear.size
    && WritesIn(mem, mem', blocks')
  }

  /** Unlinking a block and putting its rest back adds up to handing out `r`. */
  lemma CarveResult(mem: Memory, blocks: seq<Range>, k: nat, r: Range, mem1: Memory, blocks1: seq<Range>,
                    mem2: Memory, blocks2: seq<Range>)
    requires GoodBlocks(blocks) && k < |blocks| && blocks[k].base <= r.base && r.End() <= blocks[k].End()
    requires Removes(mem, blocks, mem1, blocks1, blocks[k])
    requires KeepsAround(mem1, blocks1, mem2, blocks2, blocks[k], r)
    ensures HandsOut(mem, blocks, mem2, blocks2, r) && Carved(blocks, blocks[k], r, blocks2)
  {
    BlockIsFree(blocks, k);
    AlignUpFacts(r.End(), BLOCK_ALIGN);
    CarveWrites(mem, blocks, mem1, blocks1, mem2, blocks2);
  }

  lemma BlockIsFree(blocks: seq<Range>, k: nat)
    requires k < |blocks|
    ensures forall a: nat :: blocks[k].Has(a) ==> InFree(blocks, a)
  {
  }

  /** The block is off the list, and only words still free were written. */
  ghost predicate Removes(mem: Memory, blocks: seq<Range>, mem': Memory, blocks': seq<Range>, b: Range) {
    && (forall a: nat :: InFree(blocks', a) <==> InFree(blocks, a) && !b.Has(a))
    && FreeBytes(blocks') + b.size == FreeBytes(blocks)
    && WritesIn(mem, mem', blocks')
  }

  lemma CarveWrites(mem: Memory, blocks: seq<Range>, mem1: Memory, blocks1: seq<Range>, mem2: Memory,
                    blocks2: seq<Range>)
    requires WritesIn(mem, mem1, blocks1) && WritesIn(mem1, mem2, blocks2)
    requires forall a: nat :: InFree(blocks1, a) || InFree(blocks2, a) ==> InFree(blocks, a)
    ensures WritesIn(mem, mem2, blocks)
  {
  }

  /** `r` became free: what the list holds now, and that only free words were written. */
  ghost predicate Adds(mem: Memory, blocks: seq<Range>, mem': Memory, blocks': seq<Range>, r: Range) {
    && (forall a: nat :: InFree(blocks', a) <==> InFree(blocks, a) || r.Has(a))
    && FreeBytes(blocks') == FreeBytes(blocks) + r.size
    && (Aligned(blocks) && r.base % BLOCK_ALIGN == 0 ==> Aligned(blocks'))
    && WritesIn(mem, mem', blocks')
  }

  lemma InsertResult(mem: Memory, head: nat, blocks: seq<Range>, mem': Memory, head': nat, k: nat, r: Range)
    requires GoodBlocks(blocks) && Linked(mem, head, blocks)
    requires GoodBlock(r) && Between(BLOCK_ALIGN, blocks, TWO_64, k, r)
    requires InsertWrites(mem, head, blocks, mem', head', k, r)
    ensures var blocks' := Coalesced(blocks, k, r);
            GoodBlocks(blocks') && Linked(mem', head', blocks') && Adds(mem, blocks, mem', blocks', r)
  {
    InsertLinks(mem, head, blocks, mem', head', k, r);
    InsertStaysInFree(mem, head, blocks, mem', head', k, r);
    CoalesceKeepsGood(blocks, k, r);
    CoalesceAddsBytes(blocks, k, r);
    if Aligned(blocks) && r.base % BLOCK_ALIGN == 0 {
      CoalesceKeepsAligned(blocks, k, r);
    }
  }

  /** Writing a header outside every free block leaves the chain alone. */
  lemma OutsideHeader(mem: Memory, head: nat, blocks: seq<Range>, r: Range)
    requires GoodBlocks(blocks) && Linked(mem, head, blocks) && GoodBlock(r)
    requires forall a: nat :: r.Has(a) ==> !InFree(blocks, a)
    ensures forall next: nat :: Linked(SetHeader(mem, r.base, r.size, next), head, blocks)
  {
    forall next: nat
      ensures Linked(SetHeader(mem, r.base, r.size, next), head, blocks)
    {
      var mem' := SetHeader(mem, r.base, r.size, next);
      forall t | 0 <= t < |blocks|
        ensures LinkAt(mem', blocks, t)
      {
        assert LinkAt(mem, blocks, t);
        assert blocks[t].Has(blocks[t].base) && blocks[t].Has(blocks[t].base + 8);
        assert InFree(blocks, blocks[t].base) && InFree(blocks, blocks[t].base + 8);
        assert !r.Has(blocks[t].base) && !r.Has(blocks[t].base + 8);
      }
    }
  }

  lemma UnlinkLinks(mem: Memory, head: nat, blocks: seq<Range>, mem': Memory, head': nat, k: nat)
    requires GoodBlocks(blocks) && Linked(mem, head, blocks) && k < |blocks|
    requires head' == if k == 0 then At(blocks, 1) else head
    requires mem' == if k == 0 then mem else mem[blocks[k - 1].base + 8 := At(blocks, k + 1)]
    ensures Linked(mem', head', Splice(blocks, k, k + 1, []))
  {
    forall t | 0 <= t < |blocks| && t != k
      ensures t != k - 1 ==> LinkAt(mem', blocks, t)
      ensures t == k - 1 ==> HasHeader(mem', blocks[t], At(blocks, k + 1))
    {
      assert LinkAt(mem, blocks, t);
      if k > 0 && t != k - 1 {
        HeadersApart(blocks[t], blocks[k - 1]);
      }
    }
    LinkedRemove(mem, head, blocks, mem', head', k);
  }

  lemma UnlinkResult(mem: Memory, head: nat, blocks: seq<Range>, mem': Memory, head': nat, k: nat)
    requires GoodBlocks(blocks) && Linked(mem, head, blocks) && k < |blocks|
    requires head' == if k == 0 then At(blocks, 1) else head
    requires mem' == if k == 0 then mem else mem[blocks[k - 1].base + 8 := At(blocks, k + 1)]
    ensures var rest := Splice(blocks, k, k + 1, []);
            && GoodBlocks(rest) && Linked(mem', head', rest)
            && WritesIn(mem, mem', rest)
  {
    UnlinkLinks(mem, head, blocks, mem', head', k);
    RemoveKeepsGood(blocks, k);
    var rest := Splice(blocks, k, k + 1, []);
    forall w: nat, a: nat | Word(mem', w) != Word(mem, w) && w <= a < w + 8
      ensures InFree(rest, a)
    {
      assert w == blocks[k - 1].base + 8 && blocks[k - 1].Has(a) && !blocks[k].Has(a);
      assert InFree(blocks, a);
    }
  }

  /** A block that overlaps no free block lies between the neighbours its address picks out. */
  lemma OutsideIsBetween(blocks: seq<Range>, k: nat, r: Range)
    requires GoodBlocks(blocks) && GoodBlock(r) && k <= |blocks|
    requires forall a: nat :: r.Has(a) ==> !InFree(blocks, a)
    requires forall i :: 0 <= i < k ==> blocks[i].base < r.base
    requires forall i :: k <= i < |blocks| ==> r.base <= blocks[i].base
    ensures Between(BLOCK_ALIGN, blocks, TWO_64, k, r)
  {
    assert r.Has(r.base);
    if k > 0 {
      assert !blocks[k - 1].Has(r.base);
    }
    if k < |blocks| {
      assert blocks[k].Has(blocks[k].base) && InFree(blocks, blocks[k].base);
    }
  }

  /** What the link writes of an insertion do to the chain. */
  ghost predicate InsertWrites(mem: Memory, head: nat, blocks: seq<Range>, mem': Memory, head': nat, k: nat, r: Range)
    requires k <= |blocks|
  {
    var m := Merged(blocks, k, r);
    var j := if MergesNext(blocks, k, r) then k + 1 else k;
    if MergesPrev(blocks, k, r) then
      && head' == head && HasHeader(mem', m, At(blocks, j))
      && forall w: nat :: w != m.base && w != m.base + 8 ==> Word(mem', w) == Word(mem, w)
    else
      && head' == (if k == 0 then r.base else head) && HasHeader(mem', m, At(blocks, j))
      && (k > 0 ==> HasHeader(mem', blocks[k - 1], r.base))
      && forall w: nat :: w != r.base && w != r.base + 8 && (k > 0 ==> w != blocks[k - 1].base + 8) ==>
            Word(mem', w) == Word(mem, w)
  }

  /** The memory after `prev` has grown by `size`, and by the block at `current` if they touch. */
  ghost function Absorbed(mem: Memory, prev: nat, size: nat, current: nat): Memory {
    var mem1 := mem[prev := Word(mem, prev) + size];
    if current != NULL && prev + Word(mem1, prev) == current then
      SetHeader(mem1, prev, Word(mem1, prev) + Word(mem1, current), Word(mem1, current + 8))
    else mem1
  }

  lemma AbsorbWrites(mem: Memory, head: nat, blocks: seq<Range>, k: nat, r: Range)
    requires GoodBlocks(blocks) && Linked(mem, head, blocks) && GoodBlock(r)
    requires 0 < k <= |blocks| && MergesPrev(blocks, k, r)
    ensures InsertWrites(mem, head, blocks, Absorbed(mem, blocks[k - 1].base, r.size, At(blocks, k)), head, k, r)
  {
    assert LinkAt(mem, blocks, k - 1);
    if k < |blocks| {
      assert LinkAt(mem, blocks, k);
      HeadersApart(blocks[k - 1], blocks[k]);
    }
  }

  /** The memory after `block` has been linked in behind `prev`, absorbing the block at `current` if they touch. */
  ghost function Inserted(mem: Memory, block: nat, size: nat, prev: nat, current: nat): Memory {
    var mem1 := if current != NULL && block + size == current then
                  SetHeader(mem, block, size + Word(mem, current), Word(mem, current + 8))
                else mem[block + 8 := current];
    if prev == NULL then mem1 else mem1[prev + 8 := block]
  }

  lemma LinkWrites(mem: Memory, head: nat, blocks: seq<Range>, k: nat, r: Range)
    requires GoodBlocks(blocks) && Linked(mem, head, blocks) && GoodBlock(r)
    requires Between(BLOCK_ALIGN, blocks, TWO_64, k, r) && Word(mem, r.base) == r.size && !MergesPrev(blocks, k, r)
    ensures var prev := if k == 0 then NULL else blocks[k - 1].base;
            InsertWrites(mem, head, blocks, Inserted(mem, r.base, r.size, prev, At(blocks, k)),
                         if k == 0 then r.base else head, k, r)
  {
    if k > 0 {
      assert LinkAt(mem, blocks, k - 1);
      HeadersApart(blocks[k - 1], r);
    }
    if k < |blocks| {
      assert LinkAt(mem, blocks, k);
      HeadersApart(blocks[k], r);
    }
  }

  /** The writes of an insertion fall into the inserted block or the free block before it. */
  lemma InsertStaysInFree(mem: Memory, head: nat, blocks: seq<Range>, mem': Memory, head': nat, k: nat, r: Range)
    requires GoodBlocks(blocks) && GoodBlock(r) && k <= |blocks| && InsertWrites(mem, head, blocks, mem', head', k, r)
    ensures forall w: nat, a: nat :: Word(mem', w) != Word(mem, w) && w <= a < w + 8 ==> InFree(blocks, a) || r.Has(a)
  {
    forall w: nat, a: nat | Word(mem', w) != Word(mem, w) && w <= a < w + 8
      ensures InFree(blocks, a) || r.Has(a)
    {
      assert k > 0 && (w == blocks[k - 1].base || w == blocks[k - 1].base + 8) ==> blocks[k - 1].Has(a);
    }
  }

  /** A block away from the insertion keeps its header. */
  lemma OtherLinksKept(mem: Memory, head: nat, blocks: seq<Range>, mem': Memory, head': nat, k: nat, r: Range, t: nat)
    requires GoodBlocks(blocks) && Linked(mem, head, blocks)
    requires GoodBlock(r) && Between(BLOCK_ALIGN, blocks, TWO_64, k, r)
    requires InsertWrites(mem, head, blocks, mem', head', k, r)
    requires t < |blocks|
    requires t < (if MergesPrev(blocks, k, r) then k - 2 else k - 1) ||
             t >= (if MergesNext(blocks, k, r) then k + 1 else k)
    ensures LinkAt(mem', blocks, t)
  {
    assert LinkAt(mem, blocks, t);
    HeadersApart(blocks[t], r);
    if k > 0 && t != k - 1 {
      HeadersApart(blocks[t], blocks[k - 1]);
    }
  }

  lemma InsertLinks(mem: Memory, head: nat, blocks: seq<Range>, mem': Memory, head': nat, k: nat, r: Range)
    requires GoodBlocks(blocks) && Linked(mem, head, blocks)
    requires GoodBlock(r) && Between(BLOCK_ALIGN, blocks, TWO_64, k, r)
    requires InsertWrites(mem, head, blocks, mem', head', k, r)
    ensures Linked(mem', head', Coalesced(blocks, k, r))
  {
    var i := if MergesPrev(blocks, k, r) then k - 1 else k;
    var j := if MergesNext(blocks, k, r) then k + 1 else k;
    forall t | 0 <= t < |blocks| && (t < i - 1 || t >= j)
      ensures LinkAt(mem', blocks, t)
    {
      OtherLinksKept(mem, head, blocks, mem', head', k, r, t);
    }
    if MergesPrev(blocks, k, r) && k > 1 {
      assert LinkAt(mem, blocks, k - 2);
      HeadersApart(blocks[k - 2], blocks[k - 1]);
    }
    LinkedSplice(mem, head, blocks, mem', head', i, j, Merged(blocks, k, r));
  }

  // ---------------------------------------------------------------------------
  // Live allocations
  // ---------------------------------------------------------------------------

  ghost predicate Owns(live: map<nat, nat>, a: nat) {
    exists p :: p in live && Range(p, live[p]).Has(a)
  }

  /** Live allocations are at least 32 bytes, 16-aligned, off the free list and apart from each other. */
  ghost predicate GoodLive(live: map<nat, nat>, blocks: seq<Range>) {
    && (forall p :: p in live ==>
          live[p] >= MIN_BLOCK_SIZE && BLOCK_ALIGN <= p && p % BLOCK_ALIGN == 0 && p + live[p] <= TWO_64)
    && (forall p, a: nat :: p in live && Range(p, live[p]).Has(a) ==> !InFree(blocks, a))
    && (forall p, q, a: nat :: p in live && q in live && Range(p, live[p]).Has(a) && Range(q, live[q]).Has(a) ==>
          p == q)
  }

  ghost function Total(live: map<nat, nat>): nat
    decreases |live|
  {
    if live == map[] then 0
    else
      var p :| p in live;
      live[p] + Total(live - {p})
  }

  lemma {:induction false} TotalSplit(live: map<nat, nat>, p: nat)
    requires p in live
    ensures Total(live) == live[p] + Total(live - {p})
    decreases |live|
  {
    var q :| q in live && Total(live) == live[q] + Total(live - {q});
    if q != p {
      TotalSplit(live - {q}, p);
      TotalSplit(live - {p}, q);
      assert live - {q} - {p} == live - {p} - {q};
    }
  }

  lemma TotalInsert(live: map<nat, nat>, p: nat, size: nat)
    requires p !in live
    ensures Total(live[p := size]) == Total(live) + size
  {
    TotalSplit(live[p := size], p);
    assert live[p := size] - {p} == live;
  }

  lemma LiveWordsKept(mem: Memory, mem': Memory, live: map<nat, nat>, blocks: seq<Range>)
    requires GoodLive(live, blocks) && WritesIn(mem, mem', blocks)
    ensures SparesLive(mem, mem', live)
  {
    forall p: nat, w: nat, a: nat | p in live && Range(p, live[p]).Has(a) && w <= a < w + 8
      ensures Word(mem', w) == Word(mem, w)
    {
      assert !InFree(blocks, a);
    }
  }

  lemma SparesTwice(mem: Memory, mem1: Memory, mem2: Memory, live: map<nat, nat>)
    requires SparesLive(mem, mem1, live) && SparesLive(mem1, mem2, live)
    ensures SparesLive(mem, mem2, live)
  {
    forall p: nat, w: nat, a: nat | p in live && Range(p, live[p]).Has(a) && w <= a < w + 8
      ensures Word(mem2, w) == Word(mem, w)
    {
      assert Word(mem1, w) == Word(mem, w);
    }
  }

  /** Handing out free memory keeps the live allocations good. */
  lemma TakeKeepsLive(mem: Memory, blocks: seq<Range>, mem': Memory, blocks': seq<Range>, live: map<nat, nat>, r: Range)
    requires GoodBlocks(blocks) && GoodLive(live, blocks) && HandsOut(mem, blocks, mem', blocks', r)
    requires r.size >= MIN_BLOCK_SIZE && r.base % BLOCK_ALIGN == 0
    ensures r.base !in live && GoodLive(live[r.base := r.size], blocks')
    ensures forall a: nat :: Owns(live[r.base := r.size], a) ==> Owns(live, a) || InFree(blocks, a)
  {
    assert r.Has(r.base) && InFree(blocks, r.base) && r.Has(r.End() - 1) && InFree(blocks, r.End() - 1);
    assert r.base in live ==> Range(r.base, live[r.base]).Has(r.base);
    var live' := live[r.base := r.size];
    forall a: nat | Owns(live', a)
      ensures Owns(live, a) || InFree(blocks, a)
    {
      var p :| p in live' && Range(p, live'[p]).Has(a);
      if p != r.base {
        assert Range(p, live[p]).Has(a);
      }
    }
  }

  lemma GrowKeepsLive(mem: Memory, blocks: seq<Range>, mem': Memory, blocks': seq<Range>, live: map<nat, nat>,
                      mapped: set<Range>, r: Range)
    requires GoodLive(live, blocks) && Adds(mem, blocks, mem', blocks', r)
    requires forall a: nat :: InFree(blocks, a) || Owns(live, a) ==> InLive(mapped, a)
    requires forall a: nat :: r.Has(a) ==> !InLive(mapped, a)
    ensures GoodLive(live, blocks')
    ensures forall a: nat :: InFree(blocks', a) || Owns(live, a) ==> InLive(mapped + {r}, a)
    ensures SparesLive(mem, mem', live)
  {
    forall p, a: nat | p in live && Range(p, live[p]).Has(a)
      ensures !InFree(blocks', a)
    {
      assert Owns(live, a);
    }
    LiveWordsKept(mem, mem', live, blocks');
    forall a: nat | InFree(blocks', a) || Owns(live, a)
      ensures InLive(mapped + {r}, a)
    {
      if InLive(mapped, a) {
        var m :| m in mapped && m.Has(a);
        assert m in mapped + {r};
      } else {
        assert r in mapped + {r};
      }
    }
  }

  lemma GiveKeepsLive(mem: Memory, blocks: seq<Range>, mem': Memory, blocks': seq<Range>, live: map<nat, nat>, ptr: nat)
    requires GoodLive(live, blocks) && ptr in live && Adds(mem, blocks, mem', blocks', Range(ptr, live[ptr]))
    ensures GoodLive(live - {ptr}, blocks')
    ensures forall a: nat :: InFree(blocks', a) || Owns(live - {ptr}, a) ==> InFree(blocks, a) || Owns(live, a)
    ensures SparesLive(mem, mem', live - {ptr})
  {
    var live' := live - {ptr};
    forall a: nat | Owns(live', a)
      ensures Owns(live, a)
    {
      var p :| p in live' && Range(p, live'[p]).Has(a);
      assert Range(p, live[p]).Has(a);
    }
    LiveWordsKept(mem, mem', live', blocks');
  }

  /** A new live allocation, with the padded size and both alignments. */
  ghost predicate Serves(live: map<nat, nat>, live': map<nat, nat>, ptr: nat, layoutSize: nat, layoutAlign: nat) {
    && ptr !in live && live' == live[ptr := Max(layoutSize, MIN_BLOCK_SIZE)]
    && layoutAlign > 0 && ptr % layoutAlign == 0 && ptr % BLOCK_ALIGN == 0
  }

  /** A grown region that is big enough and, as page-aligned regions are, aligned for the request. */
  ghost predicate Suits(grown: Range, layoutSize: nat, layoutAlign: nat) {
    grown.base % Max(layoutAlign, BLOCK_ALIGN) == 0 && grown.size >= Max(layoutSize, MIN_BLOCK_SIZE)
  }

  ghost predicate IsPowerOfTwo(n: nat) {
    exists k: nat :: n == Pow2(k)
  }

  /** Padding an alignment to 16 gives a multiple of both. */
  lemma AlignFacts(layoutAlign: nat)
    requires IsPowerOfTwo(layoutAlign)
    ensures var align := Max(layoutAlign, BLOCK_ALIGN);
            layoutAlign > 0 && align % layoutAlign == 0 && align % BLOCK_ALIGN == 0
  {
    var k: nat :| layoutAlign == Pow2(k);
    if k >= 4 {
      Pow2IsMultiple(4, k);
      Pow2IsMultiple(k, k);
      SmallPowers(4);
    } else {
      SmallPowers(k);
      DividesSixteen(layoutAlign);
    }
  }

  lemma DividesSixteen(n: nat)
    requires n in {1, 2, 4, 8}
    ensures 16 % n == 0
  {
    assert 16 % 1 == 0 && 16 % 2 == 0 && 16 % 4 == 0 && 16 % 8 == 0;
  }

  lemma SmallPowers(k: nat)
    requires k <= 4
    ensures Pow2(k) == [1, 2, 4, 8, 16][k]
  {
    if k > 0 {
      SmallPowers(k - 1);
    }
  }

  lemma {:induction false} Pow2IsMultiple(j: nat, k: nat)
    requires j <= k
    ensures Pow2(k) >= Pow2(j) && Pow2(k) % Pow2(j) == 0
  {
    if j < k {
      Pow2IsMultiple(j, k - 1);
      MultiplesAdd(Pow2(k - 1), Pow2(k - 1), Pow2(j));
    } else {
      MultipleOf(1, Pow2(j));
    }
  }

  lemma MultipleOfMultiples(x: nat, a: nat, b: nat)
    requires a > 0 && b > 0 && x % a == 0 && a % b == 0
    ensures x % b == 0
  {
    var k, m := x / a, a / b;
    assert x == a * k && a == b * m;
    assert x == b * (m * k);
    MultipleOf(m * k, b);
  }

  /** A stretch of free addresses lies inside one block, because blocks never touch. */
  lemma {:induction false} StretchInOne(blocks: seq<Range>, a: nat, n: nat) returns (i: nat)
    requires GoodBlocks(blocks) && n > 0 && forall x: nat :: a <= x < a + n ==> InFree(blocks, x)
    ensures i < |blocks| && blocks[i].base <= a && a + n <= blocks[i].End()
  {
    assert InFree(blocks, a + n - 1);
    if n == 1 {
      i :| 0 <= i < |blocks| && blocks[i].Has(a);
    } else {
      i := StretchInOne(blocks, a, n - 1);
      var j :| 0 <= j < |blocks| && blocks[j].Has(a + n - 1);
      assert i == j;
    }
  }

  lemma RegionCanHold(blocks: seq<Range>, r: Range, size: nat, align: nat)
    requires GoodBlocks(blocks) && align > 0 && r.base % align == 0 && 0 < size <= r.size && r.End() < TWO_64
    requires forall a: nat :: r.Has(a) ==> InFree(blocks, a)
    ensures exists i :: 0 <= i < |blocks| && CanHold(blocks[i], size, align)
  {
    var i := StretchInOne(blocks, r.base, r.size);
    AlignUpMonotone(blocks[i].base, r.base, align);
    AlignUpOfMultiple(r.base, align);
    assert CanHold(blocks[i], size, align);
  }

  lemma AlignUpOfMultiple(a: nat, align: nat)
    requires align > 0 && a % align == 0
    ensures AlignUp(a, align) == a
  {
    AlignUpFacts(a, align);
    var r := AlignUp(a, align);
    MultiplesAdd(r, a, align);
    SmallMultiple(r - a, align);
  }

  lemma SmallMultiple(d: nat, n: nat)
    requires d < n && d % n == 0
    ensures d == 0
  {
    MulGap(n, d / n, 0);
  }
}
