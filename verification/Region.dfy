/** The virtual address range allocators of kernel/mm/src/region.rs. */
module Region {
  import opened Prelude
  import opened Layout

  datatype Range = Range(base: nat, size: nat) {
    function End(): nat {
      base + size
    }

    predicate Has(a: nat) {
      base <= a < base + size
    }
  }

  /** Rounds up to whole pages in 64-bit arithmetic. */
  function PageAlignUp(size: nat): nat {
    var s := (size + 0xFFF) % TWO_64;
    s - s % PAGE_SIZE
  }

  /** Rounding up gives the least multiple of the page size exactly when the sum fits 64 bits; else it gives 0. */
  lemma PageAlignUpIsLeastMultiple(size: nat)
    requires size < TWO_64
    ensures var n := PageAlignUp(size);
            n % PAGE_SIZE == 0 && (size <= n < size + PAGE_SIZE <==> size + 0xFFF < TWO_64)
            && (size + 0xFFF >= TWO_64 ==> n == 0)
  {
  }

  /** The bump check compares a 64-bit sum with the region's end; it is right exactly when the sum fits. */
  lemma BumpCheckExact(watermark: nat, n: nat, hi: nat)
    requires watermark <= hi < TWO_64 && n < TWO_64
    ensures ((watermark + n) % TWO_64 <= hi <==> watermark + n <= hi) <==> watermark + n < TWO_64
  {
  }

  lemma WrappedSum(a: nat, n: nat)
    requires a < TWO_64 && n < TWO_64
    ensures (a + n) % TWO_64 == if a + n < TWO_64 then a + n else a + n - TWO_64
  {
  }

  /** Two requests whose sums wrap: one rounds up to nothing, the other bumps the default base round to zero. */
  lemma WrappingRequests()
    ensures PageAlignUp(TWO_64 - 1) == 0
    ensures PageAlignUp(TWO_64 - DEFAULT_REGIONS_BASE) == TWO_64 - DEFAULT_REGIONS_BASE
    ensures (DEFAULT_REGIONS_BASE + PageAlignUp(TWO_64 - DEFAULT_REGIONS_BASE)) % TWO_64 == 0
  {
  }

  // ---------------------------------------------------------------------------
  // The free list as a set of addresses
  // ---------------------------------------------------------------------------

  /** Sorted, with a gap between any two ranges, none past the watermark. */
  ghost predicate Ordered(lo: nat, free: seq<Range>, watermark: nat) {
    && lo <= watermark
    && (forall i :: 0 <= i < |free| ==> free[i].size > 0 && lo <= free[i].base && free[i].End() <= watermark)
    && (forall i, j :: 0 <= i < j < |free| ==> free[i].End() < free[j].base)
  }

  /** Sorted, with a gap before the watermark too. */
  ghost predicate Sorted(lo: nat, free: seq<Range>, watermark: nat) {
    Ordered(lo, free, watermark) && forall i :: 0 <= i < |free| ==> free[i].End() < watermark
  }

  ghost predicate InFree(free: seq<Range>, a: nat) {
    exists i :: 0 <= i < |free| && free[i].Has(a)
  }

  /** The address can be handed out: it is on the free list or past the watermark. */
  ghost predicate Avail(free: seq<Range>, watermark: nat, a: nat) {
    a >= watermark || InFree(free, a)
  }

  ghost predicate InLive(live: set<Range>, a: nat) {
    exists r :: r in live && r.Has(a)
  }

  /** Every address from `lo` on is available or belongs to exactly one live range. */
  ghost predicate Partition(lo: nat, free: seq<Range>, watermark: nat, live: set<Range>) {
    && (forall r :: r in live ==> r.size > 0 && lo <= r.base)
    && (forall a: nat :: lo <= a ==> (Avail(free, watermark, a) <==> !InLive(live, a)))
    && (forall r, s, a: nat :: r in live && s in live && r.Has(a) && s.Has(a) ==> r == s)
  }

  /** The watermark, the free ranges and the live ranges are whole multiples of `unit` away from `lo`. */
  ghost predicate Units(unit: nat, lo: nat, free: seq<Range>, watermark: nat, live: set<Range>) {
    && unit > 0
    && lo <= watermark && (watermark - lo) % unit == 0
    && (forall i :: 0 <= i < |free| ==> Grained(unit, lo, free[i]))
    && (forall r :: r in live ==> Grained(unit, lo, r))
  }

  /** `[base, watermark)` is the disjoint union of the live ranges and the free-list ranges. */
  lemma LiveAndFreeTile(lo: nat, free: seq<Range>, watermark: nat, live: set<Range>)
    requires Sorted(lo, free, watermark) && Partition(lo, free, watermark, live)
    ensures forall a: nat :: lo <= a < watermark <==> InFree(free, a) || InLive(live, a)
    ensures forall a: nat :: !(InFree(free, a) && InLive(live, a))
    ensures forall r :: r in live ==> r.End() <= watermark
  {
    forall a: nat | InLive(live, a)
      ensures lo <= a < watermark && !InFree(free, a)
    {
      assert !Avail(free, watermark, a);
    }
    forall r | r in live
      ensures r.End() <= watermark
    {
      assert r.Has(r.End() - 1);
      assert InLive(live, r.End() - 1);
    }
  }

  /** Once every range has been freed, in whatever order, nothing of the region is in use. */
  lemma FullReclamation(lo: nat, free: seq<Range>, watermark: nat)
    requires Sorted(lo, free, watermark) && Partition(lo, free, watermark, {})
    ensures free == [] && watermark == lo
  {
    assert forall a: nat :: !InLive({}, a);
    assert watermark > lo ==> Avail(free, watermark, watermark - 1);
    assert free != [] ==> free[0].End() < lo;
  }

  /** The live range that starts where a free range, or a live range, ends. */
  lemma NextIsLive(lo: nat, free: seq<Range>, watermark: nat, live: set<Range>, r: Range) returns (next: Range)
    requires Sorted(lo, free, watermark) && Partition(lo, free, watermark, live)
    requires r in free || r in live
    requires r.End() < watermark && !InFree(free, r.End())
    ensures next in live && next.base == r.End()
  {
    LiveAndFreeTile(lo, free, watermark, live);
    assert r.size > 0 && lo <= r.base;
    assert InLive(live, r.End());
    next :| next in live && next.Has(r.End());
    if next.base < r.End() {
      assert next.Has(r.End() - 1) && r.Has(r.End() - 1);
      assert InLive(live, r.End() - 1);
      assert r in free ==> InFree(free, r.End() - 1);
      assert false;
    }
  }

  lemma FreeEndIsNotFree(lo: nat, free: seq<Range>, watermark: nat, i: nat)
    requires Sorted(lo, free, watermark) && i < |free|
    ensures !InFree(free, free[i].End())
  {
  }

  /** The first `k` free ranges are each followed by a live range of its own. */
  lemma {:induction false} FollowersOf(lo: nat, free: seq<Range>, watermark: nat, live: set<Range>, k: nat)
    returns (followers: set<Range>)
    requires Sorted(lo, free, watermark) && Partition(lo, free, watermark, live) && k <= |free|
    ensures followers <= live && |followers| == k
    ensures forall f :: f in followers ==> exists i :: 0 <= i < k && f.base == free[i].End()
  {
    if k == 0 {
      followers := {};
    } else {
      var fs := FollowersOf(lo, free, watermark, live, k - 1);
      FreeEndIsNotFree(lo, free, watermark, k - 1);
      var next := NextIsLive(lo, free, watermark, live, free[k - 1]);
      assert next !in fs;
      followers := fs + {next};
    }
  }

  /** Freeing `r` needs a new entry of a list that already has `|free|` ones only while at least
      `|free| + 1` other ranges are live. */
  lemma FragmentationBound(lo: nat, free: seq<Range>, watermark: nat, live: set<Range>, r: Range)
    requires Sorted(lo, free, watermark) && Partition(lo, free, watermark, live) && r in live
    requires r.End() != watermark
    requires forall i :: 0 <= i < |free| ==> free[i].End() != r.base && free[i].base != r.End()
    ensures |live - {r}| >= |free| + 1
  {
    LiveAndFreeTile(lo, free, watermark, live);
    var fs := FollowersOf(lo, free, watermark, live, |free|);
    if InFree(free, r.End()) {
      var i :| 0 <= i < |free| && free[i].Has(r.End());
      assert free[i].Has(r.End() - 1) && r.Has(r.End() - 1);
      assert InFree(free, r.End() - 1) && InLive(live, r.End() - 1);
      assert false;
    }
    var next := NextIsLive(lo, free, watermark, live, r);
    if next in fs {
      var i :| 0 <= i < |free| && next.base == free[i].End();
      assert free[i].Has(r.End() - 1) && r.Has(r.End() - 1);
      assert InFree(free, r.End() - 1) && InLive(live, r.End() - 1);
      assert false;
    }
    assert r !in fs;
    assert next != r;
    SubsetCount(fs + {next}, live - {r});
  }

  lemma SubsetCount(a: set<Range>, b: set<Range>)
    requires a <= b
    ensures |a| <= |b|
  {
    assert b == a + (b - a);
  }

  // ---------------------------------------------------------------------------
  // Effects of the list operations on the available addresses
  // ---------------------------------------------------------------------------

  /** Availability changes exactly on `r`: it is taken away, or given back. */
  ghost predicate Takes(free: seq<Range>, wm: nat, free': seq<Range>, wm': nat, r: Range) {
    forall a: nat :: Avail(free', wm', a) <==> Avail(free, wm, a) && !r.Has(a)
  }

  ghost predicate Gives(free: seq<Range>, wm: nat, free': seq<Range>, wm': nat, r: Range) {
    forall a: nat :: Avail(free', wm', a) <==> Avail(free, wm, a) || r.Has(a)
  }

  lemma PartitionTake(lo: nat, free: seq<Range>, wm: nat, live: set<Range>, free': seq<Range>, wm': nat, r: Range)
    requires Partition(lo, free, wm, live) && Takes(free, wm, free', wm', r)
    requires r.size > 0 && lo <= r.base && forall a: nat :: r.Has(a) ==> Avail(free, wm, a)
    ensures r !in live && Partition(lo, free', wm', live + {r})
  {
    assert r.Has(r.base);
    forall a: nat
      ensures InLive(live + {r}, a) <==> InLive(live, a) || r.Has(a)
    {
      if InLive(live, a) {
        var s :| s in live && s.Has(a);
        assert s in live + {r};
      }
      if r.Has(a) {
        assert r in live + {r};
      }
    }
    forall s, a: nat | s in live && s.Has(a) && r.Has(a)
      ensures false
    {
      assert InLive(live, a);
    }
    assert r in live ==> InLive(live, r.base);
  }

  /** A live range that starts at or above the watermark contradicts the partition. */
  lemma OverlapBreaks(lo: nat, free: seq<Range>, wm: nat, live: set<Range>, base: nat, n: nat)
    requires lo <= base && Range(base, n) in live && n > 0
    ensures wm <= base ==> !Partition(lo, free, wm, live)
  {
    assert Range(base, n).Has(base) && InLive(live, base);
    assert wm <= base ==> Avail(free, wm, base);
  }

  lemma PartitionGive(lo: nat, free: seq<Range>, wm: nat, live: set<Range>, free': seq<Range>, wm': nat, r: Range)
    requires Partition(lo, free, wm, live) && Gives(free, wm, free', wm', r) && r in live
    ensures Partition(lo, free', wm', live - {r})
  {
    forall a: nat
      ensures InLive(live - {r}, a) <==> InLive(live, a) && !r.Has(a)
    {
      if InLive(live, a) && !r.Has(a) {
        var s :| s in live && s.Has(a);
        assert s in live - {r};
      }
    }
  }

  lemma PartitionSame(lo: nat, free: seq<Range>, wm: nat, live: set<Range>, free': seq<Range>, wm': nat)
    requires Partition(lo, free, wm, live) && forall a: nat :: Avail(free', wm', a) <==> Avail(free, wm, a)
    ensures Partition(lo, free', wm', live)
  {
  }

  lemma InFreeConcat(a: seq<Range>, b: seq<Range>, x: nat)
    ensures InFree(a + b, x) <==> InFree(a, x) || InFree(b, x)
  {
    if InFree(a, x) {
      var i :| 0 <= i < |a| && a[i].Has(x);
      assert (a + b)[i].Has(x);
    }
    if InFree(b, x) {
      var i :| 0 <= i < |b| && b[i].Has(x);
      assert (a + b)[|a| + i].Has(x);
    }
  }

  /** The list with entries `i..j` replaced by `mid`. */
  function Splice(free: seq<Range>, i: nat, j: nat, mid: seq<Range>): seq<Range>
    requires i <= j <= |free|
  {
    free[..i] + mid + free[j..]
  }

  lemma SpliceInFree(free: seq<Range>, i: nat, j: nat, mid: seq<Range>, x: nat)
    requires i <= j <= |free|
    ensures InFree(Splice(free, i, j, mid), x) <==> InFree(free[..i], x) || InFree(mid, x) || InFree(free[j..], x)
    ensures InFree(free, x) <==> InFree(free[..i], x) || InFree(free[i..j], x) || InFree(free[j..], x)
  {
    InFreeConcat(free[..i] + mid, free[j..], x);
    InFreeConcat(free[..i], mid, x);
    assert free == free[..i] + free[i..j] + free[j..];
    InFreeConcat(free[..i] + free[i..j], free[j..], x);
    InFreeConcat(free[..i], free[i..j], x);
  }

  /** `mid` fits, with gaps, between the entries before `i` and those from `j` on. */
  ghost predicate Fits(lo: nat, free: seq<Range>, wm: nat, i: nat, j: nat, mid: seq<Range>)
    requires i <= j <= |free|
  {
    && |mid| <= 1
    && (mid != [] ==>
          && mid[0].size > 0 && lo <= mid[0].base && mid[0].End() <= wm
          && (i > 0 ==> free[i - 1].End() < mid[0].base)
          && (j < |free| ==> mid[0].End() < free[j].base))
  }

  lemma SpliceOrdered(lo: nat, free: seq<Range>, wm: nat, i: nat, j: nat, mid: seq<Range>)
    requires Ordered(lo, free, wm) && i <= j <= |free| && Fits(lo, free, wm, i, j, mid)
    ensures Ordered(lo, Splice(free, i, j, mid), wm)
  {
    var free' := Splice(free, i, j, mid);
    forall k, l | 0 <= k < l < |free'|
      ensures free'[k].End() < free'[l].base
    {
      SpliceGap(lo, free, wm, i, j, mid, k, l);
    }
  }

  /** Where an entry of the spliced list comes from. */
  lemma SpliceAt(free: seq<Range>, i: nat, j: nat, mid: seq<Range>, k: nat)
    requires i <= j <= |free| && k < |Splice(free, i, j, mid)|
    ensures Splice(free, i, j, mid)[k] ==
            if k < i then free[k] else if k < i + |mid| then mid[k - i] else free[k - |mid| + j - i]
  {
  }

  lemma SpliceGap(lo: nat, free: seq<Range>, wm: nat, i: nat, j: nat, mid: seq<Range>, k: nat, l: nat)
    requires Ordered(lo, free, wm) && i <= j <= |free| && Fits(lo, free, wm, i, j, mid)
    requires k < l < |Splice(free, i, j, mid)|
    ensures Splice(free, i, j, mid)[k].End() < Splice(free, i, j, mid)[l].base
  {
    SpliceAt(free, i, j, mid, k);
    SpliceAt(free, i, j, mid, l);
  }

  /** What becomes of entry `i` when its first `n` bytes are handed out. */
  function Remainder(e: Range, n: nat): seq<Range>
    requires n <= e.size
  {
    if e.size == n then [] else [Range(e.base + n, e.size - n)]
  }

  lemma TakeFrontEffect(lo: nat, free: seq<Range>, wm: nat, i: nat, n: nat)
    requires Sorted(lo, free, wm) && i < |free| && 0 < n <= free[i].size
    ensures var free' := Splice(free, i, i + 1, Remainder(free[i], n));
            Sorted(lo, free', wm) && Takes(free, wm, free', wm, Range(free[i].base, n))
  {
    var mid := Remainder(free[i], n);
    var r := Range(free[i].base, n);
    SpliceOrdered(lo, free, wm, i, i + 1, mid);
    forall a: nat
      ensures InFree(Splice(free, i, i + 1, mid), a) <==> InFree(free, a) && !r.Has(a)
    {
      TakeFrontAt(lo, free, wm, i, n, a);
    }
  }

  lemma TakeFrontAt(lo: nat, free: seq<Range>, wm: nat, i: nat, n: nat, a: nat)
    requires Ordered(lo, free, wm) && i < |free| && 0 < n <= free[i].size
    ensures InFree(Splice(free, i, i + 1, Remainder(free[i], n)), a)
            <==> InFree(free, a) && !Range(free[i].base, n).Has(a)
  {
    SpliceInFree(free, i, i + 1, Remainder(free[i], n), a);
    InOne(free, i, a);
    InRemainder(free[i], n, a);
    OnlyInOne(lo, free, wm, i, a);
  }

  lemma InRemainder(e: Range, n: nat, a: nat)
    requires 0 < n <= e.size
    ensures InFree(Remainder(e, n), a) <==> e.Has(a) && !Range(e.base, n).Has(a)
  {
    var mid := Remainder(e, n);
    assert mid != [] ==> (mid[0].Has(a) <==> e.Has(a) && !Range(e.base, n).Has(a));
  }

  /** An address of one entry is in no other. */
  lemma OnlyInOne(lo: nat, free: seq<Range>, wm: nat, i: nat, a: nat)
    requires Ordered(lo, free, wm) && i < |free|
    ensures free[i].Has(a) ==> !InFree(free[..i], a) && !InFree(free[i + 1..], a)
  {
  }

  lemma InOne(free: seq<Range>, i: nat, a: nat)
    requires i < |free|
    ensures InFree(free[i..i + 1], a) <==> free[i].Has(a)
  {
    assert free[i..i + 1][0] == free[i];
  }

  lemma BumpEffect(lo: nat, free: seq<Range>, wm: nat, n: nat)
    requires Sorted(lo, free, wm)
    ensures Sorted(lo, free, wm + n)
    ensures Takes(free, wm, free, wm + n, Range(wm, n))
  {
    forall a: nat
      ensures Avail(free, wm + n, a) <==> Avail(free, wm, a) && !Range(wm, n).Has(a)
    {
    }
  }

  lemma GiveEffect(free: seq<Range>, wm: nat, i: nat, j: nat, mid: seq<Range>, r: Range)
    requires i <= j <= |free| && forall a: nat :: InFree(mid, a) <==> InFree(free[i..j], a) || r.Has(a)
    ensures Gives(free, wm, Splice(free, i, j, mid), wm, r)
  {
    forall a: nat
      ensures InFree(Splice(free, i, j, mid), a) <==> InFree(free, a) || r.Has(a)
    {
      SpliceInFree(free, i, j, mid, a);
    }
  }

  predicate MergesPrev(free: seq<Range>, idx: nat, r: Range)
    requires idx <= |free|
  {
    idx > 0 && free[idx - 1].End() == r.base
  }

  predicate MergesNext(free: seq<Range>, idx: nat, r: Range)
    requires idx <= |free|
  {
    idx < |free| && free[idx].base == r.End()
  }

  /** The entry that `r` becomes once merged with the neighbours it touches. */
  function Merged(free: seq<Range>, idx: nat, r: Range): Range
    requires idx <= |free|
  {
    var left := if MergesPrev(free, idx, r) then Range(free[idx - 1].base, free[idx - 1].size + r.size) else r;
    if MergesNext(free, idx, r) then Range(left.base, left.size + free[idx].size) else left
  }

  function Coalesced(free: seq<Range>, idx: nat, r: Range): seq<Range>
    requires idx <= |free|
  {
    Splice(free, if MergesPrev(free, idx, r) then idx - 1 else idx, if MergesNext(free, idx, r) then idx + 1 else idx,
           [Merged(free, idx, r)])
  }

  /** Extending the entry before `r`, and dropping the one after it if they touch. */
  lemma GrowPrev(free: seq<Range>, idx: nat, r: Range)
    requires idx <= |free| && MergesPrev(free, idx, r)
    ensures var p := free[idx - 1];
            if MergesNext(free, idx, r)
            then (free[..idx] + free[idx + 1..])[idx - 1 := Range(p.base, p.size + r.size + free[idx].size)]
                 == Coalesced(free, idx, r)
            else free[idx - 1 := Range(p.base, p.size + r.size)] == Coalesced(free, idx, r)
  {
  }

  /** Extending the entry after `r` backward, or inserting `r` between two entries. */
  lemma GrowNext(free: seq<Range>, idx: nat, r: Range)
    requires idx <= |free| && !MergesPrev(free, idx, r)
    ensures if MergesNext(free, idx, r)
            then free[idx := Range(r.base, free[idx].size + r.size)] == Coalesced(free, idx, r)
            else free[..idx] + [r] + free[idx..] == Coalesced(free, idx, r)
  {
  }

  /** `r` lies between entries `idx - 1` and `idx` without overlapping either. */
  ghost predicate Between(lo: nat, free: seq<Range>, wm: nat, idx: nat, r: Range) {
    && idx <= |free| && r.size > 0 && lo <= r.base && r.End() <= wm
    && (idx > 0 ==> free[idx - 1].End() <= r.base)
    && (idx < |free| ==> r.End() <= free[idx].base)
  }

  lemma MergedCovers(lo: nat, free: seq<Range>, wm: nat, idx: nat, r: Range, a: nat)
    requires Ordered(lo, free, wm) && Between(lo, free, wm, idx, r)
    ensures var i := if MergesPrev(free, idx, r) then idx - 1 else idx;
            var j := if MergesNext(free, idx, r) then idx + 1 else idx;
            InFree([Merged(free, idx, r)], a) <==> InFree(free[i..j], a) || r.Has(a)
  {
    var i := if MergesPrev(free, idx, r) then idx - 1 else idx;
    var j := if MergesNext(free, idx, r) then idx + 1 else idx;
    var m := [Merged(free, idx, r)];
    assert InFree(m, a) <==> m[0].Has(a);
    assert free[i..j] == free[i..idx] + free[idx..j];
    InFreeConcat(free[i..idx], free[idx..j], a);
    if i < idx {
      InOne(free, i, a);
    }
    if idx < j {
      InOne(free, idx, a);
    }
  }

  lemma CoalesceEffect(lo: nat, free: seq<Range>, wm: nat, idx: nat, r: Range)
    requires Ordered(lo, free, wm) && Between(lo, free, wm, idx, r)
    ensures Ordered(lo, Coalesced(free, idx, r), wm) && Gives(free, wm, Coalesced(free, idx, r), wm, r)
  {
    var i := if MergesPrev(free, idx, r) then idx - 1 else idx;
    var j := if MergesNext(free, idx, r) then idx + 1 else idx;
    var m := [Merged(free, idx, r)];
    forall a: nat
      ensures InFree(m, a) <==> InFree(free[i..j], a) || r.Has(a)
    {
      MergedCovers(lo, free, wm, idx, r, a);
    }
    GiveEffect(free, wm, i, j, m, r);
    SpliceOrdered(lo, free, wm, i, j, m);
  }

  /** Only the entries next to `r` can touch it. */
  lemma TouchesOnlyNeighbours(lo: nat, free: seq<Range>, wm: nat, idx: nat, r: Range)
    requires Ordered(lo, free, wm) && Between(lo, free, wm, idx, r)
    ensures (exists e :: e in free && (e.End() == r.base || e.base == r.End()))
       <==> MergesPrev(free, idx, r) || MergesNext(free, idx, r)
  {
    if e :| e in free && (e.End() == r.base || e.base == r.End()) {
      var k :| 0 <= k < |free| && free[k] == e;
    }
    if MergesPrev(free, idx, r) {
      assert free[idx - 1] in free;
    }
    if MergesNext(free, idx, r) {
      assert free[idx] in free;
    }
  }

  /** A live range never overlaps a free one, so each free range lies on one side of it. */
  lemma FreeBesideLive(lo: nat, free: seq<Range>, wm: nat, live: set<Range>, r: Range, i: nat)
    requires Sorted(lo, free, wm) && Partition(lo, free, wm, live) && r in live && i < |free|
    ensures free[i].End() <= r.base || r.End() <= free[i].base
  {
    LiveAndFreeTile(lo, free, wm, live);
    var a := Max(free[i].base, r.base);
    if free[i].Has(a) && r.Has(a) {
      assert InFree(free, a) && InLive(live, a);
    }
  }

  /** The insertion index of a live range puts it between its neighbours. */
  lemma LiveBetween(lo: nat, free: seq<Range>, wm: nat, live: set<Range>, idx: nat, r: Range)
    requires Sorted(lo, free, wm) && Partition(lo, free, wm, live) && r in live && idx <= |free|
    requires forall i :: 0 <= i < idx ==> free[i].base < r.base
    requires forall i :: idx <= i < |free| ==> r.base <= free[i].base
    ensures Between(lo, free, wm, idx, r)
  {
    LiveAndFreeTile(lo, free, wm, live);
    if idx > 0 {
      FreeBesideLive(lo, free, wm, live, r, idx - 1);
    }
    if idx < |free| {
      FreeBesideLive(lo, free, wm, live, r, idx);
    }
  }

  lemma RetractEffect(lo: nat, free: seq<Range>, wm: nat)
    requires Ordered(lo, free, wm) && free != [] && free[|free| - 1].End() == wm
    ensures Ordered(lo, free[..|free| - 1], free[|free| - 1].base)
    ensures forall a: nat :: Avail(free[..|free| - 1], free[|free| - 1].base, a) <==> Avail(free, wm, a)
  {
    var k := |free| - 1;
    forall a: nat
      ensures Avail(free[..k], free[k].base, a) <==> Avail(free, wm, a)
    {
      assert free == free[..k] + free[k..];
      InFreeConcat(free[..k], free[k..], a);
      assert free[k..k + 1] == free[k..];
      InOne(free, k, a);
    }
  }

  lemma LowerWatermark(lo: nat, free: seq<Range>, wm: nat, live: set<Range>, r: Range)
    requires Sorted(lo, free, wm) && Partition(lo, free, wm, live) && r in live && r.End() == wm
    ensures Ordered(lo, free, r.base) && Gives(free, wm, free, r.base, r)
  {
    forall i | 0 <= i < |free|
      ensures free[i].End() <= r.base
    {
      FreeBesideLive(lo, free, wm, live, r, i);
    }
  }

  // ---------------------------------------------------------------------------
  // Granularity: what a run of equally sized requests keeps
  // ---------------------------------------------------------------------------

  lemma MultiplesAdd(a: int, b: int, unit: nat)
    requires unit > 0 && a % unit == 0 && b % unit == 0
    ensures (a + b) % unit == 0 && (a - b) % unit == 0
  {
    SumIsMultiple(a, b, unit, a / unit, b / unit);
  }

  lemma SumIsMultiple(a: int, b: int, unit: nat, p: int, q: int)
    requires unit > 0 && a == unit * p && b == unit * q
    ensures (a + b) % unit == 0 && (a - b) % unit == 0
  {
    Distribute(unit, p, q);
    MultipleOf(p + q, unit);
    MultipleOf(p - q, unit);
  }

  lemma Distribute(unit: int, p: int, q: int)
    ensures unit * p + unit * q == unit * (p + q) && unit * p - unit * q == unit * (p - q)
  {
  }

  lemma MultipleOf(k: int, unit: nat)
    requires unit > 0
    ensures (unit * k) % unit == 0
  {
    var m := unit * k;
    DivModUnique(unit, k, m / unit, m % unit);
  }

  lemma DivModUnique(unit: nat, k: int, q: int, r: int)
    requires unit > 0 && 0 <= r < unit && unit * k == unit * q + r
    ensures r == 0
  {
    assert unit * (k - q) == r;
    assert k - q >= 1 ==> unit * (k - q) >= unit;
    assert k - q <= -1 ==> unit * (k - q) <= -(unit as int);
  }

  /** A list entry that keeps to the grain. */
  ghost predicate Grained(unit: nat, lo: nat, r: Range)
    requires unit > 0
  {
    lo <= r.base && (r.base - lo) % unit == 0 && r.size % unit == 0
  }

  lemma GrainedRest(unit: nat, lo: nat, e: Range, n: nat)
    requires unit > 0 && Grained(unit, lo, e) && n % unit == 0 && n <= e.size
    ensures Grained(unit, lo, Range(e.base, n)) && Grained(unit, lo, Range(e.base + n, e.size - n))
  {
    MultiplesAdd(e.base - lo, n, unit);
    MultiplesAdd(e.size, n, unit);
  }

  /** The grain after a request for `n` bytes. */
  ghost function GrainOf(unit: nat, n: nat): (u: nat)
    requires unit > 0
    ensures u > 0 && n % u == 0
  {
    if n % unit == 0 then unit else 1
  }

  lemma CoarserUnits(unit: nat, n: nat, lo: nat, free: seq<Range>, wm: nat, live: set<Range>)
    requires Units(unit, lo, free, wm, live)
    ensures Units(GrainOf(unit, n), lo, free, wm, live)
  {
  }

  /** Handing out the front of a free range keeps everything in order. */
  lemma TakeKeeps(lo: nat, free: seq<Range>, wm: nat, live: set<Range>, unit: nat, i: nat, n: nat)
    requires Sorted(lo, free, wm) && Partition(lo, free, wm, live) && Units(unit, lo, free, wm, live)
    requires i < |free| && 0 < n <= free[i].size
    ensures
      var free', r := Splice(free, i, i + 1, Remainder(free[i], n)), Range(free[i].base, n);
      && Sorted(lo, free', wm) && Partition(lo, free', wm, live + {r}) && r !in live && |free'| <= |free|
      && Units(GrainOf(unit, n), lo, free', wm, live + {r})
  {
    var free', r := Splice(free, i, i + 1, Remainder(free[i], n)), Range(free[i].base, n);
    TakeFrontEffect(lo, free, wm, i, n);
    forall a: nat | r.Has(a)
      ensures Avail(free, wm, a)
    {
      assert free[i].Has(a);
    }
    PartitionTake(lo, free, wm, live, free', wm, r);
    CoarserUnits(unit, n, lo, free, wm, live);
    TakeUnits(GrainOf(unit, n), lo, free, wm, live, i, n);
  }

  lemma TakeUnits(unit: nat, lo: nat, free: seq<Range>, wm: nat, live: set<Range>, i: nat, n: nat)
    requires Units(unit, lo, free, wm, live) && i < |free| && 0 < n <= free[i].size && n % unit == 0
    ensures Units(unit, lo, Splice(free, i, i + 1, Remainder(free[i], n)), wm, live + {Range(free[i].base, n)})
  {
    GrainedRest(unit, lo, free[i], n);
    SpliceGrained(unit, lo, free, i, Remainder(free[i], n));
  }

  lemma SpliceGrained(unit: nat, lo: nat, free: seq<Range>, i: nat, mid: seq<Range>)
    requires unit > 0 && i < |free|
    requires forall k :: 0 <= k < |free| ==> Grained(unit, lo, free[k])
    requires forall k :: 0 <= k < |mid| ==> Grained(unit, lo, mid[k])
    ensures var free' := Splice(free, i, i + 1, mid); forall k :: 0 <= k < |free'| ==> Grained(unit, lo, free'[k])
  {
  }

  /** So does moving the watermark up. */
  lemma BumpKeeps(lo: nat, free: seq<Range>, wm: nat, live: set<Range>, unit: nat, n: nat)
    requires Sorted(lo, free, wm) && Partition(lo, free, wm, live) && Units(unit, lo, free, wm, live) && n > 0
    ensures
      var r := Range(wm, n);
      && Sorted(lo, free, wm + n) && Partition(lo, free, wm + n, live + {r}) && r !in live
      && Units(GrainOf(unit, n), lo, free, wm, live) && Units(GrainOf(unit, n), lo, free, wm + n, live + {r})
  {
    BumpEffect(lo, free, wm, n);
    PartitionTake(lo, free, wm, live, free, wm + n, Range(wm, n));
    CoarserUnits(unit, n, lo, free, wm, live);
    MultiplesAdd(wm - lo, n, GrainOf(unit, n));
  }

  lemma GrainedJoin(unit: nat, lo: nat, a: Range, b: Range)
    requires unit > 0 && Grained(unit, lo, a) && Grained(unit, lo, b) && a.End() == b.base
    ensures Grained(unit, lo, Range(a.base, a.size + b.size))
  {
    MultiplesAdd(a.size, b.size, unit);
  }

  lemma GrainedMerge(unit: nat, lo: nat, free: seq<Range>, idx: nat, r: Range)
    requires unit > 0 && idx <= |free| && Grained(unit, lo, r)
    requires forall i :: 0 <= i < |free| ==> Grained(unit, lo, free[i])
    ensures Grained(unit, lo, Merged(free, idx, r))
    ensures forall i :: 0 <= i < |Coalesced(free, idx, r)| ==> Grained(unit, lo, Coalesced(free, idx, r)[i])
  {
    if MergesPrev(free, idx, r) {
      GrainedJoin(unit, lo, free[idx - 1], r);
    }
    if MergesNext(free, idx, r) {
      var left := if MergesPrev(free, idx, r) then Range(free[idx - 1].base, free[idx - 1].size + r.size) else r;
      GrainedJoin(unit, lo, left, free[idx]);
    }
  }

  // ---------------------------------------------------------------------------
  // The allocators
  // ---------------------------------------------------------------------------

  datatype RegionAllocError = FreeListFull

  /** Bump and first-fit free list with coalescing; `live` is what has been handed out and not returned. */
  class FreeRegionAllocator {
    const region: VirtRegion
    const capacity: nat
    var freeList: seq<Range>
    var watermark: nat
    ghost var live: set<Range>
    ghost var unit: nat      // every size requested so far is a multiple of it

    ghost predicate Valid()
      reads this
    {
      && region.IsCanonical() && |freeList| <= capacity && watermark <= region.base + region.maxSize
      && Sorted(region.base, freeList, watermark)
      && Partition(region.base, freeList, watermark, live)
      && Units(unit, region.base, freeList, watermark, live)
    }

    constructor (region: VirtRegion, capacity: nat, ghost unit: nat)
      requires region.IsCanonical() && unit > 0
      ensures Valid() && this.unit == unit && live == {} && freeList == [] && watermark == region.base
      ensures this.region == region && this.capacity == capacity
    {
      this.region := region;
      this.capacity := capacity;
      freeList := [];
      watermark := region.base;
      live := {};
      this.unit := unit;
    }

    /** The 64-bit sums an allocation of `size` bytes computes do not wrap. */
    ghost predicate SumsFit(size: nat)
      reads this
    {
      && size + 0xFFF < TWO_64
      && (watermark + PageAlignUp(size) < TWO_64 || Fits(PageAlignUp(size)))
    }

    /** An address returned for `size` bytes starts a live range of at least that size. */
    ghost predicate Delivers(r: Option<nat>, size: nat)
      reads this
    {
      r.Some? && size > 0 ==> exists g :: g in live && g.base == r.value && g.size >= size
    }

    /** Some free range has at least `n` bytes. */
    ghost predicate Fits(n: nat)
      reads this
    {
      exists e :: e in freeList && e.size >= n
    }

    /** Neither a free range nor the room above the watermark holds `n` bytes. */
    ghost predicate Exhausted(n: nat)
      reads this
    {
      (forall e :: e in freeList ==> e.size < n) && watermark + n > region.base + region.maxSize
    }

    /** Where `n` bytes go: to the front of the lowest free range that holds them, or else to the watermark. */
    ghost predicate Chosen(n: nat, at: nat)
      reads this
    {
      if Fits(n) then
        (exists e :: e in freeList && e.size >= n && e.base == at) &&
        forall e :: e in freeList && e.size >= n ==> at <= e.base
      else at == watermark
    }

    /** The first entry of the free list with at least `n` bytes, or the list's length. */
    method FindFit(n: nat) returns (i: nat)
      ensures i <= |freeList| && forall k :: 0 <= k < i ==> freeList[k].size < n
      ensures i < |freeList| ==> freeList[i].size >= n
    {
      i := 0;
      while i < |freeList| && freeList[i].size < n
        invariant i <= |freeList| && forall k :: 0 <= k < i ==> freeList[k].size < n
      {
        i := i + 1;
      }
    }

    /** Hands out the front `n` bytes of entry `i`. */
    method TakeFrom(i: nat, n: nat) returns (base: nat)
      requires Valid() && i < |freeList| && 0 < n <= freeList[i].size
      modifies this
      ensures Valid() && watermark == old(watermark) && base == old(freeList[i].base)
      ensures live == old(live) + {Range(base, n)} && Range(base, n) !in old(live) && unit == GrainOf(old(unit), n)
    {
      var entry := freeList[i];
      base := entry.base;
      TakeKeeps(region.base, freeList, watermark, live, unit, i, n);
      ghost var free' := Splice(freeList, i, i + 1, Remainder(entry, n));
      if entry.size == n {
        freeList := freeList[..i] + freeList[i + 1..];
      } else {
        freeList := freeList[i := Range(entry.base + n, entry.size - n)];
      }
      assert freeList == free';
      unit := GrainOf(unit, n);
      live := live + {Range(base, n)};
    }

    /** Moves the watermark up by `n` bytes if the region has room. */
    method Bump(n: nat) returns (r: Option<nat>)
      requires Valid() && 0 < n < TWO_64
      modifies this
      ensures old(watermark) + n < TWO_64 ==>
        && Valid() && freeList == old(freeList)
        && (r.Some? <==> old(watermark) + n <= region.base + region.maxSize)
        && (r == None ==> live == old(live) && watermark == old(watermark))
        && (r.Some? ==> && r.value == old(watermark) && watermark == r.value + n
                        && live == old(live) + {Range(r.value, n)} && Range(r.value, n) !in old(live))
        && unit == GrainOf(old(unit), n)
      ensures old(watermark) + n >= TWO_64 ==> !Valid()
    {
      BumpKeeps(region.base, freeList, watermark, live, unit, n);
      unit := GrainOf(unit, n);
      WrappedSum(watermark, n);
      var end := (watermark + n) % TWO_64;
      if end > region.base + region.maxSize {
        return None;
      }
      var base := watermark;
      watermark := end;
      live := live + {Range(base, n)};
      OverlapBreaks(region.base, freeList, watermark, live, base, n);
      return Some(base);
    }

    /** The first entry that fits is the lowest. */
    lemma FirstIsChosen(i: nat, n: nat)
      requires Ordered(region.base, freeList, watermark) && i < |freeList| && freeList[i].size >= n
      requires forall k :: 0 <= k < i ==> freeList[k].size < n
      ensures Fits(n) && Chosen(n, freeList[i].base)
    {
      assert freeList[i] in freeList;
    }

    /** First fit, or else a bump, of `n` bytes: where they are and what else changed. */
    method AllocatePages(n: nat) returns (r: Option<nat>)
      requires Valid() && 0 < n < TWO_64
      modifies this
      ensures old(Fits(n)) || old(watermark) + n < TWO_64 ==>
        && Valid() && unit == GrainOf(old(unit), n)
        && (r == None <==> old(Exhausted(n)))
        && (r == None ==> live == old(live) && freeList == old(freeList) && watermark == old(watermark))
        && (r.Some? ==> live == old(live) + {Range(r.value, n)} && Range(r.value, n) !in old(live))
        && (r.Some? ==> old(Chosen(n, r.value)))
        && (r.Some? ==> watermark == if old(Fits(n)) then old(watermark) else old(watermark) + n)
      ensures !old(Fits(n)) && old(watermark) + n >= TWO_64 ==> !Valid()
    {
      var i := FindFit(n);
      if i < |freeList| {
        FirstIsChosen(i, n);
        var base := TakeFrom(i, n);
        return Some(base);
      }
      assert !Fits(n);
      r := Bump(n);
    }

    /** First fit, or else a bump. Any address returned is a fresh range inside the region, taken from the
        lowest free range that is big enough, or else from the watermark; failure means that neither has room. The
        allocator stays valid and gives what it was asked for exactly when its 64-bit sums do not wrap. */
    method Allocate(size: nat) returns (r: Option<nat>)
      requires Valid() && size < TWO_64
      modifies this
      ensures Valid() && Delivers(r, size) <==> old(SumsFit(size))
      ensures old(SumsFit(size)) ==>
        var n := PageAlignUp(size);
        && Valid()
        && (n == 0 ==> r == Some(watermark))
        && unit == GrainOf(old(unit), n)
        && (r == None || n == 0 ==> live == old(live) && freeList == old(freeList) && watermark == old(watermark))
        && (r.Some? && n > 0 ==> live == old(live) + {Range(r.value, n)} && Range(r.value, n) !in old(live))
        && (n > 0 ==> (r == None <==> old(Exhausted(n))) && (r.Some? ==> old(Chosen(n, r.value))))
        && (n > 0 && r.Some? ==> watermark == if old(Fits(n)) then old(watermark) else old(watermark) + n)
    {
      var n := PageAlignUp(size);
      PageAlignUpIsLeastMultiple(size);
      if n == 0 {
        TruncateKeepsCanonical(watermark);
        LiveAndFreeTile(region.base, freeList, watermark, live);
        return Some(Truncate(watermark));
      }
      r := AllocatePages(n);
      if r.Some? && old(SumsFit(size)) {
        assert Range(r.value, n) in live;
        LiveIsCanonical(Range(r.value, n));
        TruncateKeepsCanonical(r.value);
      }
      r := if r.Some? then Some(Truncate(r.value)) else None;
    }

    lemma LiveIsCanonical(r: Range)
      requires Valid() && r in live && r.size > 0
      ensures Canonical(r.base)
    {
      LiveAndFreeTile(region.base, freeList, watermark, live);
      assert r.Has(r.base) && InLive(live, r.base);
    }

    /** The first entry whose base is not below `addr`. */
    method InsertionIndex(addr: nat) returns (idx: nat)
      requires Ordered(region.base, freeList, watermark)
      ensures idx <= |freeList|
      ensures forall i :: 0 <= i < idx ==> freeList[i].base < addr
      ensures forall i :: idx <= i < |freeList| ==> addr <= freeList[i].base
    {
      var lo, hi := 0, |freeList|;
      while lo < hi
        invariant 0 <= lo <= hi <= |freeList|
        invariant forall i :: 0 <= i < lo ==> freeList[i].base < addr
        invariant forall i :: hi <= i < |freeList| ==> addr <= freeList[i].base
      {
        var mid := (lo + hi) / 2;
        if freeList[mid].base < addr {
          lo := mid + 1;
        } else {
          hi := mid;
        }
      }
      return lo;
    }

    /** Pulls the watermark back over trailing free entries. */
    method RetractWatermark()
      requires Ordered(region.base, freeList, watermark) && Units(unit, region.base, freeList, watermark, live)
      modifies this`freeList, this`watermark
      ensures Sorted(region.base, freeList, watermark) && Units(unit, region.base, freeList, watermark, live)
      ensures |freeList| <= |old(freeList)| && watermark <= old(watermark)
      ensures forall a: nat :: Avail(freeList, watermark, a) <==> old(Avail(freeList, watermark, a))
    {
      while freeList != [] && freeList[|freeList| - 1].End() == watermark
        invariant Ordered(region.base, freeList, watermark) && Units(unit, region.base, freeList, watermark, live)
        invariant |freeList| <= |old(freeList)| && watermark <= old(watermark)
        invariant forall a: nat :: Avail(freeList, watermark, a) <==> old(Avail(freeList, watermark, a))
        decreases |freeList|
      {
        RetractEffect(region.base, freeList, watermark);
        watermark := freeList[|freeList| - 1].base;
        freeList := freeList[..|freeList| - 1];
      }
    }

    /** The entry list after a freed range `r` is merged in at `idx`, or None if it needs an entry and none is left. */
    method MergeIn(idx: nat, r: Range) returns (full: bool)
      requires Ordered(region.base, freeList, watermark) && |freeList| <= capacity
      requires Between(region.base, freeList, watermark, idx, r)
      modifies this`freeList
      ensures full <==> old(|freeList| == capacity && !MergesPrev(freeList, idx, r) && !MergesNext(freeList, idx, r))
      ensures freeList == if full then old(freeList) else old(Coalesced(freeList, idx, r))
      ensures |freeList| <= capacity
    {
      full := false;
      if MergesPrev(freeList, idx, r) {
        GrowPrev(freeList, idx, r);
      } else {
        GrowNext(freeList, idx, r);
      }
      var mergePrev := idx > 0 && freeList[idx - 1].base + freeList[idx - 1].size == r.base;
      var mergeNext := idx < |freeList| && freeList[idx].base == r.base + r.size;
      if mergePrev && mergeNext {
        var succ := freeList[idx];
        freeList := freeList[..idx] + freeList[idx + 1..];
        freeList := freeList[idx - 1 := Range(freeList[idx - 1].base, freeList[idx - 1].size + r.size + succ.size)];
      } else if mergePrev {
        freeList := freeList[idx - 1 := Range(freeList[idx - 1].base, freeList[idx - 1].size + r.size)];
      } else if mergeNext {
        freeList := freeList[idx := Range(r.base, freeList[idx].size + r.size)];
      } else if |freeList| == capacity {
        full := true;
      } else {
        freeList := freeList[..idx] + [r] + freeList[idx..];
      }
    }

    /** Restores the watermark's gap once the addresses of `r` have been made available again. */
    method Settle(ghost free: seq<Range>, ghost wm: nat, ghost r: Range)
      requires region.IsCanonical() && |freeList| <= capacity && watermark <= wm <= region.base + region.maxSize
      requires Ordered(region.base, freeList, watermark) && Units(unit, region.base, freeList, watermark, live)
      requires Partition(region.base, free, wm, live) && Gives(free, wm, freeList, watermark, r) && r in live
      modifies this
      ensures Valid() && unit == old(unit) && live == old(live) - {r}
    {
      PartitionGive(region.base, free, wm, live, freeList, watermark, r);
      live := live - {r};
      RetractWatermark();
      PartitionSame(region.base, old(freeList), old(watermark), live, freeList, watermark);
    }

    ghost predicate Stuck(r: Range)
      reads this
    {
      && r.End() != watermark && |freeList| == capacity
      && forall e :: e in freeList ==> e.End() != r.base && e.base != r.End()
    }

    /** Merges a live range that does not touch the watermark into the free list. */
    method DeallocateInside(base: nat, n: nat) returns (full: bool)
      requires Valid() && Range(base, n) in live && base + n != watermark
      modifies this
      ensures Valid() && unit == old(unit) && full == old(Stuck(Range(base, n)))
      ensures full ==> live == old(live) && freeList == old(freeList) && watermark == old(watermark)
      ensures full ==> |live - {Range(base, n)}| >= capacity + 1
      ensures !full ==> live == old(live) - {Range(base, n)}
    {
      ghost var r := Range(base, n);
      ghost var free := freeList;
      var idx := InsertionIndex(base);
      LiveBetween(region.base, freeList, watermark, live, idx, r);
      CoalesceEffect(region.base, freeList, watermark, idx, r);
      GrainedMerge(unit, region.base, freeList, idx, r);
      TouchesOnlyNeighbours(region.base, freeList, watermark, idx, r);
      full := MergeIn(idx, Range(base, n));
      if full {
        FragmentationBound(region.base, freeList, watermark, live, r);
      } else {
        Settle(free, watermark, r);
      }
    }

    /** Returns a live range. It fails, changing nothing, only when the free list is full and the range
        touches no neighbour and not the watermark; then more than `capacity` other ranges are live. */
    method Deallocate(addr: nat, size: nat) returns (res: Result<(), RegionAllocError>)
      requires Valid() && size < TWO_64
      requires PageAlignUp(size) > 0 ==> Range(addr, PageAlignUp(size)) in live
      modifies this
      ensures Valid() && unit == old(unit)
      ensures res.Ok? ==> live == old(live) - {Range(addr, PageAlignUp(size))}
      ensures res.Err? ==> live == old(live) && freeList == old(freeList) && watermark == old(watermark)
      ensures res.Err? ==> |live - {Range(addr, PageAlignUp(size))}| >= capacity + 1
      ensures res.Err? <==> PageAlignUp(size) > 0 && old(Stuck(Range(addr, PageAlignUp(size))))
    {
      var n := PageAlignUp(size);
      if n == 0 {
        return Ok(());
      }
      ghost var r := Range(addr, n);
      if addr + n == watermark {
        ghost var wm := watermark;
        LowerWatermark(region.base, freeList, watermark, live, r);
        watermark := addr;
        Settle(freeList, wm, r);
        return Ok(());
      }
      var full := DeallocateInside(addr, n);
      return if full then Err(FreeListFull) else Ok(());
    }
  }

  /** The bump-only allocator of the heap region. */
  class RegionAllocator {
    const region: VirtRegion
    var next: nat

    ghost predicate Valid()
      reads this
    {
      region.IsCanonical() && region.base <= next <= region.base + region.maxSize
    }

    constructor (region: VirtRegion)
      requires region.IsCanonical()
      ensures Valid() && next == region.base && this.region == region
    {
      this.region := region;
      next := region.base;
    }

    /** Bumps by whole pages. The allocator stays valid and any range returned has the requested size exactly when
        the 64-bit sums do not wrap. */
    method Allocate(size: nat) returns (r: Option<nat>)
      requires Valid() && size < TWO_64
      modifies this
      ensures Valid() && (r.Some? ==> r.value + size <= next)
              <==> size + 0xFFF < TWO_64 && old(next) + PageAlignUp(size) < TWO_64
      ensures size + 0xFFF < TWO_64 && old(next) + PageAlignUp(size) < TWO_64 ==>
        && Valid()
        && (r.Some? <==> old(next) + PageAlignUp(size) <= region.base + region.maxSize)
        && (r.Some? ==> r.value == old(next) && next == r.value + PageAlignUp(size))
        && (r == None ==> next == old(next))
    {
      var n := PageAlignUp(size);
      PageAlignUpIsLeastMultiple(size);
      var end := (next + n) % TWO_64;
      if end > region.base + region.maxSize {
        return None;
      }
      var base := next;
      next := end;
      TruncateKeepsCanonical(base);
      return Some(Truncate(base));
    }
  }
}
