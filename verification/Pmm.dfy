/** The bitmap frame allocator of kernel/mm/src/pmm.rs. A set bit is a frame in use. */
module Pmm {
  import opened Prelude
  import opened Layout

  const BITS_PER_WORD := 64

  datatype PmmError = OutOfMemory | InvalidFrame | AlreadyInitialized | NoBitmapRegion

  /** One bitmap word, least significant bit first. */
  type Word = w: seq<bool> | |w| == BITS_PER_WORD witness seq(BITS_PER_WORD, _ => true)

  /** The word is all ones. */
  predicate IsFull(w: Word) {
    forall b | 0 <= b < BITS_PER_WORD :: w[b]
  }

  /** The word is zero. */
  predicate IsEmpty(w: Word) {
    forall b | 0 <= b < BITS_PER_WORD :: !w[b]
  }

  /** Trailing zeros of the inverted word: the lowest clear bit. */
  function FirstClear(w: Word): (b: nat)
    requires !IsFull(w)
    ensures b < BITS_PER_WORD && !w[b] && forall c :: 0 <= c < b ==> w[c]
  {
    FirstClearFrom(w, 0)
  }

  function FirstClearFrom(w: Word, i: nat): (b: nat)
    requires i <= BITS_PER_WORD && (exists c :: i <= c < BITS_PER_WORD && !w[c])
    ensures i <= b < BITS_PER_WORD && !w[b] && forall c :: i <= c < b ==> w[c]
    decreases BITS_PER_WORD - i
  {
    if !w[i] then i else FirstClearFrom(w, i + 1)
  }

  // ---------------------------------------------------------------------------
  // The bitmap as one row of bits
  // ---------------------------------------------------------------------------

  ghost function Flatten(words: seq<Word>): (bits: seq<bool>)
    ensures |bits| == BITS_PER_WORD * |words|
  {
    if words == [] then [] else Flatten(words[..|words| - 1]) + words[|words| - 1]
  }

  /** Bit `b` of word `w` is bit `64 w + b` of the row. */
  lemma {:induction false} FlattenAt(words: seq<Word>, w: nat, b: nat)
    requires w < |words| && b < BITS_PER_WORD
    ensures Flatten(words)[BITS_PER_WORD * w + b] == words[w][b]
  {
    if w < |words| - 1 {
      FlattenAt(words[..|words| - 1], w, b);
    }
  }

  lemma {:induction false} FlattenFull(words: seq<Word>)
    requires forall w :: 0 <= w < |words| ==> IsFull(words[w])
    ensures AllSet(Flatten(words), 0, |Flatten(words)|)
  {
    if words != [] {
      FlattenFull(words[..|words| - 1]);
    }
  }

  /** The first frame of the word that holds frame `f`. */
  function WordBase(f: nat): nat {
    f / BITS_PER_WORD * BITS_PER_WORD
  }

  /** No frame of the same word below `f` is free. */
  ghost predicate LowestOfWord(bits: seq<bool>, f: nat) {
    f < |bits| && forall g: nat :: WordBase(f) <= g < f ==> bits[g]
  }

  lemma FirstIsLowest(words: seq<Word>, w: nat, b: nat)
    requires w < |words| && b < BITS_PER_WORD && forall c :: 0 <= c < b ==> words[w][c]
    ensures LowestOfWord(Flatten(words), w * BITS_PER_WORD + b)
  {
    BelowIsSet(words, w, b);
    WordStart(w, b);
  }

  lemma BelowIsSet(words: seq<Word>, w: nat, b: nat)
    requires w < |words| && b < BITS_PER_WORD && forall c :: 0 <= c < b ==> words[w][c]
    ensures w * BITS_PER_WORD + b < |Flatten(words)|
    ensures forall g: nat :: w * BITS_PER_WORD <= g < w * BITS_PER_WORD + b ==> Flatten(words)[g]
  {
    forall g: nat | w * BITS_PER_WORD <= g < w * BITS_PER_WORD + b
      ensures Flatten(words)[g]
    {
      var c := g - w * BITS_PER_WORD;
      assert words[w][c];
      FlattenAt(words, w, c);
    }
  }

  lemma WordStart(w: nat, b: nat)
    requires b < BITS_PER_WORD
    ensures (w * BITS_PER_WORD + b) / BITS_PER_WORD == w && WordBase(w * BITS_PER_WORD + b) == w * BITS_PER_WORD
  {
  }

  /** Changing one bit of one word changes one bit of the row. */
  lemma {:induction false} FlattenUpdate(words: seq<Word>, w: nat, b: nat, v: bool)
    requires w < |words| && b < BITS_PER_WORD
    ensures Flatten(words[w := words[w][b := v]]) == Flatten(words)[BITS_PER_WORD * w + b := v]
  {
    var n := |words| - 1;
    var words' := words[w := words[w][b := v]];
    if w < n {
      FlattenUpdate(words[..n], w, b, v);
      assert words'[..n] == words[..n][w := words[w][b := v]];
    } else {
      assert words'[..n] == words[..n];
    }
  }

  ghost function CountFree(bits: seq<bool>): nat {
    if bits == [] then 0 else CountFree(bits[..|bits| - 1]) + if bits[|bits| - 1] then 0 else 1
  }

  lemma {:induction false} CountUpdate(bits: seq<bool>, f: nat, v: bool)
    requires f < |bits| && bits[f] != v
    ensures CountFree(bits[f := v]) == if v then CountFree(bits) - 1 else CountFree(bits) + 1
  {
    var last := |bits| - 1;
    if f == last {
      assert bits[f := v][..last] == bits[..last];
    } else {
      assert bits[f := v][..last] == bits[..last][f := v];
      CountUpdate(bits[..last], f, v);
    }
  }

  lemma {:induction false} CountZero(bits: seq<bool>)
    ensures CountFree(bits) == 0 <==> forall f :: 0 <= f < |bits| ==> bits[f]
  {
    if bits != [] {
      var last := |bits| - 1;
      CountZero(bits[..last]);
      assert forall f :: 0 <= f < last ==> bits[f] == bits[..last][f];
    }
  }

  // ---------------------------------------------------------------------------
  // Runs of free frames
  // ---------------------------------------------------------------------------

  ghost predicate FreeRun(bits: seq<bool>, s: nat, n: nat) {
    s + n <= |bits| && forall f :: s <= f < s + n ==> !bits[f]
  }

  /** The lowest-starting run of `n` free frames. */
  ghost predicate FirstRun(bits: seq<bool>, s: nat, n: nat) {
    FreeRun(bits, s, n) && forall t: nat :: t < s ==> !FreeRun(bits, t, n)
  }

  ghost predicate AllSet(bits: seq<bool>, s: nat, e: nat) {
    s <= e <= |bits| && forall f :: s <= f < e ==> bits[f]
  }

  /** `bits` with the run in use. */
  ghost function Marked(bits: seq<bool>, s: nat, n: nat): (r: seq<bool>)
    ensures |r| == |bits|
  {
    seq(|bits|, i requires 0 <= i < |bits| => bits[i] || s <= i < s + n)
  }

  lemma {:induction false} RunNeedsFree(bits: seq<bool>, s: nat, n: nat)
    requires FreeRun(bits, s, n)
    ensures CountFree(bits) >= n
  {
    if n > 0 {
      var last := |bits| - 1;
      if s + n <= last {
        RunNeedsFree(bits[..last], s, n);
      } else {
        RunNeedsFree(bits[..last], s, n - 1);
      }
    }
  }

  /** Length of the free run that ends just before frame `e`. */
  ghost function RunBack(bits: seq<bool>, e: nat): (n: nat)
    requires e <= |bits|
    ensures n <= e
  {
    if e == 0 || bits[e - 1] then 0 else RunBack(bits, e - 1) + 1
  }

  lemma {:induction false} RunBackIsMaximal(bits: seq<bool>, e: nat)
    requires e <= |bits|
    ensures var n := RunBack(bits, e); FreeRun(bits, e - n, n) && (e - n > 0 ==> bits[e - n - 1])
  {
    if e > 0 && !bits[e - 1] {
      RunBackIsMaximal(bits, e - 1);
    }
  }

  /** No run of `count` ends at or before frame `e`. */
  ghost predicate NoRunBy(bits: seq<bool>, count: nat, e: nat)
    requires e <= |bits|
  {
    e == 0 || (RunBack(bits, e) < count && NoRunBy(bits, count, e - 1))
  }

  /** What the scan knows after frame `e`: the length of the free run so far, and that no run was long enough. */
  ghost predicate Tracked(bits: seq<bool>, count: nat, e: nat, len: nat) {
    len < count && e <= |bits| && len == RunBack(bits, e) && NoRunBy(bits, count, e)
  }

  ghost predicate ScannedTo(bits: seq<bool>, count: nat, e: nat, runStart: nat, runLen: nat) {
    Tracked(bits, count, e, runLen) && (runLen > 0 ==> runStart + runLen == e)
  }

  lemma {:induction false} NoRunMeans(bits: seq<bool>, count: nat, e: nat, s: nat)
    requires e <= |bits| && NoRunBy(bits, count, e) && 0 < count && s + count <= e
    ensures !FreeRun(bits, s, count)
  {
    if s + count < e {
      NoRunMeans(bits, count, e - 1, s);
    } else {
      var n := RunBack(bits, e);
      RunBackIsMaximal(bits, e);
      assert s <= e - n - 1 < s + count;
    }
  }

  lemma {:induction false} TrackFree(bits: seq<bool>, count: nat, e: nat, len: nat, n: nat)
    requires Tracked(bits, count, e, len) && FreeRun(bits, e, n) && len + n < count
    ensures Tracked(bits, count, e + n, len + n)
  {
    if n > 0 {
      TrackFree(bits, count, e, len, n - 1);
    }
  }

  lemma {:induction false} TrackSet(bits: seq<bool>, count: nat, e: nat, len: nat, e': nat)
    requires Tracked(bits, count, e, len) && e < e' && AllSet(bits, e, e')
    ensures Tracked(bits, count, e', 0)
  {
    if e + 1 < e' {
      TrackSet(bits, count, e, len, e' - 1);
    }
  }

  lemma TrackHit(bits: seq<bool>, count: nat, e: nat, len: nat, n: nat)
    requires Tracked(bits, count, e, len) && FreeRun(bits, e, n) && len + n >= count
    ensures FirstRun(bits, e - len, count)
  {
    RunBackIsMaximal(bits, e);
    forall t: nat | t < e - len
      ensures !FreeRun(bits, t, count)
    {
      if t + count <= e {
        NoRunMeans(bits, count, e, t);
      } else {
        assert t <= e - len - 1 < t + count;
      }
    }
  }

  lemma TrackBit(bits: seq<bool>, count: nat, f: nat, start: nat, len: nat)
    requires ScannedTo(bits, count, f, start, len) && f < |bits|
    ensures bits[f] ==> ScannedTo(bits, count, f + 1, f + 1, 0)
    ensures !bits[f] && len + 1 < count ==> ScannedTo(bits, count, f + 1, if len == 0 then f else start, len + 1)
    ensures !bits[f] && len + 1 >= count ==> FirstRun(bits, if len == 0 then f else start, count)
  {
    if bits[f] {
      TrackSet(bits, count, f, len, f + 1);
    } else if len + 1 < count {
      TrackFree(bits, count, f, len, 1);
    } else {
      TrackHit(bits, count, f, len, 1);
    }
  }

  lemma TrackEnd(bits: seq<bool>, count: nat, e: nat, len: nat)
    requires Tracked(bits, count, e, len) && AllSet(bits, e, |bits|)
    ensures forall s: nat :: !FreeRun(bits, s, count)
  {
    if e < |bits| {
      TrackSet(bits, count, e, len, |bits|);
    }
    forall s: nat | s + count <= |bits|
      ensures !FreeRun(bits, s, count)
    {
      NoRunMeans(bits, count, |bits|, s);
    }
  }

  lemma MarkNext(bits: seq<bool>, s: nat, n: nat)
    requires FreeRun(bits, s, n + 1)
    ensures Marked(bits, s, n + 1) == Marked(bits, s, n)[s + n := true] && !Marked(bits, s, n)[s + n]
  {
    var a, b := Marked(bits, s, n + 1), Marked(bits, s, n)[s + n := true];
    assert forall i :: 0 <= i < |bits| ==> a[i] == b[i];
  }

  // ---------------------------------------------------------------------------
  // Physical memory regions
  // ---------------------------------------------------------------------------

  datatype PhysMemoryRegion = PhysMemoryRegion(start: nat, size: nat, usable: bool) {
    function End(): nat {
      start + size
    }

    /** The frames the constructor frees for this region. */
    predicate Covers(f: nat) {
      start / PAGE_SIZE <= f < start / PAGE_SIZE + size / PAGE_SIZE
    }
  }

  /** An accurate map: usable regions are disjoint, and no region runs past the address space. */
  ghost predicate Accurate(regions: seq<PhysMemoryRegion>) {
    && (forall i :: 0 <= i < |regions| ==> regions[i].End() < TWO_64)
    && (forall i, j :: 0 <= i < j < |regions| && regions[i].usable && regions[j].usable ==>
      regions[i].End() <= regions[j].start || regions[j].End() <= regions[i].start)
  }

  function MaxUsableEnd(regions: seq<PhysMemoryRegion>): (m: nat)
    ensures forall i :: 0 <= i < |regions| && regions[i].usable ==> regions[i].End() <= m
    ensures m > 0 ==> exists i :: 0 <= i < |regions| && regions[i].usable && regions[i].End() == m
  {
    if regions == [] then 0
    else
      var last := regions[|regions| - 1];
      var m := MaxUsableEnd(regions[..|regions| - 1]);
      if last.usable && last.End() > m then last.End() else m
  }

  /** The first usable region of at least `bytes` bytes. */
  function BitmapRegion(regions: seq<PhysMemoryRegion>, bytes: nat): (r: Option<nat>)
    ensures r == None <==> forall i :: 0 <= i < |regions| && regions[i].usable ==> regions[i].size < bytes
    ensures r.Some? ==> r.value < |regions| && regions[r.value].usable && regions[r.value].size >= bytes
    ensures r.Some? ==> forall i :: 0 <= i < r.value && regions[i].usable ==> regions[i].size < bytes
  {
    if regions == [] then None
    else if regions[0].usable && regions[0].size >= bytes then Some(0)
    else
      match BitmapRegion(regions[1..], bytes)
      case None => None
      case Some(i) => Some(i + 1)
  }

  ghost predicate InUsable(regions: seq<PhysMemoryRegion>, f: nat) {
    exists i :: 0 <= i < |regions| && regions[i].usable && regions[i].Covers(f)
  }

  function TotalFrames(regions: seq<PhysMemoryRegion>): nat {
    MaxUsableEnd(regions) / PAGE_SIZE
  }

  function BitmapWords(frames: nat): nat {
    (frames + BITS_PER_WORD - 1) / BITS_PER_WORD
  }

  /** Frames kept for the bitmap itself. */
  function BitmapFrames(frames: nat): nat {
    (BitmapWords(frames) * 8 + PAGE_SIZE - 1) / PAGE_SIZE
  }

  function BitmapAt(regions: seq<PhysMemoryRegion>): Option<nat> {
    BitmapRegion(regions, BitmapWords(TotalFrames(regions)) * 8)
  }

  /** The frames tracked are the whole frames below the end of usable memory; the bitmap has the fewest words with a
      bit for each, and the fewest frames that hold those words. */
  lemma BitmapIsLeast(regions: seq<PhysMemoryRegion>)
    ensures
      var frames := TotalFrames(regions);
      && frames * PAGE_SIZE <= MaxUsableEnd(regions) < (frames + 1) * PAGE_SIZE
      && BITS_PER_WORD * BitmapWords(frames) - BITS_PER_WORD < frames <= BITS_PER_WORD * BitmapWords(frames)
      && PAGE_SIZE * BitmapFrames(frames) - PAGE_SIZE < BitmapWords(frames) * 8 <= PAGE_SIZE * BitmapFrames(frames)
  {
  }

  /** The frames that may be handed out: whole frames of usable regions, less the bitmap's own. */
  ghost function Allocatable(regions: seq<PhysMemoryRegion>): (frames: set<nat>)
    requires BitmapAt(regions).Some?
  {
    var total := TotalFrames(regions);
    var first := regions[BitmapAt(regions).value].start / PAGE_SIZE;
    set f: nat | f < total && InUsable(regions, f) && !(first <= f < first + BitmapFrames(total))
  }

  lemma NoneBeyond(regions: seq<PhysMemoryRegion>, f: nat)
    requires Accurate(regions) && f >= TotalFrames(regions)
    ensures !InUsable(regions, f)
  {
    forall i | 0 <= i < |regions| && regions[i].usable
      ensures !regions[i].Covers(f)
    {
      FrameEnd(regions[i].start, regions[i].size);
    }
  }

  /** A usable region's frames are all tracked, and no two usable regions share one. */
  lemma CoversApart(regions: seq<PhysMemoryRegion>, i: nat, f: nat)
    requires Accurate(regions) && i < |regions| && regions[i].usable && regions[i].Covers(f)
    ensures f < TotalFrames(regions)
    ensures !InUsable(regions[..i], f)
  {
    var r := regions[i];
    assert r.End() <= MaxUsableEnd(regions);
    FrameEnd(r.start, r.size);
    forall j | 0 <= j < i && regions[j].usable
      ensures !regions[j].Covers(f)
    {
      FrameEnd(regions[j].start, regions[j].size);
    }
  }

  lemma FrameEnd(start: nat, size: nat)
    ensures start / PAGE_SIZE + size / PAGE_SIZE <= (start + size) / PAGE_SIZE
  {
  }

  lemma InUsableNext(regions: seq<PhysMemoryRegion>, k: nat, f: nat)
    requires k < |regions|
    ensures InUsable(regions[..k + 1], f) <==> InUsable(regions[..k], f) || (regions[k].usable && regions[k].Covers(f))
  {
    if InUsable(regions[..k], f) {
      var i :| 0 <= i < k && regions[..k][i].usable && regions[..k][i].Covers(f);
      assert regions[..k + 1][i].Covers(f);
    }
    assert regions[..k + 1][k] == regions[k];
    if InUsable(regions[..k + 1], f) {
      var i :| 0 <= i < k + 1 && regions[..k + 1][i].usable && regions[..k + 1][i].Covers(f);
      assert i < k ==> regions[..k][i].usable && regions[..k][i].Covers(f);
    }
  }

  /** Whole frames of usable memory: every byte of every covered frame lies in the region exactly when the
      region starts on a frame boundary, or has no frame at all. */
  lemma CoveredFramesAreUsable(r: PhysMemoryRegion)
    ensures (forall f: nat :: r.Covers(f) ==> r.start <= f * PAGE_SIZE && (f + 1) * PAGE_SIZE <= r.End())
            <==> r.start % PAGE_SIZE == 0 || r.size < PAGE_SIZE
  {
    var f := r.start / PAGE_SIZE;
    if r.size >= PAGE_SIZE {
      assert r.Covers(f);
    }
  }

  /** Every byte of the frame lies in one usable region. */
  ghost predicate WhollyUsable(regions: seq<PhysMemoryRegion>, f: nat) {
    exists i :: 0 <= i < |regions| && regions[i].usable && ContainsFrame(regions[i], f)
  }

  ghost predicate ContainsFrame(r: PhysMemoryRegion, f: nat) {
    forall a: nat :: InFrame(f, a) ==> r.start <= a < r.End()
  }

  ghost predicate InFrame(f: nat, a: nat) {
    f * PAGE_SIZE <= a < (f + 1) * PAGE_SIZE
  }

  /** Some byte of the frame holds part of a bitmap of `words` words at `at`. */
  ghost predicate HoldsBitmap(at: nat, words: nat, f: nat) {
    exists a: nat :: InFrame(f, a) && at <= a < at + words * 8
  }

  lemma CoversExactly(r: PhysMemoryRegion, f: nat)
    requires r.start % PAGE_SIZE == 0
    ensures r.Covers(f) <==> ContainsFrame(r, f)
  {
    assert InFrame(f, f * PAGE_SIZE) && InFrame(f, f * PAGE_SIZE + PAGE_SIZE - 1);
    if r.Covers(f) {
      CoveredFramesAreUsable(r);
    }
  }

  /** Where the bitmap starts on a frame boundary, exactly the frames with one of its bytes are kept for it. */
  lemma BitmapFramesHoldBitmap(at: nat, frames: nat, f: nat)
    requires at % PAGE_SIZE == 0
    ensures HoldsBitmap(at, BitmapWords(frames), f) <==>
            at / PAGE_SIZE <= f < at / PAGE_SIZE + BitmapFrames(frames)
  {
    var first, bytes := at / PAGE_SIZE, BitmapWords(frames) * 8;
    assert at == first * PAGE_SIZE;
    if first <= f < first + BitmapFrames(frames) {
      assert InFrame(f, f * PAGE_SIZE) && at <= f * PAGE_SIZE < at + bytes;
    }
  }

  /** With usable regions starting on frame boundaries, the frames that may be handed out are exactly those that
      lie wholly in usable memory and hold no byte of the bitmap. */
  lemma AllocatableIff(regions: seq<PhysMemoryRegion>, f: nat)
    requires Accurate(regions) && BitmapAt(regions).Some?
    requires forall i :: 0 <= i < |regions| && regions[i].usable ==> regions[i].start % PAGE_SIZE == 0
    ensures
      var at := regions[BitmapAt(regions).value].start;
      f in Allocatable(regions) <==>
        WhollyUsable(regions, f) && !HoldsBitmap(at, BitmapWords(TotalFrames(regions)), f)
  {
    var at := regions[BitmapAt(regions).value].start;
    BitmapFramesHoldBitmap(at, TotalFrames(regions), f);
    forall i | 0 <= i < |regions| && regions[i].usable
      ensures regions[i].Covers(f) <==> ContainsFrame(regions[i], f)
    {
      CoversExactly(regions[i], f);
    }
    if f >= TotalFrames(regions) {
      NoneBeyond(regions, f);
    }
  }

  // ---------------------------------------------------------------------------
  // The allocator
  // ---------------------------------------------------------------------------

  class BitmapAllocator {
    const bitmap: array<Word>
    const totalFrames: nat
    var freeCount: nat
    var searchHint: nat

    /** Frames this allocator may hand out, and those it has handed out. */
    ghost const usable: set<nat>
    ghost var owned: set<nat>

    ghost function Bits(): (bits: seq<bool>)
      reads bitmap
      ensures |bits| == BITS_PER_WORD * bitmap.Length
    {
      Flatten(bitmap[..])
    }

    ghost predicate Sized() {
      bitmap.Length == BitmapWords(totalFrames)
    }

    ghost predicate Valid()
      reads this, bitmap
    {
      && Sized()
      && freeCount == CountFree(Bits())
      && owned <= usable
      && (forall f: nat :: totalFrames <= f < |Bits()| ==> Bits()[f])
      && (forall f :: f in usable ==> f < totalFrames)
      && (forall f: nat :: f < |Bits()| ==> (!Bits()[f] <==> f in usable && f !in owned))
    }

    constructor (totalFrames: nat, ghost usable: set<nat>)
      ensures this.totalFrames == totalFrames && this.usable == usable && owned == {}
      ensures Sized() && fresh(bitmap) && freeCount == 0 && searchHint == 0
      ensures AllSet(Bits(), 0, |Bits()|)
    {
      this.totalFrames, this.usable, owned := totalFrames, usable, {};
      freeCount, searchHint := 0, 0;
      bitmap := new Word[BitmapWords(totalFrames)](_ => seq(BITS_PER_WORD, _ => true));
      new;
      FlattenFull(bitmap[..]);
    }

    method SetBit(f: nat, v: bool)
      requires f < BITS_PER_WORD * bitmap.Length
      modifies bitmap
      ensures Bits() == old(Bits())[f := v]
    {
      var w, b := f / BITS_PER_WORD, f % BITS_PER_WORD;
      FlattenUpdate(bitmap[..], w, b, v);
      bitmap[w] := bitmap[w][b := v];
      assert bitmap[..] == old(bitmap[..])[w := old(bitmap[w])[b := v]];
    }

    /** Takes one free frame into use. */
    method Take(f: nat)
      requires Valid() && f < |Bits()| && !Bits()[f]
      modifies this`owned, this`freeCount, bitmap
      ensures Valid() && Bits() == old(Bits())[f := true]
      ensures owned == old(owned) + {f} && freeCount == old(freeCount) - 1
    {
      CountUpdate(Bits(), f, true);
      SetBit(f, true);
      freeCount := freeCount - 1;
      owned := owned + {f};
    }

    /** Returns one owned frame. */
    method Give(f: nat)
      requires Valid() && f in owned
      modifies this`owned, this`freeCount, bitmap
      ensures Valid() && Bits() == old(Bits())[f := false]
      ensures owned == old(owned) - {f} && freeCount == old(freeCount) + 1
    {
      CountUpdate(Bits(), f, false);
      SetBit(f, false);
      freeCount := freeCount + 1;
      owned := owned - {f};
    }

    /** The word `(start + offset) % words` is the first, going round from `start`, with a clear bit. */
    ghost predicate ScanStops(start: nat, offset: nat, w: nat)
      reads bitmap
    {
      && 0 < bitmap.Length && offset < bitmap.Length && w == (start + offset) % bitmap.Length
      && (forall o: nat :: o < offset ==> FullAt(start, o))
    }

    ghost predicate FullAt(start: nat, o: nat)
      requires 0 < bitmap.Length
      reads bitmap
    {
      IsFull(bitmap[(start + o) % bitmap.Length])
    }

    method AllocateFrame() returns (r: Option<nat>)
      requires Valid()
      modifies this, bitmap
      ensures Valid()
      ensures r == None <==> forall f :: 0 <= f < |old(Bits())| ==> old(Bits())[f]
      ensures r == None ==> Bits() == old(Bits()) && owned == old(owned) && searchHint == old(searchHint)
      ensures r.Some? ==> r.value in usable && r.value !in old(owned) && owned == old(owned) + {r.value}
      ensures r.Some? ==> freeCount == old(freeCount) - 1
      ensures r.Some? ==> Bits() == old(Bits())[r.value := true] && searchHint == r.value / BITS_PER_WORD
      ensures r.Some? ==> exists offset :: old(ScanStops(searchHint, offset, r.value / BITS_PER_WORD))
      ensures r.Some? ==> LowestOfWord(old(Bits()), r.value)
    {
      CountZero(Bits());
      if freeCount == 0 {
        return None;
      }
      var w, b := ScanFree();
      var f := w * BITS_PER_WORD + b;
      WordStart(w, b);
      Take(f);
      searchHint := w;
      return Some(f);
    }

    /** The scan from the hint, going round: the first word that is not full and its lowest clear bit. */
    method ScanFree() returns (w: nat, b: nat)
      requires Valid() && freeCount > 0
      ensures b < BITS_PER_WORD && w < bitmap.Length && !Bits()[w * BITS_PER_WORD + b]
      ensures exists offset :: ScanStops(searchHint, offset, w)
      ensures LowestOfWord(Bits(), w * BITS_PER_WORD + b)
    {
      CountZero(Bits());
      var words := bitmap.Length;
      var offset := 0;
      while offset < words
        invariant 0 <= offset <= words && forall o: nat :: o < offset ==> FullAt(searchHint, o)
      {
        w := (searchHint + offset) % words;
        var word := bitmap[w];
        if IsFull(word) {
          offset := offset + 1;
          continue;
        }
        b := FirstClear(word);
        FlattenAt(bitmap[..], w, b);
        if w * BITS_PER_WORD + b >= totalFrames {
          assert false;  // padding bits are set, so the skip for frames past the end is never taken
        }
        assert ScanStops(searchHint, offset, w);
        FirstIsLowest(bitmap[..], w, b);
        return;
      }
      ScanIsComplete(searchHint);
      assert false;
    }

    /** A round that finds every word full has seen every frame. */
    lemma ScanIsComplete(start: nat)
      requires 0 < bitmap.Length && forall o: nat :: o < bitmap.Length ==> FullAt(start, o)
      ensures forall f :: 0 <= f < |Bits()| ==> Bits()[f]
    {
      var n := bitmap.Length;
      forall f | 0 <= f < |Bits()|
        ensures Bits()[f]
      {
        var w := f / BITS_PER_WORD;
        FlattenAt(bitmap[..], w, f % BITS_PER_WORD);
        var o := RoundReaches(start, n, w);
        assert FullAt(start, o);
      }
    }

    /** The word-skipping scan for `count` free frames in a row. */
    method FindRun(count: nat) returns (r: Option<nat>)
      requires Valid() && count > 0
      ensures r.Some? ==> FirstRun(Bits(), r.value, count)
      ensures r == None ==> forall s: nat :: !FreeRun(Bits(), s, count)
    {
      var runStart: nat, runLen: nat, frameIdx: nat := 0, 0, 0;
      ghost var k: nat := 0;
      while frameIdx < totalFrames
        invariant frameIdx == k * BITS_PER_WORD && Tracked(Bits(), count, Min(frameIdx, totalFrames), runLen)
        invariant runLen > 0 ==> runStart + runLen == Min(frameIdx, totalFrames)
        decreases totalFrames - frameIdx
      {
        var w := frameIdx / BITS_PER_WORD;
        var hit;
        hit, runStart, runLen := StepWord(count, w, frameIdx, runStart, runLen);
        if hit {
          return Some(runStart);
        }
        frameIdx := (w + 1) * BITS_PER_WORD;
        k := k + 1;
      }
      TrackEnd(Bits(), count, totalFrames, runLen);
      return None;
    }

    /** Advances the scan over word `w`: skips it when full, takes it whole when empty. */
    method StepWord(count: nat, w: nat, frameIdx: nat, start: nat, len: nat)
      returns (hit: bool, runStart: nat, runLen: nat)
      requires Sized() && frameIdx == w * BITS_PER_WORD && frameIdx < totalFrames
      requires AllSet(Bits(), totalFrames, |Bits()|)
      requires Tracked(Bits(), count, frameIdx, len) && (len > 0 ==> start + len == frameIdx)
      ensures hit ==> FirstRun(Bits(), runStart, count)
      ensures !hit ==> ScannedTo(Bits(), count, Min((w + 1) * BITS_PER_WORD, totalFrames), runStart, runLen)
    {
      var word := bitmap[w];
      WordBits(w);
      if IsFull(word) {
        TrackSet(Bits(), count, frameIdx, len, Min((w + 1) * BITS_PER_WORD, totalFrames));
        return false, (w + 1) * BITS_PER_WORD, 0;
      }
      if IsEmpty(word) {
        var extend := Min(BITS_PER_WORD, totalFrames - w * BITS_PER_WORD);
        runStart := if len == 0 then w * BITS_PER_WORD else start;
        runLen := len + extend;
        hit := runLen >= count;
        if hit {
          TrackHit(Bits(), count, frameIdx, len, extend);
        } else {
          TrackFree(Bits(), count, frameIdx, len, extend);
        }
        return;
      }
      hit, runStart, runLen := ScanWord(count, w, frameIdx % BITS_PER_WORD, start, len);
    }

    /** Scans a partly used word bit by bit. */
    method ScanWord(count: nat, w: nat, bitStart: nat, start: nat, len: nat)
      returns (hit: bool, runStart: nat, runLen: nat)
      requires Sized() && w * BITS_PER_WORD + bitStart < totalFrames && bitStart < BITS_PER_WORD
      requires ScannedTo(Bits(), count, w * BITS_PER_WORD + bitStart, start, len)
      ensures hit ==> FirstRun(Bits(), runStart, count)
      ensures !hit ==> ScannedTo(Bits(), count, Min((w + 1) * BITS_PER_WORD, totalFrames), runStart, runLen)
    {
      ghost var words, bits := bitmap[..], Bits();
      var word := bitmap[w];
      runStart, runLen := start, len;
      var bit: nat := bitStart;
      ghost var at: nat := w * BITS_PER_WORD + bit;
      while bit < BITS_PER_WORD
        invariant bitStart <= bit <= BITS_PER_WORD && at == w * BITS_PER_WORD + bit <= totalFrames
        invariant ScannedTo(bits, count, at, runStart, runLen)
      {
        var fi := w * BITS_PER_WORD + bit;
        if fi >= totalFrames {
          break;
        }
        FlattenAt(words, w, bit);
        TrackBit(bits, count, fi, runStart, runLen);
        if word[bit] {
          runLen, runStart := 0, fi + 1;
        } else {
          if runLen == 0 {
            runStart := fi;
          }
          runLen := runLen + 1;
          if runLen >= count {
            return true, runStart, runLen;
          }
        }
        bit := bit + 1;
        at := at + 1;
      }
      hit := false;
    }

    lemma WordBits(w: nat)
      requires w < bitmap.Length
      ensures IsFull(bitmap[w]) ==> AllSet(Bits(), BITS_PER_WORD * w, BITS_PER_WORD * w + BITS_PER_WORD)
      ensures IsEmpty(bitmap[w]) ==> FreeRun(Bits(), BITS_PER_WORD * w, BITS_PER_WORD)
    {
      forall f | BITS_PER_WORD * w <= f < BITS_PER_WORD * w + BITS_PER_WORD
        ensures Bits()[f] == bitmap[w][f - BITS_PER_WORD * w]
      {
        FlattenAt(bitmap[..], w, f - BITS_PER_WORD * w);
      }
    }

    method MarkRun(s: nat, count: nat)
      requires Valid() && FreeRun(Bits(), s, count)
      modifies this`owned, this`freeCount, bitmap
      ensures Valid() && Bits() == Marked(old(Bits()), s, count) && freeCount == old(freeCount) - count
      ensures forall f: nat :: f in owned <==> f in old(owned) || s <= f < s + count
    {
      ghost var bits := Bits();
      var i := 0;
      assert bits == Marked(bits, s, 0);
      while i < count
        invariant 0 <= i <= count && Valid() && Bits() == Marked(bits, s, i)
        invariant freeCount == old(freeCount) - i
        invariant forall f: nat :: f in owned <==> f in old(owned) || s <= f < s + i
      {
        MarkNext(bits, s, i);
        Take(s + i);
        i := i + 1;
      }
    }

    method AllocateFrames(count: nat) returns (r: Option<nat>)
      requires Valid()
      modifies this, bitmap
      ensures Valid()
      ensures count == 0 ==> r == None
      ensures count > 0 ==> (r == None <==> forall s: nat :: !FreeRun(old(Bits()), s, count))
      ensures r == None ==> Bits() == old(Bits()) && owned == old(owned) && searchHint == old(searchHint)
      ensures count == 1 && r.Some? ==> LowestOfWord(old(Bits()), r.value) && searchHint == r.value / BITS_PER_WORD
      ensures count == 1 && r.Some? ==> exists offset :: old(ScanStops(searchHint, offset, r.value / BITS_PER_WORD))
      ensures count >= 2 && r.Some? ==> FirstRun(old(Bits()), r.value, count)
      ensures count >= 2 && r.Some? ==> searchHint == (r.value + count) / BITS_PER_WORD
      ensures r.Some? ==> Bits() == Marked(old(Bits()), r.value, count) && freeCount == old(freeCount) - count
      ensures r.Some? ==> forall f: nat :: f in owned <==> f in old(owned) || r.value <= f < r.value + count
      ensures r.Some? ==> forall f: nat :: r.value <= f < r.value + count ==> f in usable && f !in old(owned)
    {
      if count == 0 {
        return None;
      }
      if count == 1 {
        r := AllocateFrame();
        OneFrame(old(Bits()));
        return;
      }
      if freeCount < count {
        forall s: nat | FreeRun(Bits(), s, count)
          ensures false
        {
          RunNeedsFree(Bits(), s, count);
        }
        return None;
      }
      r := FindRun(count);
      if r.Some? {
        MarkRun(r.value, count);
        searchHint := (r.value + count) / BITS_PER_WORD;
      }
    }

    method DeallocateFrame(f: nat) returns (r: Result<(), PmmError>)
      requires Valid() && (f < totalFrames ==> f in owned)
      modifies this, bitmap
      ensures Valid()
      ensures r == Err(InvalidFrame) <==> f >= totalFrames
      ensures r.Err? ==> Bits() == old(Bits()) && owned == old(owned) && searchHint == old(searchHint)
      ensures r.Ok? ==> Bits() == old(Bits())[f := false] && owned == old(owned) - {f}
      ensures r.Ok? ==> searchHint == Min(old(searchHint), f / BITS_PER_WORD)
    {
      if f >= totalFrames {
        return Err(InvalidFrame);
      }
      Give(f);
      var w := f / BITS_PER_WORD;
      if w < searchHint {
        searchHint := w;
      }
      return Ok(());
    }

    method DeallocateFrames(start: nat, count: nat) returns (r: Result<(), PmmError>)
      requires Valid() && start + count < TWO_64
      requires start + count <= totalFrames ==> forall f: nat :: start <= f < start + count ==> f in owned
      modifies this, bitmap
      ensures Valid()
      ensures r == Err(InvalidFrame) <==> start + count > totalFrames
      ensures r.Err? ==> Bits() == old(Bits()) && owned == old(owned) && searchHint == old(searchHint)
      ensures r.Ok? ==> old(Bits()) == Marked(Bits(), start, count) && FreeRun(Bits(), start, count)
      ensures r.Ok? ==> searchHint == Min(old(searchHint), start / BITS_PER_WORD)
      ensures r.Ok? ==> forall f: nat :: f in owned <==> f in old(owned) && !(start <= f < start + count)
    {
      if start + count > totalFrames {
        return Err(InvalidFrame);
      }
      ghost var bits := Bits();
      var i := 0;
      while i < count
        invariant 0 <= i <= count && Valid() && searchHint == old(searchHint)
        invariant forall f: nat :: f in owned <==> f in old(owned) && !(start <= f < start + i)
        invariant forall f: nat :: f < |bits| ==> Bits()[f] == (bits[f] && !(start <= f < start + i))
      {
        Give(start + i);
        i := i + 1;
      }
      assert forall f: nat :: f < |bits| ==> bits[f] == Marked(Bits(), start, count)[f];
      if start / BITS_PER_WORD < searchHint {
        searchHint := start / BITS_PER_WORD;
      }
      return Ok(());
    }

    /** Clears the bits of one usable region; `k` is its place in the map. */
    method FreeRegion(regions: seq<PhysMemoryRegion>, k: nat)
      requires Accurate(regions) && k < |regions| && regions[k].usable
      requires Sized() && totalFrames == TotalFrames(regions) && Freed(regions[..k])
      modifies this`freeCount, bitmap
      ensures Freed(regions[..k + 1])
    {
      var first, n := regions[k].start / PAGE_SIZE, regions[k].size / PAGE_SIZE;
      var i := 0;
      while i < n
        invariant 0 <= i <= n && freeCount == CountFree(Bits())
        invariant forall f: nat :: f < |Bits()| ==>
                    (!Bits()[f] <==> InUsable(regions[..k], f) || first <= f < first + i)
      {
        var f := first + i;
        CoversApart(regions, k, f);
        if f < totalFrames {
          CountUpdate(Bits(), f, false);
          SetBit(f, false);
          freeCount := freeCount + 1;
        }
        i := i + 1;
      }
      forall f: nat | f < |Bits()|
        ensures !Bits()[f] <==> InUsable(regions[..k + 1], f)
      {
        InUsableNext(regions, k, f);
      }
    }

    lemma SkipRegion(regions: seq<PhysMemoryRegion>, k: nat)
      requires k < |regions| && !regions[k].usable && Freed(regions[..k])
      ensures Freed(regions[..k + 1])
    {
      forall f: nat | f < |Bits()|
        ensures InUsable(regions[..k + 1], f) <==> InUsable(regions[..k], f)
      {
        InUsableNext(regions, k, f);
      }
    }

    /** Clears the bits of every usable region. */
    method FreeUsable(regions: seq<PhysMemoryRegion>)
      requires Accurate(regions) && Sized() && totalFrames == TotalFrames(regions)
      requires freeCount == 0 && AllSet(Bits(), 0, |Bits()|)
      modifies this`freeCount, bitmap
      ensures Freed(regions)
    {
      var k := 0;
      CountZero(Bits());
      ghost var none: seq<PhysMemoryRegion> := [];
      assert regions[..0] == none;
      while k < |regions|
        invariant 0 <= k <= |regions| && Freed(regions[..k])
      {
        if regions[k].usable {
          FreeRegion(regions, k);
        } else {
          SkipRegion(regions, k);
        }
        k := k + 1;
      }
      assert regions[..k] == regions;
    }

    /** The clear bits are the frames of these regions. */
    ghost predicate Freed(regions: seq<PhysMemoryRegion>)
      reads this, bitmap
    {
      && freeCount == CountFree(Bits())
      && forall f: nat :: f < |Bits()| ==> (!Bits()[f] <==> InUsable(regions, f))
    }

    /** Sets the bits of the bitmap's own frames again. */
    method ReserveBitmap(first: nat, n: nat)
      requires Sized() && freeCount == CountFree(Bits())
      modifies this`freeCount, bitmap
      ensures freeCount == CountFree(Bits())
      ensures forall f: nat :: f < |Bits()| ==>
                (!Bits()[f] <==> !old(Bits())[f] && !(f < totalFrames && first <= f < first + n))
    {
      ghost var bits := Bits();
      var i := 0;
      while i < n
        invariant 0 <= i <= n && freeCount == CountFree(Bits())
        invariant forall f: nat :: f < |bits| ==>
                    (!Bits()[f] <==> !bits[f] && !(f < totalFrames && first <= f < first + i))
      {
        var f := first + i;
        if f < totalFrames {
          FlattenAt(bitmap[..], f / BITS_PER_WORD, f % BITS_PER_WORD);
          if !bitmap[f / BITS_PER_WORD][f % BITS_PER_WORD] {
            CountUpdate(Bits(), f, true);
            SetBit(f, true);
            freeCount := freeCount - 1;
          }
        }
        i := i + 1;
      }
    }

    /** The last step of the constructor: the allocator is ready. */
    method ReserveOwn(regions: seq<PhysMemoryRegion>)
      requires Accurate(regions) && BitmapAt(regions).Some? && owned == {} && usable == Allocatable(regions)
      requires Sized() && totalFrames == TotalFrames(regions) && Freed(regions)
      modifies this`freeCount, bitmap
      ensures Valid()
    {
      forall f: nat | f >= totalFrames
        ensures !InUsable(regions, f)
      {
        NoneBeyond(regions, f);
      }
      ReserveBitmap(regions[BitmapAt(regions).value].start / PAGE_SIZE, BitmapFrames(totalFrames));
    }

    /** `BitmapAllocator::new`. */
    static method New(regions: seq<PhysMemoryRegion>) returns (r: Result<BitmapAllocator, PmmError>)
      requires Accurate(regions)
      ensures r == Err(OutOfMemory) <==> MaxUsableEnd(regions) == 0
      ensures r == Err(NoBitmapRegion) <==> MaxUsableEnd(regions) > 0 && BitmapAt(regions) == None
      ensures r.Err? ==> r.error == OutOfMemory || r.error == NoBitmapRegion
      ensures r.Ok? ==> fresh(r.value) && r.value.Valid() && r.value.owned == {} && r.value.searchHint == 0
      ensures r.Ok? ==> r.value.totalFrames == TotalFrames(regions) && r.value.usable == Allocatable(regions)
    {
      if MaxUsableEnd(regions) == 0 {
        return Err(OutOfMemory);
      }
      var at := BitmapAt(regions);
      if at == None {
        return Err(NoBitmapRegion);
      }
      var total := TotalFrames(regions);
      var a := new BitmapAllocator(total, Allocatable(regions));
      a.FreeUsable(regions);
      a.ReserveOwn(regions);
      return Ok(a);
    }
  }

  lemma RoundReaches(start: nat, n: nat, w: nat) returns (o: nat)
    requires w < n
    ensures o < n && (start + o) % n == w
  {
    var q, m := start / n, start % n;
    assert start == n * q + m;
    if m <= w {
      o := w - m;
      ModIs(start + o, n, q, w);
    } else {
      o := w + n - m;
      assert start + o == n * q + n + w == n * (q + 1) + w;
      ModIs(start + o, n, q + 1, w);
    }
  }

  lemma ModIs(x: int, n: int, q: int, m: int)
    requires 0 <= m < n && x == n * q + m
    ensures x % n == m
  {
    var d: int := q - x / n;
    assert n * d == n * q - n * (x / n) == x % n - m;
    assert d >= 1 ==> n * d >= n;
    assert d <= -1 ==> n * d <= -n;
  }

  /** Taking one frame is taking a run of one. */
  lemma OneFrame(bits: seq<bool>)
    ensures (forall s: nat :: !FreeRun(bits, s, 1)) <==> forall f :: 0 <= f < |bits| ==> bits[f]
    ensures forall s: nat :: s < |bits| ==> bits[s := true] == Marked(bits, s, 1)
  {
    forall f: nat | f < |bits| && !bits[f]
      ensures FreeRun(bits, f, 1)
    {
    }
    if (forall f :: 0 <= f < |bits| ==> bits[f]) {
      forall s: nat
        ensures !FreeRun(bits, s, 1)
      {
        assert s < |bits| ==> bits[s];
      }
    }
    forall s: nat | s < |bits|
      ensures bits[s := true] == Marked(bits, s, 1)
    {
      var a, b := bits[s := true], Marked(bits, s, 1);
      assert forall i :: 0 <= i < |bits| ==> a[i] == b[i];
    }
  }
}
