# Hadron kernel: a Dafny model

Hadron is an x86_64 kernel. This project models the parts of it whose correctness is a matter of reasoning rather
than of hardware, and proves what those parts promise.

- **Scheduler** (`ReadyQueues`, `Waker`, `Executor`, `ExecutorProofs`, `ExecutorTheorems`, `ExecutorProgress`,
  `Timer`). Every CPU has a task map and three ready queues under two separate locks. The executor is a step relation
  over all CPUs: one step is one locked section, so a task can be popped but not yet taken, polled, pending but not yet
  put back, stolen but not yet inserted, or spawned but not yet queued, while other CPUs and stale wakers go on. Besides
  what no run can do, it is proved what every run can go on to do: no CPU gets stuck, idle CPUs can steal, and every woken
  task can be polled and can finish. The sleep queue is a class.
- **Memory** (`Layout`, `Region`, `Vmm`, `Heap`, `Pmm`). Three allocators as classes, each with a ghost set or map of
  live allocations: a sorted coalescing range list with a retracting watermark, an address-ordered free list threaded
  through the memory it manages, and a bitmap with a search hint. The virtual memory manager sits on the first.
- **Pipe** (`CircularBuffer`, `Pipe`). The ring buffer is a class over an array; the pipe is a step relation over any
  number of reading and writing tasks, with the check for readers and the copy as separate steps.
- **Network** (`Checksums`, `Buffers`, `Ethernet`, `Ipv4`, `Icmp`). The Internet checksum (section 1 of RFC 1071), the
  IPv4 header (section 3.1 of RFC 791) and the echo reply ("Echo or Echo Reply Message" of RFC 792), written in place
  into arrays and read back.
- **Terminal** (`Keys`, `LineDiscipline`, `KeyHistory`, `LineHistory`). Two input paths, one for scancodes and one for
  bytes, with what they type and deliver over whole sessions told from the input alone, in every succession of modes.
- **Files** (`Path`, `Vfs`, `VfsTheorems`, `VfsTrails`). Mount lookup and symbolic links on an arbitrary, possibly
  cyclic, graph, with the right answer for a path given by trails of inodes instead of by a walk.

`dafny verify dfyconfig.toml` checks the whole project.

Conventions. Integers are unbounded; a 64-bit or 32-bit sum that can wrap is written out with `%`, and where the code
is right only as long as a sum does not wrap, the contract says so with a condition a caller can check. Strings are
sequences of characters. A word of the frame bitmap is 64 booleans. Locked sections are atomic steps.

Where the code does less than its comments or documentation say, the code is followed, and the exact condition under
which the promise holds is proved:

- The waker packs the CPU number into bits 61 to 56. A CPU numbered 64 or above loses wakes; no wake is lost exactly
  when every CPU number is below 64 (`NoWakeLostIffSixBits`, with the run in `LostWake`).
- A Background task waits at most 101 pops for each place in its queue, as long as none of them is Critical. Critical
  pops reset the streak: over all runs, a mix of pops can starve Background exactly when no 101 of them in a row are
  without a Critical one (`StarvesIffShortGaps`, and `RoundsStarveIff` for evenly spaced Critical pops).
- A writer checks for readers and copies in two steps, and dropping the reader takes no lock. Bytes can therefore enter
  a pipe after its last reader is gone, exactly when a writer had passed the check (`NothingEntersIffNoLateWriter`,
  with the run in `LateByte`).
- The IPv4 total length is cut to 16 bits. A reply frame arrives whole exactly when the request has at most 65515 bytes
  (`ReplyArrivesIff`).
- Resolution can return a symbolic link when one is mounted as a root, and only then (`NeverALinkIff`). Above the last
  level a link can be followed, with some mounts, exactly when its target is absolute (`LinkCanBeFollowedIff`).
- Bytes sent to a full terminal buffer are dropped; reads are what the input sends exactly when that never happens
  (`ReadsAreDeliveredIff`), and in every session they are the pieces it sends, each cut where it found the buffer full
  (`ReadsAreCutPieces`).
- The range allocators add in 64 bits without a check. They stay valid and give what they are asked for exactly when
  those sums do not wrap (`Region.FreeRegionAllocator.Allocate`, with two wrapping requests in `WrappingRequests`).
- A frame counted as usable lies wholly in a usable region exactly when the region starts on a frame boundary or is
  smaller than a frame (`CoveredFramesAreUsable`).

## Model

| member | source | states |
|---|---|---|
| ReadyQueues.ReadyQueueSet.constructor | kernel/core/src/sched.rs:28-34 | three empty queues and a zero streak |
| ReadyQueues.ReadyQueueSet.Push | kernel/core/src/sched.rs:36-43 | the id joins the back of its tier; every other tier and the streak stay as they were |
| ReadyQueues.ReadyQueueSet.Pop | kernel/core/src/sched.rs:46-80 | the front of one tier leaves, which tier, and what becomes of the streak; fails exactly when all tiers are empty |
| ReadyQueues.ReadyQueueSet.HasReady | kernel/core/src/sched.rs:83-87 | true exactly when some tier holds an id |
| ReadyQueues.ReadyQueueSet.StealOne | kernel/core/src/sched.rs:97-117 | the back of Normal or else Background leaves exactly when two stealable ids wait; nothing else changes |
| ReadyQueues.QueuesAreFifo | kernel/core/src/sched.rs:36-80 | a push adds at the back of its own tier only, a pop takes the front of one tier only, and a pop fails exactly when all tiers are empty |
| ReadyQueues.PopOrder | kernel/core/src/sched.rs:46-80 | Critical first; Background exactly when nothing is Critical and Normal is empty or used up its streak |
| ReadyQueues.StealTakesBack | kernel/core/src/sched.rs:97-117 | a steal succeeds exactly when two stealable ids wait, takes the newest Normal or else Background id, never Critical, and leaves one behind |
| ReadyQueues.StealPutBack | kernel/sched/src/executor.rs:109-127 | pushing a stolen id back restores the queues exactly |
| ReadyQueues.StreakBounded | kernel/core/src/sched.rs:46-80 | over every sequence of pushes and pops the Normal streak stays at most 100 |
| ReadyQueues.BackgroundWaitBound | kernel/core/src/sched.rs:46-80 | with any pushes in between, the Background id at position p is returned within 101 (p + 1) pops if none of those is Critical, after exactly the p Background ids before it |
| ReadyQueues.LongGapServes | kernel/core/src/sched.rs:46-80 | in any run, 101 pops in a row without a Critical one serve Background if it waits |
| ReadyQueues.StarvesIffShortGaps | kernel/core/src/sched.rs:46-80 | over all runs, a mix of Critical and other pops can starve a waiting Background id exactly when no 101 pops in a row are without a Critical one |
| ReadyQueues.RoundsStarveIff | kernel/core/src/sched.rs:46-80 | with g other pops before every Critical one, Background can be starved for any length of time exactly when g is at most 100 |
| Waker.PackFields | kernel/sched/src/waker.rs:57-61 | the packed word is the id's low 56 bits below the priority or-ed over the CPU number's low 8 bits |
| Waker.UnpackFields | kernel/sched/src/waker.rs:57-69 | which id, priority and CPU unpacking reads back from any packed word |
| Waker.UnpackInvertsPack | kernel/sched/src/waker.rs:57-69 | unpacking inverts packing exactly for ids below 2^56 and CPU numbers below 64 |
| ExecutorProofs.StepKeeps | kernel/sched/src/executor.rs:109-255 | every step of every CPU keeps single ownership, id freshness, the sleep alert and, with CPU numbers below 64, tier tags and progress of woken tasks |
| ExecutorTheorems.RunKeeps | kernel/sched/src/executor.rs:109-255 | those invariants hold at the end of every run from boot |
| ExecutorTheorems.NoWakeIsLost | kernel/sched/src/executor.rs:109-255 | in every reachable state each unfinished task that is freshly spawned, or woken through its latest waker since its last poll began, is on its way to a poll |
| ExecutorTheorems.LostWake | kernel/sched/src/waker.rs:57-101 | on a CPU numbered 64 or above there is a run that loses a wake |
| ExecutorTheorems.NoWakeLostIffSixBits | kernel/sched/src/waker.rs:7-10 | no run loses a wake exactly when every CPU number is below 64 |
| ExecutorTheorems.SingleOwnership | kernel/sched/src/executor.rs:109-154 | in every reachable state the entry of each unfinished task is in exactly one map or hand, and finished tasks are in none |
| ExecutorTheorems.PollsAreExclusive | kernel/sched/src/executor.rs:214-244 | no two CPUs poll the same task, and a task being polled was never finished before |
| ExecutorTheorems.SpawnIdsAreFresh | kernel/sched/src/executor.rs:135-154 | a spawn uses an id no earlier spawn used |
| ExecutorTheorems.DoneStaysDone | kernel/sched/src/executor.rs:234-244 | a finished task stays finished to the end of every run |
| ExecutorTheorems.NoCpuSleepsOnWork | kernel/sched/src/executor.rs:161-203 | a CPU past its ready check or halted with a non-empty queue has an interrupt pending, or another CPU is between its push and its IPI; that an idle CPU tries to steal first is `IdleCpuSteals` |
| ExecutorTheorems.TiersAreRespected | kernel/sched/src/executor.rs:214-244 | Critical tasks never leave their CPU and every poll runs at the spawn priority |
| ExecutorProgress.IdleCpuSteals | kernel/sched/src/executor.rs:161-203 | from every reachable state, a CPU in its poll loop with empty queues can go on by its own steps until the newest stealable task of any CPU with two is in its own map and queue, and back in its poll loop |
| ExecutorProgress.WokenTaskCanRun | kernel/sched/src/executor.rs:109-255 | from every reachable state, every unfinished task that is freshly spawned or woken can be polled next on the CPU it is on its way to, by that CPU's own steps, at most four for each id in its queue and twelve more |
| ExecutorProgress.WokenTaskCanFinish | kernel/sched/src/executor.rs:234-244 | and that poll can be its last |
| ExecutorProgress.CodeCanSpawn | kernel/sched/src/executor.rs:135-154 | a polled future, an interrupt handler or boot code can spawn at any priority: the entry goes to its CPU's map, the id to the back of its tier |
| ExecutorProgress.CodeCanWake | kernel/sched/src/waker.rs:83-101 | and can fire any waker ever handed out: the id goes to the back of its tier on the CPU the waker names, with an interrupt if that is another CPU |
| Timer.SleepQueue.constructor | kernel/sched/src/timer.rs:40-41 | an empty sleep queue |
| Timer.SleepQueue.RegisterSleepWaker | kernel/sched/src/timer.rs:44-48 | adds exactly one entry |
| Timer.SleepQueue.DrainBatch | kernel/sched/src/timer.rs:60-81 | takes out expired entries only, earliest first, at most 32, fewer only when none is left, and lists them by deadline |
| Timer.SleepQueue.WakeExpired | kernel/sched/src/timer.rs:60-81 | wakes exactly the drained batch, from its latest deadline to its earliest |
| Timer.NoSleeperLost | kernel/sched/src/timer.rs:44-81 | over every run, registered entries are the woken ones plus those still queued, with multiplicity |
| Timer.NoSleeperEarly | kernel/sched/src/timer.rs:60-81 | no entry is woken before its deadline |
| Timer.TickDrainsDue | kernel/sched/src/timer.rs:60-81 | one call takes min(32, e) of the e entries due at t, whatever else is queued |
| Timer.DueWokenInTime | kernel/sched/src/timer.rs:44-81 | all entries due at t are woken once 32 times the number of calls reaches their number, while later sleepers keep registering |
| Layout.TruncateKeepsCanonical | kernel/core/src/addr.rs:93-96 | sign extension leaves an address unchanged exactly when it is canonical |
| Layout.RegionsApart | kernel/mm/src/layout.rs:149-165 | heap, stacks and MMIO regions are canonical and pairwise disjoint for every base with room for them |
| Layout.AllRegionsApart | kernel/mm/src/layout.rs:11-165 | for every base with room below the kernel image, all six regions are canonical and follow each other without overlap |
| Region.PageAlignUpIsLeastMultiple | kernel/mm/src/region.rs:16-18 | rounding up gives the least page multiple exactly when the sum fits 64 bits, and zero otherwise |
| Region.BumpCheckExact | kernel/mm/src/region.rs:136-169 | the wrapping bump check equals the real comparison exactly when the sum fits 64 bits |
| Region.WrappingRequests | kernel/mm/src/region.rs:136-169 | a request that rounds up to nothing and one that bumps the default base round to zero |
| Region.FreeRegionAllocator.constructor | kernel/mm/src/region.rs:123-131 | an empty list, the watermark at the base, nothing live |
| Region.FreeRegionAllocator.Allocate | kernel/mm/src/region.rs:136-169 | stays valid and gives a live range of at least the requested size exactly when its 64-bit sums do not wrap; then the front of the lowest free range that is big enough, or else the old watermark, disjoint from all live ranges, failing exactly when neither has room |
| Region.FreeRegionAllocator.InsertionIndex | kernel/mm/src/region.rs:293-299 | splits the sorted list at the address |
| Region.FreeRegionAllocator.RetractWatermark | kernel/mm/src/region.rs:302-311 | absorbs every free range that reaches the watermark, keeping the available addresses |
| Region.FreeRegionAllocator.Deallocate | kernel/mm/src/region.rs:185-270 | frees exactly the range, or reports a full list with the state unchanged and at least `capacity + 1` other ranges live; exactly when that is |
| Region.LiveAndFreeTile | kernel/mm/src/region.rs:136-270 | `[base, watermark)` is the disjoint union of live and free ranges |
| Region.FullReclamation | kernel/mm/src/region.rs:185-311 | with nothing live, the free list is empty and the watermark is back at the base |
| Region.FragmentationBound | kernel/mm/src/region.rs:185-270 | beside a live range that touches neither the watermark nor a free range there are more other live ranges than free ranges, because each free range is followed immediately by a live one of its own |
| Region.CoalesceEffect | kernel/mm/src/region.rs:230-265 | merging a range with the neighbours it touches keeps the list sorted with gaps and frees exactly that range |
| Region.RegionAllocator.constructor | kernel/mm/src/region.rs:36-43 | starts at the base |
| Region.RegionAllocator.Allocate | kernel/mm/src/region.rs:46-58 | stays valid and gives the requested size exactly when its 64-bit sums do not wrap; then bumps by whole pages inside the region, or fails unchanged |
| Vmm.Vmm.constructor | kernel/mm/src/vmm.rs:136-146 | a manager with the three regions of the given base, each allocator at its start, and nothing mapped |
| Vmm.Vmm.GrowHeap | kernel/mm/src/vmm.rs:176-216 | maps the new heap pages to the given frames in order and nothing else, as far as the frames reach; which error when; pages it maps were unmapped |
| Vmm.Vmm.AllocKernelStack | kernel/mm/src/vmm.rs:223-269 | fails for want of addresses exactly when no free slot is left and the region above the watermark is too short; else takes the lowest free slot or the watermark, a multiple of 17 pages whose guard page was never mapped, its upper pages mapped to the frames as far as they reach and nothing else; a slot left behind by missing frames stays live; pages it maps were unmapped |
| Vmm.Vmm.MapMmio | kernel/mm/src/vmm.rs:292-340 | fails exactly when no free range and no room above the watermark holds the pages; else the lowest free range that does or the watermark, mapped page by page to consecutive physical pages and nothing else; pages it maps were unmapped |
| Vmm.Vmm.UnmapPage | kernel/mm/src/vmm.rs:366-379 | removes one mapping and returns its frame; the errors for an unmapped and for a larger page |
| Vmm.Vmm.DeallocStackRegion | kernel/mm/src/vmm.rs:391-396 | gives a live stack slot back, or fails with the slot still live, exactly when the free list is full and the slot touches neither it nor the watermark |
| Vmm.Vmm.DeallocMmioRegion | kernel/mm/src/vmm.rs:399-403 | gives a live MMIO range back, or fails with the range still live, exactly when the free list is full and the range touches neither it nor the watermark |
| Vmm.MappingIsFresh | kernel/mm/src/vmm.rs:205-207 | while every mapped page has its heap part, stack slot or MMIO range behind it, a call maps unmapped pages only and keeps it so |
| Vmm.Vmm.GuardPagesNeverMapped | kernel/mm/src/vmm.rs:176-340 | after any run of calls no guard page of any stack slot has ever been mapped |
| Vmm.Vmm.LiveStacksAreSlots | kernel/mm/src/vmm.rs:223-269 | after any run of calls every live stack range starts at a slot boundary whose page was never mapped |
| Vmm.GuardsAreOffLimits | kernel/mm/src/layout.rs:11-36 | a slot's guard page is in none of the places the calls may map |
| Heap.LinkedListAllocator.constructor | kernel/mm/src/heap.rs:251-266 | one free block covering the region |
| Heap.LinkedListAllocator.InsertAndCoalesce | kernel/mm/src/heap.rs:295-355 | the linked list gains exactly the block, merged with what it touches; every byte written is free |
| Heap.LinkedListAllocator.AddFreeRegion | kernel/mm/src/heap.rs:279-292 | the region becomes free; the list stays linked in address order; every byte written is free |
| Heap.LinkedListAllocator.FindFirstFit | kernel/mm/src/heap.rs:359-421 | hands out an aligned range of the first block that can hold it; of the rest of the block exactly the front, if 32 bytes, and the part from the next 16-byte boundary on, if 32 bytes, stay free; writes only bytes that were free; fails exactly when no block can hold it, changing nothing |
| Heap.LinkedListAllocator.AllocLocked | kernel/mm/src/heap.rs:438-452 | a new live allocation, first fit, disjoint from all others, no word touching a live byte written; fails exactly when no block can hold it |
| Heap.LinkedListAllocator.GrowLocked | kernel/mm/src/heap.rs:461-465 | a grown region becomes free; no word touching a live byte written |
| Heap.LinkedListAllocator.Alloc | kernel/mm/src/heap.rs:425-452 | the first locked section with padded size and alignment: serves the request, first fit, exactly when a block can hold it, live memory untouched |
| Heap.LinkedListAllocator.AllocGrown | kernel/mm/src/heap.rs:457-482 | the second locked section, from any valid state other CPUs left: first fit on the list joined with the grown region, failing exactly when no block of it can hold the request; a big enough aligned growth always serves it, live memory untouched |
| Heap.LinkedListAllocator.Dealloc | kernel/mm/src/heap.rs:485-510 | frees exactly that allocation; accounting kept, no word touching another live byte written |
| Heap.AlignUpFacts | kernel/mm/src/heap.rs:514-516 | the least multiple at or above the address |
| Pmm.BitmapAllocator.New | kernel/mm/src/pmm.rs:78-160 | which error, or an allocator whose free frames are the usable ones less the bitmap's own, with an exact count, set padding and the search starting at the first word |
| Pmm.BitmapAllocator.AllocateFrame | kernel/mm/src/pmm.rs:163-210 | fails exactly when no frame is free, whatever the hint; else takes the lowest free frame of the first non-full word from the hint on |
| Pmm.BitmapAllocator.FindRun | kernel/mm/src/pmm.rs:225-287 | the word-skipping scan finds the lowest-starting run, or there is none |
| Pmm.BitmapAllocator.AllocateFrames | kernel/mm/src/pmm.rs:213-313 | takes exactly the lowest-starting run; fails exactly when no run exists |
| Pmm.BitmapAllocator.DeallocateFrame | kernel/mm/src/pmm.rs:321-350 | frees exactly that frame and lowers the hint; rejects exactly frames out of range |
| Pmm.BitmapAllocator.DeallocateFrames | kernel/mm/src/pmm.rs:358-393 | frees exactly that run and lowers the hint; rejects exactly runs out of range |
| Pmm.FirstClear | kernel/mm/src/pmm.rs:181-182 | the lowest clear bit of a word that is not full |
| Pmm.BitmapRegion | kernel/mm/src/pmm.rs:101-107 | the first usable region with room for the bitmap, or none has room |
| Pmm.MaxUsableEnd | kernel/mm/src/pmm.rs:85-90 | the greatest end of a usable region |
| Pmm.RunNeedsFree | kernel/mm/src/pmm.rs:221-223 | a free run needs as many free frames, so the early exit loses nothing |
| Pmm.CoveredFramesAreUsable | kernel/mm/src/pmm.rs:123-136 | freed frames lie wholly in their region exactly when it starts on a frame boundary or has no frame |
| Pmm.AllocatableIff | kernel/mm/src/pmm.rs:118-151 | with aligned regions, a frame may be handed out exactly when it lies wholly in usable memory and holds no byte of the bitmap |
| Pmm.BitmapIsLeast | kernel/mm/src/pmm.rs:85-99 | the bitmap tracks the whole frames below the end of usable memory in the fewest words and frames |
| CircularBuffer.CircularBuffer.constructor | kernel/ipc/src/circular_buffer.rs:21-28 | an empty buffer of the given capacity, zero included |
| CircularBuffer.CircularBuffer.Read | kernel/ipc/src/circular_buffer.rs:52-66 | takes the front of the FIFO, across the wrap, and touches nothing past it in the caller's buffer |
| CircularBuffer.CircularBuffer.Write | kernel/ipc/src/circular_buffer.rs:70-85 | appends as much as fits to the FIFO, across the wrap |
| Pipe.ReadLocked | kernel/ipc/src/pipe.rs:108-116 | the reader's locked section on the real buffer is a step of the pipe |
| Pipe.WriteLocked | kernel/ipc/src/pipe.rs:232-239 | the writer's section after the reader check is a step of the pipe |
| Pipe.PipeIsOneStream | kernel/ipc/src/pipe.rs:88-124 | in every state of every run, bytes read then buffered are the bytes written |
| Pipe.EmptyReadIsEndOfStream | kernel/ipc/src/pipe.rs:117-120 | a read that wants bytes and gets none means no writers, nothing buffered and everything read, from then on |
| Pipe.NothingEntersIffNoLateWriter | kernel/ipc/src/pipe.rs:59-65 | after the last reader is gone no byte ever enters exactly when no admitted writer still holds the lock with bytes and room |
| Pipe.AtMostOneLateWrite | kernel/ipc/src/pipe.rs:206-242 | without readers no write is admitted, and after one late write the pipe is shut |
| Pipe.BrokenPipeIsForever | kernel/ipc/src/pipe.rs:226-231 | at every write that fails with a broken pipe the readers are gone, then and ever after, and no write is admitted from then on |
| Pipe.LockIsReleased | kernel/ipc/src/pipe.rs:108-122 | in every reachable state whoever holds the buffer lock has a step that releases it, taking nothing from a waiting reader |
| Pipe.ReadCanReturn | kernel/ipc/src/pipe.rs:88-124 | a read in progress can return whenever there are bytes, with as many as it wants and there are, or no writers, empty-handed |
| Pipe.WriteCanReturn | kernel/ipc/src/pipe.rs:206-242 | a write in progress that finds the lock free can return whenever the readers are gone, refused, or there is room, having copied what fits |
| Pipe.HandlesCanBeDropped | kernel/ipc/src/pipe.rs:59-73 | a handle that no call borrows can be dropped, whoever holds the lock |
| Pipe.LateByte | kernel/ipc/src/pipe.rs:226-238 | a run in which a byte enters after the last reader is gone |
| Checksums.InternetChecksum | kernel/net/src/checksum.rs:8-29 | both loops end; the result is the complement of the one's complement residue of the 32-bit sum |
| Checksums.SumFitsIff | kernel/net/src/checksum.rs:9-21 | no buffer of a length overflows the sum exactly when the length is at most 131074 |
| Checksums.StoredChecksumVerifies | kernel/net/src/checksum.rs:8-29 | stored in a zeroed even-offset field, the checksum makes the recomputed one zero, at every length |
| Checksums.ResidueCongruent | kernel/net/src/checksum.rs:23-26 | the residue is congruent to the sum modulo 65535 |
| Ethernet.Write | kernel/net/src/ethernet.rs:53-63 | fills in exactly the header, or fails unchanged on a short buffer |
| Ethernet.ParseBytes | kernel/net/src/ethernet.rs:30-47 | a written header parses back with the rest as payload |
| Ethernet.ParseIff | kernel/net/src/ethernet.rs:30-47 | a frame parses exactly when it has 14 bytes, to the destination in bytes 0 to 5, the source in bytes 6 to 11, the type in bytes 12 and 13 and the rest as payload |
| Ipv4.Write | kernel/net/src/ipv4.rs:68-109 | fills in exactly the header with its checksum, or fails unchanged on a short buffer |
| Ipv4.HeaderVerifies | kernel/net/src/ipv4.rs:104-106 | every written header has checksum zero |
| Ipv4.WrittenFields | kernel/net/src/ipv4.rs:80-102 | every byte of the header but the checksum: version and length, service type, total length, identification, flags, time to live, protocol and both addresses, each at its place |
| Ipv4.ParseIff | kernel/net/src/ipv4.rs:28-61 | a packet parses exactly when it starts with 0x45 and a byte follows the header in the buffer and by the total length; which bytes become the fields and the payload |
| Ipv4.PacketParsesIff | kernel/net/src/ipv4.rs:28-61 | a packet with any padding parses back exactly when it has a payload and its length fits 16 bits |
| Icmp.HandleIcmp | kernel/net/src/icmp.rs:22-71 | no reply exactly for a short message, another type or a small buffer, unchanged then; otherwise the whole reply frame and nothing past it |
| Icmp.ReplyAnswers | kernel/net/src/icmp.rs:53-68 | the reply has the request's identifier, sequence number and data, type and code zero, and verifies |
| Icmp.ReplyArrivesIff | kernel/net/src/icmp.rs:22-71 | the frame, padded or not, parses back to swapped addresses, a verified header and the whole reply exactly for requests of at most 65515 bytes |
| Keys.KeycodeToAscii | kernel/tty/src/ldisc.rs:441-505 | a key types a printable byte, a backspace, a tab or a newline, never an interrupt, end of file, return or DEL byte |
| KeyHistory.DigitKeys | kernel/tty/src/ldisc.rs:345-358 | the scancodes from 0x02 on are the keys of the digit row, backspace and tab, in order |
| KeyHistory.TopKeys | kernel/tty/src/ldisc.rs:359-372 | the scancodes from 0x10 on are the keys from Q to P, the brackets, Enter and Ctrl, in order |
| KeyHistory.HomeKeys | kernel/tty/src/ldisc.rs:373-385 | the scancodes from 0x1E on are the keys from A to L, their neighbours and left shift, in order |
| KeyHistory.BottomKeys | kernel/tty/src/ldisc.rs:386-397 | the scancodes from 0x2B on are backslash, the keys from Z to slash and right shift, in order |
| KeyHistory.LettersToI | kernel/tty/src/ldisc.rs:444-452 | the keys A to I type their letters; shift and caps lock lower the byte by 32 and cancel each other |
| KeyHistory.LettersToR | kernel/tty/src/ldisc.rs:453-461 | the same for J to R |
| KeyHistory.LettersToZ | kernel/tty/src/ldisc.rs:462-469 | the same for S to Z |
| KeyHistory.Digits | kernel/tty/src/ldisc.rs:472-485 | what the digit row types with and without shift, whatever caps lock says |
| KeyHistory.Brackets | kernel/tty/src/ldisc.rs:486-490 | what the brackets, backslash, semicolon and apostrophe type |
| KeyHistory.Marks | kernel/tty/src/ldisc.rs:491-494 | what the grave, comma, period and slash keys type |
| KeyHistory.Blanks | kernel/tty/src/ldisc.rs:497-500 | what space, tab, Enter and backspace type |
| KeyHistory.StateIsHistory | kernel/tty/src/ldisc.rs:90-130 | after every scancode sequence a modifier is held exactly when the last of its scancodes was a press, caps lock is on after an odd number of presses, and the prefix is on right after it came |
| KeyHistory.DecodedIsHistory | kernel/tty/src/ldisc.rs:84-224 | what each scancode of a sequence gives, from the scancodes before it: a terminal switch, a control byte, what the key types, or nothing |
| KeyHistory.VtKeys | kernel/tty/src/ldisc.rs:138-147 | the first six function keys ask for terminals 0 to 5, and no other key does |
| LineDiscipline.LineDiscipline.constructor | kernel/tty/src/ldisc.rs:63-75 | empty buffers and no modifiers |
| LineDiscipline.LineDiscipline.ProcessAsciiByte | kernel/tty/src/ldisc.rs:234-302 | buffers and action of the byte path as one step, whose effects over sessions are `ReadsAreCutPieces`, `EofIff` and `ActionTells` |
| LineDiscipline.LineDiscipline.ProcessScancode | kernel/tty/src/ldisc.rs:84-224 | the separately written scancode path has exactly the effect of decoding and then the byte path, in every mode |
| LineDiscipline.LineDiscipline.TryRead | kernel/tty/src/ldisc.rs:309-328 | a pending end of file, or the front of the ready bytes, into the front of the caller's buffer |
| LineDiscipline.PathsAgree | kernel/tty/src/ldisc.rs:84-302 | for every scancode sequence and every change of modes, one terminal fed scancodes and one fed the decoded bytes through the byte path end with equal buffers after equal actions |
| LineHistory.EveryByteAccounted | kernel/tty/src/ldisc.rs:234-328 | over every session in any modes each byte sent is read, ready or dropped, and the line is the edited tail of the input |
| LineHistory.ReadsAreCutPieces | kernel/tty/src/ldisc.rs:234-328 | over every session with any changes of mode, bytes read then ready are what the input sends, split at its line ends into passed bytes and edited lines, each piece cut where it found the ready buffer full |
| LineHistory.ReadsAreDeliveredIff | kernel/tty/src/ldisc.rs:234-328 | they are all the input sends exactly when nothing sent finds the ready buffer too full |
| LineHistory.RawReadsAreTyped | kernel/tty/src/ldisc.rs:234-328 | in raw mode, with signals off or no Ctrl-C, they are the bytes typed, less those that found the ready buffer full |
| LineHistory.EofIff | kernel/tty/src/ldisc.rs:250-260 | the end-of-file flag is set exactly when a Ctrl-D came in canonical mode on an empty edited line since the last read |
| LineHistory.ReadTells | kernel/tty/src/ldisc.rs:309-328 | a read returns no bytes exactly then; otherwise as many ready bytes as it wants and there are, or finds none |
| LineHistory.ActionTells | kernel/tty/src/ldisc.rs:234-302 | which action each input gives, from what it does to the line and the ready bytes |
| LineHistory.Play | kernel/tty/src/ldisc.rs:234-328 | a terminal taken through a session, event by event, ends with the buffers and the bytes read of that session |
| Path.ComponentsJoin | kernel/fs/src/path.rs:17-19 | a slash separates: components of both sides are independent |
| Path.ComponentsAreNames | kernel/fs/src/path.rs:17-19 | components are non-empty and contain no slash |
| Path.ComponentsOfJoin | kernel/fs/src/path.rs:17-19 | splitting undoes joining |
| Path.LongestPrefixMatch | kernel/fs/src/path.rs:31-53 | none matches, or the result matches and no match is longer; which mount points match is `MatchesIff` |
| Path.LongestIsUnique | kernel/fs/src/path.rs:31-53 | for an absolute path the result does not depend on the order of the mount points |
| Path.RelativeMatchIsAmbiguous | kernel/fs/src/path.rs:31-53 | a relative path that has two best mount points |
| Path.MountLosesNothing | kernel/fs/src/path.rs:60-69 | the mount point's components, then the remainder's, are the path's |
| Path.MatchesIff | kernel/fs/src/path.rs:38-45 | exactly the root, the empty string and the paths of leading parts of its components match a path without superfluous slashes |
| Path.MatchesIffPrefix | kernel/fs/src/path.rs:27-45 | a mount point given by components matches exactly the paths whose components it starts |
| Vfs.MountTable.Mount | kernel/fs/src/vfs.rs:39-41 | adds or replaces one mount point |
| Vfs.FindMount | kernel/fs/src/vfs.rs:71-85 | the root and remainder of the longest matching mount point, found independently of the order of keys; which one that is is `DeepestMount` |
| Vfs.MountTable.ResolveWithDepth | kernel/fs/src/vfs.rs:88-110 | the looping resolver terminates on every graph and computes resolution, whose answers are `ResolveIsRight` |
| VfsTheorems.ShallowerAgrees | kernel/fs/src/vfs.rs:88-110 | any result other than the depth limit's error is the result at every smaller depth |
| VfsTheorems.ChainResolvesIff | kernel/fs/src/vfs.rs:44 | a chain of links across any directories and mounts resolves exactly when its remaining links fit the limit of eight, and else fails with the loop error |
| VfsTheorems.NeverALinkIff | kernel/fs/src/vfs.rs:88-110 | resolution never returns a symbolic link exactly when no usable mount has one as its root |
| VfsTheorems.DepthThreshold | kernel/fs/src/vfs.rs:88-110 | every path on every graph has one depth up to which its result is the same and beyond which it is the loop error |
| VfsTheorems.LinkCanBeFollowedIff | kernel/fs/src/vfs.rs:102-106 | above the last level a link can be followed, with some mounts, exactly when its target is absolute |
| VfsTheorems.ResolveInTwo | kernel/fs/src/vfs.rs:88-162 | resolving `p/q` is resolving `p` and then `q` relative to it when no mount point lies between |
| VfsTheorems.ResolveScoped | kernel/fs/src/vfs.rs:165-194 | the lock-scoped loop computes resolution over the mount tables it finds, lock by lock, whose answers are `ScopedIsRight` |
| VfsTheorems.ResolveRelative | kernel/fs/src/vfs.rs:142-162 | relative resolution walks from the base and follows links with the lock-scoped resolver, with the answers of `RelativeIsRight` |
| VfsTheorems.RelativeCompletes | kernel/fs/src/vfs.rs:137-162 | for a fixed mount table, resolving `p` and then `q` relative to it is resolving `p/q` when no mount point lies between |
| VfsTheorems.ScopedAgrees | kernel/fs/src/vfs.rs:165-194 | for a fixed mount table the lock-scoped resolver equals `Vfs::resolve` |
| VfsTrails.DeepestMount | kernel/fs/src/vfs.rs:71-85 | a path starts at the deepest mount above it and leaves the components below that mount to walk; NotFound exactly when there is none |
| VfsTrails.ScopedIsRight | kernel/fs/src/vfs.rs:165-194 | on every graph and whatever the mount tables, the lock-scoped resolver returns an inode exactly when a trail of lookups and followed links through all components ends there, and an error exactly when the depth, the path, the mounts or the first component that goes nowhere give it, after the locks the trail takes |
| VfsTrails.RelativeIsRight | kernel/fs/src/vfs.rs:142-162 | the relative resolver ends exactly where a trail from its base leads and fails exactly where one stops |
| VfsTrails.ResolveIsRight | kernel/fs/src/vfs.rs:88-110 | for a fixed mount table, resolution gives the answer of the trails and no other |
| VfsTrails.MissingNameFails | kernel/fs/src/vfs.rs:97-106 | a component whose lookup fails, or a link that cannot be read, ends resolution with its own error, whatever follows |

## Left out

- Lock, wait-queue and interrupt-controller internals: a locked section is one step; nothing is claimed about pipe wake-ups through `wake_one`.
- Library containers (`BinaryHeap`, `BTreeMap`, `ArrayVec`, `RingBuf`): a multiset with a minimum, a map, a bounded sequence, a bounded FIFO of 511 bytes.
- Page-table walking, TLB flushes and the frames used for tables: the mapper is a map from pages to frames, the frame allocator a list of frames.
- Heap and page poisoning, allocation tracking and lock stress: debug configurations.
- `map_page`, `translate` and the drop handlers of stack and MMIO handles: they would only add easy members.
- Channels, services, memory zones, file handles, ARP: simpler repeats of what is modelled.
- PCI, boot, logging, device trees, driver traits, code generation and user programs.
- The preemption flag: leaving the poll loop early is always allowed in the model.
- Double frees and frees of memory never handed out: the source forbids them to callers, so the contracts require live allocations.
- Heap.LinkedListAllocator.Alloc: the alignment sum is required not to wrap; growth is a second method, because the lock is released in between.
- Vmm.Vmm.GrowHeap: requires that the requested size does not wrap 64 bits once rounded up.
- Vmm.Vmm.MapMmio: requires that the requested size does not wrap 64 bits once rounded up.
- Pmm.BitmapAllocator.DeallocateFrames: requires that start plus count fits 64 bits.
- Pmm.BitmapAllocator.New: requires disjoint usable regions, which the source demands as an accurate map.
- ExecutorTheorems.NoWakeLostIffSixBits: the CPUs a truncated number points at are assumed to exist, as they do when CPUs are numbered from zero.
