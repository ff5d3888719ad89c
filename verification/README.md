# A verified model of the emulator's core

Dafny 4.11 models of the parts of iSL that everything else stands on, with proofs about them: the guest
memory and its TLB, the copies between kernel and process, futexes, lazy CPU flags, number conversions, signals, path and
mount lookup, the terminal's line discipline, the kernel log and the initial stack. Check everything with
`dafny verify dfyconfig.toml`.

Code that works in place is modelled in place: a class per object, arrays for fixed buffers, loops where the source loops.
Each method is proved against a function on values, and the theorems are about those functions. A condition that callers do
not guarantee is not assumed in silence: where the code does not do what it is for, the exact condition under which it does
is proved, with a concrete failing input.

## What is proved

* **Guest memory** (`GuestMemory`, `ForkIsolation`, `BlockAccounting`, `Mprotect`, `MprotectLeak`, `AddressSpace`,
  `HostMemory`). All address spaces and reference-counted blocks at once. The joint invariant says that reference counts are
  exact and that a backing page reachable from two entries has P_COW in both. Over every run of maps, unmaps, flag changes,
  forks, releases, reads and writes, sharing pages copy-on-write cannot be told from copying them eagerly (`RunSimulated`).
  `pt_set_flags` keeps the invariant only under an exact condition (`SetFlagsSafeIff`). `pt_find_hole` is exact.
* **Host memory** (`HostRegions`). A block is a struct data and the host memory it names. As long as nobody stores through or
  unmaps memory that another struct data names, the two can be taken together (`RunInlines`); exec, which maps the one vdso
  into every process, makes the condition necessary (`StoreIsolatedIff`, `ReleaseSafeIff`).
* **Memory calls** (`PageRanges`, `MemoryCalls`). What mmap, munmap, mprotect, mremap and brk do to the memory processes see,
  and exactly when each of them leaves the page table.
* **TLB** (`TlbModel`, `CpuMemory`, `CpuRun`, `TlbCache`). Over every run of a CPU with other processes acting at its traps,
  TLB, page table, change counter and polls together are a flat byte memory (`EventsRefine`). The 32-bit counter misses
  exactly multiples of 2^32 changes (`PollMisses`).
* **User copies** (`UserCopy`, `UserStrings`): byte and string loops round trip, across growth, copying and page ends.
* **Futexes** (`FutexTable`, `FutexProtocol`): threads as interleaved steps over a shared hash table and condition queues.
  A thread sleeps only if its word held the value it gave (`WaitersLoadedVal`), and no wakeup is lost, over all
  interleavings (`NoLostWakeup`).
* **Flags** (`Bits`, `LazyFlags`, `CpuFlags`): lazy flags refine eager ones over any program; loops of ADD and ADC
  compute full-width sums.
* **Conversions** (`Float80`, `DoubleConversion`): round trips hold exactly in stated modes; conversion to double is
  roundTiesToEven in the normal range, and exactly characterised below it and on NaNs.
* **Signals** (`SignalMasks`, `SignalFrames`, `SignalTask`): signals are neither lost nor made over runs; a handler finds the
  frame it is documented to find (`HandlerFinds`); delivery and `rt_sigreturn` are inverse at any depth of nesting.
* **Paths and mounts** (`Paths`, `PathResolve`, `PathNormalize`, `PathLimit`, `Mounts`): the normaliser that restarts on every
  link equals a recursive resolver; resolution terminates on all paths exactly if it does on every link; the documented
  length limit has its exact condition; lookups find the longest component prefix over every run.
* **Buffers** (`Tty`, `TtyDevice`, `LogBuffer`, `StackRegion`, `ExecStack`): the line discipline is a line editor and a FIFO,
  the ring log a window on a stream, and the initial stack reads back the host's arguments.

## Conventions

* A block is named by the address malloc picked for its struct data; operations that allocate take that address as a
  parameter, required not to be in use. Allocation itself always succeeds. The bytes belong to the block; `HostRegions` says
  when that is so.
* Result `None` of an operation on a range stands for an index past the page table, which the model stops before.
* Memory as processes see it is `View`: each mapped page of each space with its own bytes. Functions on views such as
  `ReadMany` and `WriteMany` are what methods on the shared blocks are proved against.
* A C string is a sequence without its terminator. A 64-bit signal set is a natural number with its bits.
* `path_normalize` may follow links without end; `fuel` bounds how many it follows, on both sides of every comparison, and
  `FuelMonotone` says that more of it never changes an answer. Outcome `Undefined` stands for a write or read outside a
  buffer, which the model stops before. File systems and mounts together are a fixed map from normalised path to link text.
* Futex threads carry the step number of their load, so that "loaded before" can be said.

## Where code and documentation differ

The model follows the code.

* `path_normalize` is documented to allow results of MAX_PATH - 1 characters. It refuses that length, also for directories it
  only passes through on the way to a shorter result, and from a directory of MAX_PATH - 2 or more characters its count
  passes zero unseen (`DocumentedLimitIff`, `LimitMissed`). The same comment says that the last link is skipped if
  follow_links is true; the code skips it if it is false.
* munmap, mprotect, mremap and mmap at a fixed address take ranges that end past the last page (`MunmapMeaning`,
  `ProtectMeaning`, `MremapShrinks`, `MremapGrows`, `MmapMeaning`), mprotect of no bytes means the whole address space
  (`ProtectNothing`), and a shrinking brk unmaps as many pages as lie below the old break (`BrkShrinkIff`).
* Every exec maps the same host memory for the vdso, which pt_map says it will unmap (`ExecTwice`, `VdsoStoreSeen`,
  `VdsoUnmapped`). Whether munmap takes it depends on its alignment, which kernel/vdso.c leaves open.
* A trailing slash does not make the component before it a directory to be entered (`TrailingSlashIff`).
* `f80_to_int` takes numbers between one half and one for zero, `round_up` and `round_down` add one to exact values,
  subnormal results are rounded twice, and some NaNs become zero or infinity (`ToIntNearestIff`, `DirectedIff`,
  `ToDoubleBelowIff`, `NanStaysIff`).
* `rt_sigreturn` stores eflags without expanding it, so CF and OF stay the handler's (`CarryRestoredIff`).
* OF after ADC and SBB (`AdcOverflowIff`, `SbbOverflowIff`), an end of file typed right after a line (`ReadFaithfulIff`), a
  NUL typed where a control character is disabled (`TypedEditsIff`), and SYSLOG READ_ALL
  of part of the log (`ReadAllNewestIff`) have the conditions stated there.
* `pt_map` of no pages leaves its block behind (`StepUnused`).

## Model

| member | source | states |
|---|---|---|
| AddressSpace.Mem.constructor | emu/memory.c:43-56 | a new address space maps nothing and has made no change |
| AddressSpace.Mem.Pt | emu/memory.c:90-98 | the two-level walk finds the entry of a page exactly if the page is mapped |
| AddressSpace.Mem.SetPt | emu/memory.c:81-88 | storing through a slot, second-level table made on demand, maps that page and keeps every other entry |
| AddressSpace.Mem.DelPt | emu/memory.c:100-104 | only that page is gone afterwards |
| AddressSpace.Mem.Changed | emu/memory.c:228-230 | the 32-bit counter is the number of changes modulo 2^32, page table untouched |
| HostMemory.Host.MemPt | emu/memory.c:90-98 | the entry of a page among all address spaces |
| HostMemory.Host.SetEntry | emu/memory.c:146-149 | one slot of one space changes, in the value all spaces together stand for |
| HostMemory.Host.DelEntry | emu/memory.c:100-104 | one slot of one space is cleared |
| HostMemory.Host.MemChanged | emu/memory.c:228-230 | the counter of that space, and no other, moves on by one |
| HostMemory.Host.Changes | emu/interp.c:615-617 | the counter as cpu_run compares it: the number of changes modulo 2^32 |
| HostMemory.Host.GetData | emu/memory.c:145 | one more reference to the block |
| HostMemory.Host.PutData | emu/memory.c:165-168 | one reference less, and the block unmapped when it was the last |
| HostMemory.Host.PtIsHole | emu/memory.c:123-129 | true exactly if no page of the range is mapped; None exactly where the scan leaves the page table |
| HostMemory.Host.PtUnmapPage | emu/memory.c:161-169 | the page is gone and its block is released if nobody else names it |
| HostMemory.Host.PtUnmap | emu/memory.c:154-173 | fails without effect if a page is missing and force is off, else unmaps the range and counts a change; a range that leaves the page table ends in None, with what was unmapped before |
| HostMemory.Host.PlaceStep | emu/memory.c:142-150 | one page placed: what was there is unmapped, the block gains a reference, the entry names its offset |
| HostMemory.Host.PtMap | emu/memory.c:131-152 | the whole loop places page i of the new block at page start + i, as far as the page table goes |
| HostMemory.Host.PtMapNothing | emu/memory.c:175-180 | zero-filled anonymous pages, nothing at all for zero pages, and an error for 2^20 pages, whose size is 0 in 32 bits |
| HostMemory.Host.ShareStep | emu/memory.c:209-221 | both entries name the same backing page with P_COW, the old destination page is gone |
| HostMemory.Host.PtCopyOnWrite | emu/memory.c:205-226 | the loop over the range, then a counted change in both spaces |
| HostMemory.Host.GrowTo | emu/memory.c:236-248 | an unmapped page below a growing region appears zero-filled; otherwise the page must have been there |
| HostMemory.Host.MemPtr | emu/memory.c:232-267 | the memory and the pointer are those of the specification, growth, write protection and copy-on-write included |
| HostMemory.Host.PtFindHole | emu/memory.c:106-121 | the highest start above 0x40000 of an unmapped range of that size ending at or below 0xf7ffe; BAD_PAGE exactly if there is none |
| HostMemory.Host.PtSetFlags | emu/memory.c:182-203 | fails if a page is missing, else overwrites every flag of the range; None exactly where the first loop leaves the page table |
| HostMemory.Host.MemNew | emu/memory.c:43-56 | an empty space joins the others, which keep their pages |
| HostMemory.Host.MemRetain | emu/memory.c:58-60 | one more owner, memory unchanged |
| HostMemory.Host.MemRelease | emu/memory.c:62-76 | the last owner takes all pages of the space with it; an earlier one takes nothing |
| GuestMemory.UnmapView | emu/memory.c:154-173 | unmapping removes exactly those pages of that space from what processes see, and keeps the joint invariant |
| GuestMemory.PtMapView | emu/memory.c:131-152 | mapping is seen as slice i of the bytes at page i and nothing else; the joint invariant is kept |
| GuestMemory.ShareOneView | emu/memory.c:209-221 | sharing one page is seen as copying it |
| GuestMemory.SharedEntries | emu/memory.c:209-221 | both entries have the same backing page and the flags of the source with P_COW and without P_COMPILED |
| GuestMemory.ShareLoopView | emu/memory.c:205-226 | pt_copy_on_write is seen as an eager copy of every mapped page; P_COW is in every entry of a shared backing page |
| GuestMemory.UnshareView | emu/memory.c:254-261 | resolving a copy-on-write page changes no byte anyone sees and leaves a page of its own |
| GuestMemory.TouchView | emu/memory.c:232-267 | all of mem_ptr is seen as stack growth only, and a page reached for writing is not copy-on-write afterwards |
| GuestMemory.StoreView | kernel/user.c:28-33 | a store through a pointer to an unshared page changes those bytes of that page of that process only |
| ForkIsolation.PointerAt | emu/memory.c:232-267 | the pointer exists exactly if the page is mapped (and writable, for a write) and leads to its bytes |
| ForkIsolation.StepSimulated | emu/memory.c:131-267 | every operation, pt_set_flags included where it is safe, keeps the joint invariant and does to memory what eager copying does, with the same output |
| ForkIsolation.RunSimulated | emu/memory.c:205-262 | fork isolation over every run of maps, unmaps, safe flag changes, forks, releases, reads and writes: copy-on-write cannot be told from copying at fork |
| ForkIsolation.EmptyMemory | emu/memory.c:43-56 | the memory before the first process satisfies the joint invariant |
| ForkIsolation.ChildKeepsForkImage | emu/memory.c:205-226 | after a fork into an empty space, whatever others do, each page of the child is the page the parent had |
| ForkIsolation.OthersKeepPages | emu/memory.c:205-262 | operations of other spaces leave the pages of a space alone |
| BlockAccounting.StepUnused | emu/memory.c:131-173 | a block goes exactly when its last entry goes; only pt_map of no pages leaves one behind |
| BlockAccounting.RunAccounting | emu/memory.c:131-226 | over every run each reference count is the number of entries naming the block, and the orphans are exactly those of zero-page maps |
| Mprotect.SetFlagsSafeIff | emu/memory.c:182-203 | overwriting flags keeps the copy-on-write invariant if and only if it fails, P_COW is among the new flags, or no page of the range is shared |
| MprotectLeak.SetFlagsLeak | emu/memory.c:187-189 | otherwise a write by one process shows in the memory of another |
| MprotectLeak.SetFlagsCounterexample | emu/memory.c:187-189 | a concrete fork, mprotect and write after which the other process reads the byte |
| Mprotect.SetFlagsView | emu/memory.c:182-203 | where it is safe it changes the flags processes see in the range, and no byte |
| HostRegions.StepKept | emu/memory.c:131-267 | an operation changes the bytes of no block but the one it allocates and the one it stores through |
| HostRegions.StepInlines | emu/memory.c:131-173 | struct datas that name host memory behave as blocks with memory of their own as long as nobody stores through, or unmaps, memory another one names |
| HostRegions.RunInlines | emu/memory.c:131-267 | the same over every run, so isolation and accounting hold of struct datas and host memory as they are |
| HostRegions.OwnRegions | emu/memory.c:175-180 | distinct host memory is enough for that, and stays so unless static memory is mapped twice |
| HostRegions.StoreIsolatedIff | emu/memory.c:64-68 | a store is seen through no other struct data if and only if no other live one has the same host memory |
| HostRegions.ReleaseSafeIff | emu/memory.c:165-168 | the last reference leaves every other struct data its memory if and only if munmap refuses or no other live one has it |
| HostRegions.ExecTwice | kernel/exec.c:225-232 | a second exec maps the vdso memory that the first one mapped |
| HostRegions.ExecsShare | kernel/exec.c:225-232 | which disturbs neither process as long as the vdso is only read |
| HostRegions.TwinStoreSeen | emu/memory.c:187-189 | once such a page is writable in one process, a store there is read in the other, although no block is shared |
| HostRegions.VdsoStoreSeen | kernel/exec.c:225-232 | the failing case: two execs, mprotect of the vdso and a store in one, read by the other |
| HostRegions.VdsoUnmapped | emu/memory.c:165-168 | the failing case: a page-aligned vdso unmapped by one process is gone for the other |
| PageRanges.HoleMeans | emu/memory.c:123-129 | a hole is a range of unmapped pages of the table; one mapped page of the table makes it none |
| PageRanges.UnmapInside | emu/memory.c:154-173 | on a range inside the page table unmapping is the operation of the run theorems |
| PageRanges.MapInside | emu/memory.c:131-152 | and so is mapping |
| PageRanges.SetFlagsInside | emu/memory.c:182-203 | and so is changing flags |
| MemoryCalls.SysMunmap | kernel/mmap.c:62-74 | memory and result are those that MunmapMeaning describes |
| MemoryCalls.SysMprotect | kernel/mmap.c:123-134 | memory and result are those that ProtectMeaning and ProtectNothing describe |
| MemoryCalls.SysMmap | kernel/mmap.c:8-53 | anonymous memory at a fixed address, or at the highest hole that fits, or ENOMEM exactly if there is none |
| MemoryCalls.SysMremap | kernel/mmap.c:79-121 | memory and result are those that MremapShrinks and MremapGrows describe |
| MemoryCalls.SysBrk | kernel/mmap.c:149-181 | memory, break and result are those that BrkGrows and BrkShrinkIff describe |
| MemoryCalls.MunmapMeaning | kernel/mmap.c:62-74 | the pages with a byte of the range go if and only if every byte is mapped; it leaves the page table if and only if the range ends past the last address and is mapped up to it |
| MemoryCalls.MunmapPastTop | kernel/mmap.c:69 | the failing case: munmap(0xfffff000, 0x2000) |
| MemoryCalls.ProtectMeaning | kernel/mmap.c:123-134 | flags of the pages with a byte of the range, no bytes; the same condition for leaving the page table |
| MemoryCalls.ProtectNothing | kernel/mmap.c:129 | a length of zero stands for 2^20 pages: it succeeds only from address 0 with every page mapped |
| MemoryCalls.MmapMeaning | kernel/mmap.c:8-39 | fixed anonymous memory is zero pages over whatever was there and no other change; it leaves the page table if and only if the range ends past the last address |
| MemoryCalls.MmapMunmap | kernel/mmap.c:8-74 | mmap and then munmap leave exactly the pages outside the range, as they were |
| MemoryCalls.ProtMeans | emu/memory.h:92-95 | by value: 2, 3, 6 and 7 are writable, odd values readable, 4 and more executable, and no other flag is set |
| MemoryCalls.WritableIff | kernel/mmap.c:26 | after mmap and after mprotect a page of the range is writable exactly if PROT_WRITE was asked for |
| MemoryCalls.CallErrors | kernel/mmap.c:8-134 | EINVAL, ENOMEM and EFAULT by their causes, with nothing changed |
| MemoryCalls.MremapShrinks | kernel/mmap.c:92-98 | the pages behind the new end go if and only if they are all mapped; the exact condition for leaving the page table |
| MemoryCalls.MremapGrows | kernel/mmap.c:100-120 | zero pages with the old flags behind the old ones and no other change, if and only if the old ones are mapped and anonymous and the new ones free; no result if and only if an old page after the first is missing or the free range leaves the page table |
| MemoryCalls.BrkGrows | kernel/mmap.c:163-170 | a growing heap always gets zero pages, over whatever was mapped there |
| MemoryCalls.BrkQuery | kernel/mmap.c:149-161 | brk(0) returns the present break, a break below the start of the heap EINVAL, and both change nothing |
| MemoryCalls.BrkShrinkIff | kernel/mmap.c:171-176 | a shrinking heap loses the pages its comments name if and only if nothing is mapped behind it for as many pages as lie below the new break, and these are in the page table |
| MemoryCalls.BrkTakesLibrary | kernel/mmap.c:175 | the failing case: a library above the heap is unmapped |
| TlbModel.HitIsRight | emu/tlb.h:50-79 | a hit in a coherent TLB is the pointer mem_ptr would return, and a write hit is on a writable page that is not copy-on-write |
| TlbModel.LookupIsMemPtr | emu/tlb.c:43-58 | hit or miss, a lookup is mem_ptr and leaves the TLB coherent |
| TlbModel.LookupFills | emu/tlb.c:43-58 | a lookup that gives a pointer leaves an entry that the next one hits, after a write for writes too |
| TlbModel.StepHonest | emu/memory.c:154-230 | an operation that loses or alters an entry of a space moves its change counter; the counter never goes back |
| TlbModel.RunHonest | emu/memory.c:154-230 | the same over every run |
| CpuMemory.PointerSurvives | emu/tlb.c:31-41 | a host pointer held for one page stays good while the neighbouring page is looked up, grown or copied |
| CpuMemory.ReadRefines | emu/tlb.h:60-68 | a read, page-crossing or not, returns the bytes of a flat memory and fails exactly if one is unmapped |
| CpuMemory.WriteRefines | emu/tlb.h:81-89 | a write, page-crossing or not, succeeds exactly if all bytes are writable; a failed one changes no byte |
| CpuRun.PollCoherent | emu/interp.c:613-618 | with fewer than 2^32 changes since the last poll the poll leaves a coherent TLB |
| CpuRun.PollMisses | emu/interp.c:615-617 | the poll does nothing exactly if the number of changes is a multiple of 2^32 |
| CpuRun.StaleHit | emu/interp.c:615-617 | the failing case: a page read, then unmapped 2^32 times, still hits in the TLB |
| CpuRun.EventsRefine | emu/interp.c:596-621 | TLB, page table, polls and other processes together are a flat byte memory, over every run of the CPU |
| CpuRun.HitsAreSafe | emu/tlb.h:70-79 | in every such state each hit is the pointer of mem_ptr and write hits are on unshared writable pages |
| CpuRun.ReadBack | emu/tlb.c:19-41 | a read returns the last bytes written, across page boundaries and around the top of the address space |
| TlbCache.Tlb.constructor | emu/tlb.c:4-8 | a new TLB cannot hit |
| TlbCache.Tlb.Flush | emu/tlb.c:10-13 | no entry can hit afterwards |
| TlbCache.Tlb.HandleMiss | emu/tlb.c:43-58 | fills the entry of the page with what mem_ptr gave, or changes no entry if it gave nothing |
| TlbCache.Tlb.Ptr | emu/tlb.h:50-79 | memory, entries and pointer are those of the specified lookup |
| TlbCache.Tlb.Ptrs | emu/tlb.c:19-24 | both pointers in the order the source takes them, the second even if the first is missing |
| TlbCache.Tlb.Read | emu/tlb.h:60-68 | the bytes, or a failure, of the specified access |
| TlbCache.Tlb.Write | emu/tlb.h:81-89 | the stores of the specified access, both pointers before either copy |
| TlbCache.Tlb.Poll | emu/interp.c:613-618 | flushes exactly if the counter moved since it was last read |
| UserCopy.UserRead | kernel/user.c:3-13 | the byte loop is reading byte by byte from memory without sharing, and its buffer holds the bytes before the first unmapped one |
| UserCopy.UserWrite | kernel/user.c:19-29 | the byte loop is writing byte by byte; bytes before the first unwritable address stay written |
| UserCopy.ReadStops | kernel/user.c:3-13 | the bytes in front of the first unmapped one are copied, and the copy fails exactly if there is one |
| UserCopy.WriteStops | kernel/user.c:19-29 | the bytes in front of the first unwritable address are stored, and the copy fails exactly if there is one |
| UserCopy.UserRoundTrip | kernel/user.c:3-29 | what was written is read back, whatever pages grew, were copied or crossed |
| UserCopy.WriteManyKeeps | kernel/user.c:19-29 | bytes at other addresses keep their value |
| UserStrings.UserReadString | kernel/user.c:35-47 | the characters up to a NUL or max of them; address 0 fails |
| UserStrings.UserWriteString | kernel/user.c:49-61 | the characters and a NUL; address 0 fails |
| UserStrings.StringRoundTrip | kernel/user.c:35-61 | a string written is read back, cut to max characters if longer |
| UserStrings.ReadStringMeans | kernel/user.c:35-47 | whatever the memory holds: what is there up to the first NUL or max characters, and failure exactly at an unmapped one before that |
| FutexTable.FutexHash.constructor | kernel/futex.c:16-19 | an empty table |
| FutexTable.FutexHash.Find | kernel/futex.c:25-32 | the scan finds the futex of that space and address exactly if there is one |
| FutexTable.FutexHash.Get | kernel/futex.c:22-45 | the one futex of that key gains a reference, or a new one goes to the head of its bucket |
| FutexTable.FutexHash.Put | kernel/futex.c:48-55 | one reference less, and the last one takes the futex out of its bucket |
| FutexTable.ListRemove | kernel/futex.c:51 | the list without that member, in order |
| FutexTable.GottenOk | kernel/futex.c:22-45 | getting keeps one live futex per key, each once in the bucket it hashes to |
| FutexTable.DroppedOk | kernel/futex.c:48-55 | putting keeps that too |
| FutexProtocol.StepKeeps | kernel/futex.c:22-90 | every step of every thread keeps the joint invariant of table, lock, queues and reference counts |
| FutexProtocol.RunKeeps | kernel/futex.c:22-90 | so does every interleaving |
| FutexProtocol.LoadDecides | kernel/futex.c:68-75 | futex_wait goes to sleep exactly if the word is mapped and holds val, and otherwise returns EFAULT or EAGAIN |
| FutexProtocol.WaitersLoadedVal | kernel/futex.c:66-78 | over every run from the start: a thread asleep, or about to be, on a word found it mapped and holding the val of its own call in the state before its load |
| FutexProtocol.NotifyWakes | kernel/futex.c:80-90 | a wake of one takes exactly one sleeper of its futex, if there is one, out of the queue, a wake of all takes all, nobody else changes, and val is returned |
| FutexProtocol.WaitReturns | util/sync.c:45-54 | a pending signal keeps a thread from sleeping, a sleeper gives up the lock and joins the queue, a timeout or signal takes it out, and ETIMEDOUT, EINTR or 0 is returned |
| FutexProtocol.StepFrame | kernel/futex.c:22-90 | a step changes its own thread and those it wakes, and only guest stores and unmaps change memory |
| FutexProtocol.ReachableFutexes | kernel/futex.c:22-55 | from an empty table: one futex per key, its count is the threads between get and put, and none is left when all are out |
| FutexProtocol.WakeAllClears | kernel/futex.c:80-90 | a wake-all leaves no thread asleep, or between load and sleep, on that word, hash collisions or not |
| FutexProtocol.WakeClears | kernel/futex.c:80-90 | and so does a wake of one while no two threads sleep on the word |
| FutexProtocol.NoLostWakeup | kernel/futex.c:66-90 | over all interleavings: after a store and a completed wake of all, or of one while no two threads sleep on the word, whoever still waits loaded the word after both |
| CpuFlags.Cpu.Collapse | emu/cpu.h:180-192 | the lazy flags become stored bits |
| CpuFlags.Cpu.Expand | emu/cpu.h:194-198 | cf and of are taken from their stored bits and nothing is lazy any more |
| LazyFlags.CollapseShows | emu/cpu.h:180-192 | collapsing changes no flag a program can observe |
| CpuFlags.Cpu.Add | emu/interp.c:200-204 | the flags shown are carry, signed overflow, zero, sign, parity and auxiliary carry of the sum, at 8, 16 and 32 bits |
| CpuFlags.Cpu.Sub | emu/interp.c:230-234 | the same of the difference |
| CpuFlags.Cpu.Cmp | emu/interp.c:240-244 | the flags of the difference, without storing it |
| CpuFlags.Cpu.Inc | emu/interp.c:246-250 | the flags of adding one, carry kept |
| CpuFlags.Cpu.Dec | emu/interp.c:251-255 | the flags of subtracting one, carry kept |
| CpuFlags.Cpu.Neg | emu/interp.c:362-366 | the flags of subtracting from zero |
| CpuFlags.Cpu.LogicFlags | emu/interp.c:222-228 | carry, overflow and auxiliary carry clear, the rest from the result |
| CpuFlags.Cpu.Pushf | emu/interp.c:526-528 | the pushed image has every flag up to date |
| CpuFlags.Cpu.Popf | emu/interp.c:522-524 | every flag shown is the one in the word |
| CpuFlags.Cpu.Execute | emu/interp.c:187-255 | over any program, collapses, PUSHF and POPF interleaved, lazy flags show what a CPU computing all flags at once holds |
| CpuFlags.CompareConditions | emu/interp.c:485-490 | after CMP, B, BE, L and LE are the unsigned and signed orders of the operands |
| CpuFlags.AddFlagsMean | emu/interp.c:200-204 | CF, OF and AF of an addition as the carries and the signed overflow of the result, ZF, SF and PF as its properties |
| CpuFlags.SubFlagsMean | emu/interp.c:230-234 | the same of a subtraction, with borrows |
| CpuFlags.LogicConditions | emu/interp.c:222-228 | after a logic instruction B is false and E, L and LE compare its result with zero |
| CpuFlags.LogicResults | emu/interp.c:222-228 | AND, OR and XOR bit by bit |
| CpuFlags.PushfPopf | emu/interp.c:522-528 | POPF of a pushed word brings the flags back, whatever ran in between |
| LazyFlags.WordRoundTrip | emu/cpu.h:180-192 | a flags word gives back the bits it was made of |
| LazyFlags.WordBits | emu/cpu.h:81-93 | each flag stands at its bit: CF 0, PF 2, AF 4, ZF 6, SF 7, TF 8, IF 9, DF 10, OF 11 |
| LazyFlags.WordOfBits | emu/cpu.h:81-93 | a word is made of the bits it is taken apart into |
| LazyFlags.PushedBits | emu/interp.c:526-528 | the word PUSHF pushes shows CF, PF, AF, ZF, SF and OF at their bits |
| CpuFlags.Cpu.Adc | emu/interp.c:206-212 | result, CF and OF in terms of operands and carry, with the source's special cases; ZF, SF and PF of the result, and AF the carry out of bit 3 |
| CpuFlags.Cpu.Sbb | emu/interp.c:214-220 | the same for SBB |
| CpuFlags.AdcIsExact | emu/interp.c:206-212 | CF and result together are the exact sum of operands and carry, also when source plus carry wraps to zero |
| CpuFlags.SbbIsExact | emu/interp.c:214-220 | CF and result together are the exact difference |
| CpuFlags.AdcOverflowIff | emu/interp.c:208-209 | OF after ADC is right if and only if not (carry in, source the largest positive value, destination negative) |
| CpuFlags.AdcOverflowWrong | emu/interp.c:208-209 | the failing case: 0x80 + 0x7f + 1 |
| CpuFlags.SbbOverflowIff | emu/interp.c:216-217 | the exact condition under which OF after SBB is right |
| CpuFlags.SbbOverflowWrong | emu/interp.c:216-217 | the failing case: 0 - 0x7f - 1 |
| CpuFlags.Cpu.AddLong | emu/interp.c:200-212 | ADD on the lowest limbs and ADC up the others, run on the lazy CPU, leave the full-width sum and its carry in CF |
| CpuFlags.Cpu.SubLong | emu/interp.c:214-234 | SUB and SBB in the same way the full-width difference and its borrow |
| CpuFlags.AddChainIsSum | emu/interp.c:200-212 | the limbs of that loop stand for the full-width sum, for any number of them and any carry in |
| CpuFlags.SubChainIsDifference | emu/interp.c:214-234 | and for the difference |
| SignalMasks.MaskSetBits | kernel/user-signal.c:279-303 | a mask change moves signals between queued and pending by their new mask bit and loses or adds none |
| SignalMasks.ActionIs | kernel/user-signal.c:22-38 | ignored, handled or deadly, number by number |
| SignalMasks.EventBits | kernel/user-signal.c:41-112 | bit by bit: a sent signal is queued if held back, else pending; a forced one is pending; a received one no longer, and blocked if handled; nothing else changes |
| SignalMasks.MaskBits | kernel/user-signal.c:279-303 | bit by bit what each kind of mask change does, and that an unknown one does nothing |
| SignalMasks.NextKeeps | kernel/user-signal.c:66-81 | queued signals stay blocked, and only forced or unblockable signals are both pending and blocked |
| SignalMasks.RunConserves | kernel/user-signal.c:41-303 | over every run an outstanding signal disappears only by being received and appears only by being sent |
| SignalMasks.SentStays | kernel/user-signal.c:41-303 | a signal sent while not ignored, or forced, and not received afterwards is outstanding at the end of the run |
| SignalTask.Task.DeliverSignal | kernel/user-signal.c:41-64 | the signal becomes pending, whatever the mask; another thread is interrupted, and notified first if it waits |
| SignalTask.Task.SendSignal | kernel/user-signal.c:66-81 | ignored, queued if blocked and blockable, else delivered; signal 0 and zombies get nothing; a thread is interrupted exactly for a signal delivered to it from another |
| SignalTask.Task.Sigprocmask | kernel/user-signal.c:279-303 | EINVAL without effect for an unknown how, else the old mask and the moved sets |
| SignalTask.Task.Sigaction | kernel/user-signal.c:238-252 | EINVAL for a number past the table or an unblockable signal, None for a negative one, which indexes in front of the table, else the old handler and the new table |
| SignalTask.Task.BuildFrame | kernel/user-signal.c:114-143 | the frame built field by field is the specified image of the interrupted state |
| SignalTask.Task.EnterHandler | kernel/user-signal.c:145-167 | registers, stack pointer and mask on entry to a handler |
| SignalTask.Task.ReceiveSignal | kernel/user-signal.c:98-173 | ignoring, killing or calling the handler, frame written to guest memory included |
| SignalTask.Task.ReceiveSignals | kernel/user-signal.c:175-184 | every pending signal in order until one kills |
| SignalTask.ReceiveFromBits | kernel/user-signal.c:175-184 | without a deadly signal pending nothing stays pending and exactly the handled ones become blocked; else the lowest deadly one ends it |
| SignalTask.HandlersNest | kernel/user-signal.c:175-184 | the handler of the highest pending signal runs first and interrupts the one of the next lower, down to the state the signals found |
| SignalTask.Task.RtSigreturn | kernel/user-signal.c:210-236 | registers, flags and mask are those in the frame found 8 bytes below esp, and past the first unreadable byte those that lay on the kernel stack |
| SignalFrames.FrameAddressFacts | kernel/user-signal.c:161-163 | the frame lies below esp, with the word after its start 16-byte aligned |
| SignalFrames.HandlerFinds | kernel/user-signal.c:114-143 | on the stack of a handler: the return address into the vdso, the signal number, and struct sigcontext, the mask and the return code at the offsets of their members |
| SignalFrames.HandlerStarts | kernel/user-signal.c:145-168 | registers, flags and mask a handler starts with |
| SignalFrames.ResumedRestores | kernel/user-signal.c:210-236 | taking apart the frame of a state brings back registers, esp, eip, ZF, SF, PF, AF, DF and the mask, whatever the handler left |
| SignalFrames.CarryRestoredIff | kernel/user-signal.c:227-228 | CF and OF come back if and only if the handler returns with the old values, since they are not expanded |
| SignalFrames.CarryLost | kernel/user-signal.c:227-228 | the failing case: a handler that returns with the other CF |
| SignalFrames.InterruptKeeps | kernel/user-signal.c:98-173 | a delivery keeps all live contexts disjoint, aligned and intact, also between the ret of a handler and its rt_sigreturn |
| SignalFrames.ReturnRestores | kernel/user-signal.c:210-236 | a return finds the newest frame and the context it interrupted |
| SignalFrames.NestedHandlersReturn | kernel/user-signal.c:98-236 | delivery and sigreturn are inverse at any depth, with any nested deliveries and returns in between, up to the system call itself |
| Paths.PathIsNormalized | fs/path.c:106-117 | the scan decides the recursive definition |
| Paths.IsNormalizedIff | fs/path.c:106-117 | accepted are exactly the texts of component lists, and those with one slash behind them |
| PathNormalize.EatSlashes | fs/path.c:36-37 | the cursor stands behind the slashes |
| PathNormalize.CopyComponent | fs/path.c:63-65 | the component is appended, or n is zero exactly if it does not fit |
| PathNormalize.DropLast | fs/path.c:49-52 | exactly the last component is taken off the output |
| PathNormalize.OneComponent | fs/path.c:60-71 | slash and component appended and the slashes behind eaten, or ENAMETOOLONG |
| PathNormalize.ReadLink | fs/path.c:78-95 | no link; or the text to restart on; or a copy that would leave its buffer |
| PathNormalize.PathNormalize | fs/path.c:7-104 | the in-place loops over cursors and buffer compute the specified walk, text, status and terminator |
| PathResolve.WalkAgrees | fs/path.c:36-103 | the walk gives what the reference resolver gives, or fails for want of room or by climbing past the root |
| PathResolve.ResolveNormal | fs/path.c:36-103 | a resolved path has ordinary components only, no link on the way, and none at its end if links are followed |
| PathResolve.Rewalk | fs/path.c:84-96 | starting over on the already resolved prefix after a link changes nothing |
| PathResolve.FuelMonotone | fs/path.c:96 | the bound on links followed does not change an answer |
| PathResolve.TerminatesIff | fs/path.c:96 | every path resolves if and only if every link resolves on its own |
| PathResolve.WalkFuel | fs/path.c:96 | the bound on links followed changes no outcome of the normaliser but that of running into it |
| PathResolve.WalkStops | fs/path.c:96 | if every link resolves on its own the normaliser comes to an end on every path |
| PathResolve.LinkLoops | fs/path.c:96 | on a link to itself it never does |
| PathResolve.TrailingSlashIff | fs/path.c:67-73 | dropping a trailing slash agrees with section 4.13 of IEEE Std 1003.1-2017 if and only if the last link is followed anyway or the path does not end at one |
| PathResolve.TrailingSlashMissed | fs/path.c:67-73 | the failing case: the link /l and the path /l/ |
| PathNormalize.NormalizeIsResolve | fs/path.c:7-104 | success means the reference result, normalised and link-free |
| PathNormalize.NormalizeSucceedsIff | fs/path.c:7-104 | with room for the expansions it fails only where .. leaves the root or links never end |
| PathLimit.DocumentedLimitIff | fs/path.h:19-21 | on every path that follows no link the documented length limit holds if and only if no component leaves the root or makes a prefix of MAX_PATH - 1 characters or more, or the first that does makes one from a prefix shorter than MAX_PATH - 2 and the result is too long itself |
| PathLimit.LimitMissed | fs/path.c:60-71 | three failing cases: a long name and then .., a result of MAX_PATH - 1 characters, a component after MAX_PATH - 2 characters |
| PathLimit.LinkLimitIff | fs/path.c:80-96 | a link is followed exactly as far as its target and the expanded path fit their 4096 characters |
| Mounts.StartsWith | fs/mount.c:18-19 | prefix up to a component boundary |
| Mounts.MatchIsPrefix | fs/mount.c:18-19 | on normalised paths that is a prefix in components, and the rest is a normalised path |
| Mounts.MountTable.MountFind | fs/mount.c:12-25 | the first matching mount gains a reference |
| Mounts.MountTable.MountRelease | fs/mount.c:27-31 | that mount loses one |
| Mounts.MountTable.DoMount | fs/mount.c:33-58 | a failing file system changes nothing, else the mount goes before the first point not longer |
| Mounts.MountTable.MountRemove | fs/mount.c:60-71 | EBUSY without effect while referenced |
| Mounts.MountTable.DoUmount | fs/mount.c:73-85 | EINVAL, EBUSY, or the newest mount at that point removed |
| Mounts.MountTable.FindMountAndTrimPath | fs/generic.c:12-20 | the buffer is shifted in place so that point and trimmed path make up the path |
| Mounts.MountTable.ContainsMountPoint | fs/generic.c:22-31 | true exactly if a mount lies at the path or below it |
| Mounts.FindLongest | fs/mount.c:12-25 | on an ordered table with a root mount: the longest component prefix, the newest among equals, point and trimmed path making up the path |
| Mounts.MountShadows | fs/mount.c:50-56 | a new mount takes over exactly the paths at or below its point that had no longer point |
| Mounts.RunKeeps | fs/mount.c:12-85 | over every run the list stays in order and no mount goes away while somebody holds it |
| Mounts.MountUmount | fs/mount.c:33-85 | mount and then umount gives the list back as it was |
| Mounts.MountMeans | fs/mount.c:33-58 | an error of the file system comes back and changes nothing; else there is one mount more, at that point and held by nobody |
| Mounts.UmountMeans | fs/mount.c:60-85 | EINVAL exactly if nothing is mounted there, EBUSY exactly if the newest mount there is held, else that one is gone and no other |
| Float80.NearestIsEven | emu/float80.c:63-99 | guard bit and rest make roundTiesToEven, for every shift |
| Float80.ChopIsFloor | emu/float80.c:95-96 | chop mode truncates, for every shift |
| Float80.DirectedIff | emu/float80.c:63-85 | for every shift: rounding up and down are right if and only if on the side left alone, or without a shift, or inexact up to 127 bits, or exact beyond |
| Float80.DirectedWrong | emu/float80.c:63-85 | the failing cases: 2 shifted by 1, and 1 shifted by 128 |
| Float80.IntRoundTripIff | emu/float80.c:198-226 | every int64 comes back exactly in the modes that leave exact values alone, otherwise only 0 and INT64_MIN |
| Float80.ToIntNearestIff | emu/float80.c:215-226 | the nearest integer, ties to even, if and only if it fits and the number is not between one half and one |
| Float80.ThreeQuarters | emu/float80.c:108-117 | the failing case: 0.75 converts to 0 |
| Float80.ToIntSaturates | emu/float80.c:215-226 | the largest or smallest integer by the sign from 2^64 on, the smallest for unsupported numbers, and off by 2^64 in between |
| DoubleConversion.DoubleRoundTripIff | emu/float80.c:240-294 | every double, payloads and subnormals included, comes back bit for bit exactly in the modes that leave exact values of its sign alone |
| DoubleConversion.FromDoubleExact | emu/float80.c:240-261 | every finite double becomes a supported number of exactly its value and sign |
| DoubleConversion.ToDoubleIsNearest | emu/float80.c:263-294 | in the normal range no double is nearer than the result, carry and overflow to infinity included, ties to even |
| DoubleConversion.ToDoubleChops | emu/float80.c:263-294 | chop mode gives the largest double not above the number, subnormal results included |
| DoubleConversion.ToDoubleBelowIff | emu/float80.c:274-281 | below the normal range the result is the value rounded once if and only if no false tie arises and it stays subnormal |
| DoubleConversion.LargestBelowVanishes | emu/float80.c:274-290 | the failing case: the number just below the smallest normal double becomes zero |
| DoubleConversion.ToDoubleOverflows | emu/float80.c:269-273 | finite numbers of 2^1024 and more become the infinity of their sign in every mode; infinities stay where exact values are left alone |
| DoubleConversion.NanStaysIff | emu/float80.c:263-294 | a NaN stays one if and only if its rounded significand is neither the smallest nor one past the largest, in numbers for each mode |
| DoubleConversion.NanLost | emu/float80.c:263-294 | the failing cases: one NaN becomes zero, another infinity |
| TtyDevice.Terminal.PushChar | fs/tty.c:148-153 | appended, or dropped when the buffer is full |
| TtyDevice.Terminal.Erase | fs/tty.c:203-207 | that many cells off the end, stopping at a flag |
| TtyDevice.Terminal.InputChar | fs/tty.c:183-228 | one character through the canonical branch; readers are woken whenever a line is added |
| TtyDevice.Terminal.CanonSize | fs/tty.c:258-263 | one past the first flag, or -1 |
| TtyDevice.MoveDown | fs/tty.c:254-255 | the overlapping copy moves the cells down in order |
| TtyDevice.Terminal.ReadIntoBuf | fs/tty.c:251-256 | the first cells are returned and the rest moved down with their flags |
| TtyDevice.Terminal.ReadCanonical | fs/tty.c:270-308 | what a reader with a line gets and leaves |
| Tty.TypedEditsIff | fs/tty.c:183-228 | typing is the line editor of section 11.1.6 of IEEE Std 1003.1-2017, characters set to 0 disabled, if and only if the character is not NUL, or no control character is 0, or a full buffer hides it |
| Tty.NulEndsFile | fs/tty.c:209-223 | the failing case: a NUL typed on a terminal without VEOL ends the file |
| Tty.CommittedAsTyped | fs/tty.c:183-228 | where NUL is data, the lines that join the buffer are those the editor commits |
| Tty.NewlineModes | fs/tty.c:186-192 | what ICRNL, INLCR and IGNCR make of carriage return and line feed |
| Tty.ReadRefines | fs/tty.c:271-305 | a read returns the first line or its beginning and never crosses a line |
| Tty.ReadFaithfulIff | fs/tty.c:301-305 | it leaves what it should if and only if it does not swallow an end of file typed right after the line |
| Tty.LostEof | fs/tty.c:301-305 | the failing case: a line and an end of file, one read |
| Tty.RunFifo | fs/tty.c:155-312 | over every interleaving of typing and reading, the bytes read and those left are the committed bytes in order |
| Dwords.LittleEndian | kernel/user.c:3-13 | words are stored lowest byte first |
| LogBuffer.Log.Append | kernel/log.c:98-116 | the contents are the newest 2^20 bytes of contents and message |
| LogBuffer.Log.Gather | kernel/log.c:36-46 | chunks measured from the head, not the cursor, still collect the oldest bytes in bounds |
| LogBuffer.Log.SyslogRead | kernel/log.c:31-50 | the oldest bytes go to the process, all of them for a negative count; -1 if that fails |
| LogBuffer.Log.DoSyslog | kernel/log.c:57-90 | every action; a failed READ gives EFAULT and keeps the log |
| LogBuffer.CallMeaning | kernel/log.c:57-90 | READ takes the bytes it returns out of the log and stores them in the process, or fails and takes none; READ_ALL takes none; CLEAR and READ_CLEAR leave nothing unread; sizes and errors |
| LogBuffer.AppendsKeepNewest | kernel/log.c:98-116 | any number of appends keeps the newest bytes |
| LogBuffer.RunReadsTape | kernel/log.c:57-116 | over every run of appends and syslog calls the ring is a window on the stream: each byte is read once, in order, and lost only to a clear or to 2^20 newer unread ones |
| LogBuffer.ReadAllNewestIff | kernel/log.c:51-55 | READ_ALL returns the newest bytes, whatever the log holds, if and only if it returns none or all |
| ExecStack.CopyString | kernel/exec.c:377-382 | string and terminator just below sp |
| ExecStack.CopyStrings | kernel/exec.c:384-391 | all strings packed, the first one lowest |
| ExecStack.UserStrlen | kernel/exec.c:393-402 | the length of the string there |
| ExecStack.PutPointers | kernel/exec.c:320-335 | one word for each string, walking over the packed strings |
| ExecStack.CopyAll | kernel/exec.c:257-276 | strings, platform and random bytes in place, nothing below |
| ExecStack.PutTable | kernel/exec.c:312-341 | argc, both vectors and the auxiliary vector; the null words are the zeros of fresh pages |
| ExecStack.BuildStack | kernel/exec.c:249-343 | the whole stack image and esp |
| ExecStack.LayoutIs | kernel/exec.c:249-311 | where each part lies: 8 empty bytes, file name, strings, platform and random bytes on a boundary, the table below |
| ExecStack.WalkStack | kernel/exec.c:249-343 | from the aligned esp the program reads argc, every argv string, null, every envp string, null and the auxiliary vector |
| ExecStack.AuxByTag | kernel/exec.c:284-307 | a program that searches the auxiliary vector finds each value behind its tag, and the random bytes, the file name and the platform behind theirs |
| ExecStack.FreshStack | kernel/exec.c:244-249 | mapping the one stack page makes the stack ready and blank |
| StackRegion.WriteStack | emu/memory.c:236-248 | writes anywhere in the growing region succeed and change just those bytes |
| StackRegion.ReadStack | emu/memory.c:236-248 | reads anywhere in it return its bytes, zero where no page was mapped |
| HostMemory.Host.Peek | kernel/user.c:7-10 | the bytes behind a host pointer |
| HostMemory.Host.Poke | kernel/user.c:23-26 | those bytes of that block change and nothing else |
| HostMemory.Host.PickAddress | emu/memory.c:135-137 | an address for a struct data that is not in use |
| GuestMemory.NextMapped | emu/memory.c:239-241 | the first mapped page at or above p, with nothing mapped in between |
| GuestMemory.GrowView | emu/memory.c:236-248 | growth is seen as one zero-filled stack page, or nothing |
| GuestMemory.GrownEntry | emu/memory.c:246 | a grown page is a block of its own, writable, growing down, anonymous and not copy-on-write |
| GuestMemory.DropView | emu/memory.c:161-169 | dropping one entry removes that page from what processes see and keeps the invariant |
| UserCopy.ReadOne | kernel/user.c:6-11 | one byte of the loop, growth included |
| UserCopy.WriteOne | kernel/user.c:22-27 | one byte of the loop, growth and write protection included |
| SignalMasks.NextBit | kernel/user-signal.c:66-303 | what each event does to one signal in the three sets |
| SignalTask.Task.constructor | kernel/user-signal.c:186-194 | empty sets |
| SignalTask.Task.CallHandler | kernel/user-signal.c:114-172 | frame below esp in guest memory, flags collapsed, registers and mask set |
| SignalFrames.StepKeeps | kernel/user-signal.c:98-236 | every delivery, return and piece of handler code keeps the live frames |
| SignalFrames.RunKeeps | kernel/user-signal.c:98-236 | activations below a depth that does not return stay as they are over any run |
| SignalFrames.FrameFound | kernel/user-signal.c:216 | rt_sigreturn reads the frame that starts 8 bytes below esp |
| Mounts.InsertOrdered | fs/mount.c:50-56 | inserting keeps descending length, newest first among equals |
| Mounts.InsertedFirst | fs/mount.c:50-84 | a new mount is the first of its point, and removing it gives the list back |
| PathNormalize.Copy | fs/path.c:29 | text and terminator at that place of the buffer, what is before it kept |
| PathNormalize.StartsAt | fs/path.c:14-34 | an absolute path starts at the root of the process, a relative one at its working directory or the directory given |
| PathNormalize.Begin | fs/path.c:14-34 | the buffer holds the start directory, nothing for the root |
| PathNormalize.Expand | fs/path.c:86-94 | the text to restart on, absolute targets copied down |
| LogBuffer.Log.AppendChunk | kernel/log.c:101-115 | one chunk appended, head moved on by what falls out |
| LogBuffer.RingAppend | kernel/log.c:107-112 | storing a chunk at the tail and moving head and size keeps the newest bytes in order |
| LogBuffer.Log.Drop | kernel/log.c:63-64 | the oldest bytes are gone |
| LogBuffer.Log.Clear | kernel/log.c:73 | nothing is unread |
| ExecStack.StringAt | kernel/exec.c:320-335 | string i of the packed ones lies at the address the loop has reached |
| StackRegion.GrowStack | emu/memory.c:236-248 | touching a page of the region maps it and changes no byte |
| Float80.FromIntZero | emu/float80.c:198-213 | zero becomes positive zero |
| Float80.FromIntIs | emu/float80.c:198-213 | the magnitude shifted to the top bit, the exponent lowered as far: a supported number |
| Float80.ClzFacts | emu/float80.c:150-162 | normalising puts the top bit at the top and fits 64 bits |
| DoubleConversion.ToDoubleRounds | emu/float80.c:263-294 | in the normal range the result is the value rounded to the spacing of doubles there |
| DoubleConversion.SubnormalFrom | emu/float80.c:247-260 | a subnormal double becomes a normal 80-bit number |
| DoubleConversion.TwoRoundings | emu/float80.c:274-283 | when rounding twice differs from rounding once |
| Tty.ErasedLine | fs/tty.c:194-207 | erase and kill take from the line being typed and stop at its start |
| Tty.FlaggedCell | fs/tty.c:223 | a flag commits the line being typed |
| Tty.PlainCell | fs/tty.c:227 | an unflagged character joins the line being typed |
| LazyFlags.ResultShows | emu/interp.c:189-191 | zero, sign and parity of a sign-extended result are those of the result |
| LazyFlags.AddAuxiliary | emu/cpu.h:178 | the exclusive or of operands and sum shows the carry out of bit 3, a carry in included |
| LazyFlags.SubAuxiliary | emu/cpu.h:178 | and of operands and difference the borrow, a borrow in included |

## Left out

- GuestMemory: the second level of the page table is a sequence in a slot of the first-level array, not an array of its own; failure of `mmap`, `munmap`, `malloc` and `mprotect`; `MAP_SHARED` file mappings; wrap-around of 32-bit reference counts.
- HostMemory.Host.PtSetFlags: does not model the host's mprotect call and its failure, because backing pages are always accessible here.
- MemoryCalls: file mappings, flags other than the three protection bits, and `sys_brk` on a break of 0, which exec replaces.
- CpuRun: several threads sharing one address space, and the TLB across exec, where only the counter is compared.
- CpuRun.PollCoherent: assumes fewer than 2^32 changes between polls, because the counter is 32 bits wide; `PollMisses` says what happens otherwise.
- FutexProtocol: failure of `malloc` in futex_get, timeouts as times (they are a spontaneous wake-up), and wake counts other than one and all, where the source stops with a message.
- CpuFlags: shifts, rotates, multiplication and division, MUL flags, SAHF, and the opcode switch that calls these macros.
- CpuFlags.Cpu.Popf: the 32-bit form only; with a 16-bit operand size the source still pops 32 bits.
- Float80: arithmetic, comparison, and 128-bit operands of u128_shift_right_round, which only arithmetic uses; `unsigned long` is taken as 64 bits.
- DoubleConversion.ToDoubleChops: numbers of 2^1024 and more, which the source turns into infinity in every mode (`ToDoubleOverflows`).
- SignalFrames: the alternate stack, xsave_extra, and the floating point state in the frame.
- SignalTask.Task.DeliverSignal: the retry loop on the receiver's lock, and what the interrupted thread does then.
- SignalFrames.NestedHandlersReturn: the saved contexts must not be overwritten, and the handler's ret and the vdso's pop are part of what a handler does.
- PathNormalize.PathNormalize: the paths of root, working directory and open directory are parameters, so getpath and its errors are outside; links and mounts do not change meanwhile.
- Mounts: the file systems' own mount and umount, `malloc` failure, and the locking; a mount is named by a serial number.
- Tty: echo, ISIG scanning, non-canonical mode, changes of mode, polling, and waiting itself: a reader acts once there is a line. `char` is taken as unsigned.
- LogBuffer: line assembly and formatting in front of log_buf_append.
- ExecStack: reading and mapping the program and its interpreter; arguments that do not fit the room below the stack page, where exec fails half-way and the process has to be killed. The host pointer that sets the first gap is 8 bytes.
- UserCopy: user_memset and copies to another process, which are the same loops.
- Sockets, real and fake file systems, poll, timers, the SQL wrapper and the user interface: long, but shallow.
