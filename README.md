# A verified model of the xv6 process table, trap handler and user library

This project models three parts of an xv6 kernel extended with an MLFQ scheduler,
threads, file-backed `mmap` and user mutexes:

- **proc.c**: the process table and its operations.
  - `ptable.proc` is a `class Kernel` over an `array<Proc>` of 64 control blocks,
    with `nextpid`, `global_mmap_count`, the tick counter, the page tables, the mutex
    cells (one per page table and user address) and a log of the calls into code outside the core.
  - The operations update the table in place: `allocproc`, `fork`, `clone`, `exit`,
    `wait`, `join`, `sleep`, `wakeup1`, `yield`, `kill`, `setnice`, `mmap`, `munmap`,
    `mutex_lock`, `mutex_unlock` and the MLFQ dispatch of `scheduler`.
  - Each operation keeps the table invariant `Valid()`. Part of that invariant:
    the global mapping count equals the number of used memory-map slots in the
    table, and never exceeds 16.
  - Each has a contract that gives the new table as a function of the old one.
    Lemmas in `ProcSpec` and `Mlfq` state what those functions mean.
- **trap.c**: the trap handler's decisions.
  - The page-fault branch is a classifier (`ClassifyFault`) plus the method that
    carries the decision out.
  - Also modelled: the timer-interrupt accounting (ticks, time slice, demotion),
    the default case, and the exit of a killed process trapping from user mode.
- **ulib.c**: the user library.
  - `strcpy`, `strcmp`, `strlen`, `strchr`, `atoi` and `memmove` work on one flat
    byte memory, where a pointer is an index.
  - Also modelled: the stack alignment and outcome of `thread_create`, and the
    `joined_threads` cache of `thread_join`.

Collaborators are parameters or entries of the event log `events`:

- `kalloc` and `copyuvm` results are parameters.
- Whether `mappages` could find or allocate the page-table page is a parameter;
  its panic on an entry that is already present is modelled.
- `kfree`, `freevm`, `filedup`, `fileclose`, `idup`, `iput`, `readi` and `writei`
  are logged events.
- `myproc()` is the slot index `cur`, and the results of `join()` seen by
  `thread_join` are a sequence of replies.

C `uint` arithmetic is computed modulo 2^32 (`Wrap`) wherever the source relies on
it: the relocated stack of clone, file offsets, a slot's end address, and the page
rounding of `thread_create`.

Modules:

| file | module | contents |
|---|---|---|
| common.dfy | Common | `Option`, 32-bit integers and wrap-around, page rounding, bit tests |
| proc_types.dfy | ProcTypes | constants, `Proc`, `MmapSlot`, `Pte`, `Event`, the per-slot invariant |
| proc_spec.dfy | ProcSpec | the scans and per-slot updates as functions, and their lemmas |
| mlfq.dfy | Mlfq | the dispatch order of the MLFQ scheduler and lemmas about it |
| proc.dfy | ProcTable | `class Kernel`: the process-table operations |
| trap.dfy | Trap | the fault classifier, the fault, timer and default paths of `trap` |
| ulib.dfy | ULib | the user library and `class JoinCache` |

## Model

| member | source | states |
|---|---|---|
| ProcSpec.FirstUnusedFrom | proc.c:91-93 | the result is the first UNUSED slot at or after the start, or none when every later slot is in use |
| ProcSpec.FirstWithPidFrom | proc.c:714-715 | the first slot holding the pid, or none when no later slot holds it |
| ProcSpec.FirstZombieFrom | proc.c:365-369 | the first ZOMBIE child of the caller in table order (thread children only for join, proc.c:412), or none |
| ProcSpec.FirstFreeMmapFrom | proc.c:805-810 | the first unused memory-map slot, or none when all are used |
| ProcSpec.FindMappingFrom | proc.c:888-893 | the first used memory-map slot at the address, or none |
| ProcSpec.Allocated | proc.c:99-112 | definition, no contract of its own: EMBRYO with the next pid, nice 2, no ticks, level 0 and a full slice, or UNUSED again (the pid consumed) when kalloc gave no kernel stack |
| ProcSpec.ForkChild | proc.c:211-243 | definition, no contract of its own: the RUNNABLE child of fork, a process (tid = pid) with the parent's nice, size, trap frame (eax 0), files and cwd, the new page table and the given parent slot |
| ProcSpec.CloneChild | proc.c:260-290 | definition, no contract of its own: the RUNNABLE thread of clone, with the caller's pid and page table, its own fresh id as tid, the stack pointers relocated onto the new stack, eax 0, files and cwd inherited |
| ProcSpec.Reaped | proc.c:372-381 | definition, no contract of its own: the UNUSED slot wait (pgdir handle kept) or join (proc.c:417-424, handle cleared) leaves, with pid 0, no kernel stack, no parent and `killed` cleared |
| ProcSpec.ExitTable | proc.c:332-347 | definition, its contract keeps only the table size (ExitTableAt, ExitSlotSpec and ExitTableSpec state its meaning): the parent woken, the re-parenting loop over the whole table, the caller ZOMBIE |
| ProcSpec.Clamp | proc.c:599-602 | the clamped value lies in [lo, hi], equals x inside the range and the nearer bound outside it |
| ProcSpec.UnmappedAll | proc.c:311-315 | after exit's munmap loop no slot is used and an unused slot is unchanged |
| ProcSpec.WakeAllSpec | proc.c:691-693 | a slot changes exactly when it is SLEEPING on the channel; only its state changes, to RUNNABLE; waking twice is waking once |
| ProcSpec.ExitTableAt | proc.c:335-347 | each slot after exit is: the parent woken, the caller's children adopted by init, init woken when a zombie child was passed, the caller ZOMBIE |
| ProcSpec.ExitSlotSpec | proc.c:335-347 | for one slot: the parent becomes init exactly when it was the caller; nothing but state and parent changes; the caller is ZOMBIE; another slot only goes from SLEEPING to RUNNABLE on the parent's or init's channel; a parent waiting on its own channel is woken; init is woken when a zombie child was passed |
| ProcSpec.ExitTableSpec | proc.c:335-347 | the same for every slot at once, and no slot keeps the exiting caller as parent |
| ProcSpec.UnmapWalkStep | proc.c:902-926 | one trip of munmap's page loop: the entry at the current page is handled, then the loop continues one page on with one page less |
| ProcSpec.UnmapWalkPtSpec | proc.c:902-926 | after the page loop, an entry is cleared exactly when it is a present entry on one of the walked pages; no entry is added or removed |
| ProcSpec.UnmapWalkWritesBack | proc.c:905-919 | every dirty present page on the walk is written at file offset (va - addr) + offset with min(bytes left, PGSIZE) bytes, and its frame is freed immediately after |
| ProcSpec.UnmapWalkFrees | proc.c:905-919 | the frame of every present page on the walk with a non-zero address is freed |
| ProcSpec.OnWalkStep | proc.c:924-925 | a page on the walk other than the first is on the walk that starts one page later |
| ProcSpec.UsedSlotsUpdate | proc.c:802 | replacing one memory-map slot changes the number of used slots by the change of that slot |
| ProcSpec.LiveMappingsUpdate | proc.c:802 | replacing one control block changes the table's live-mapping count by the change in that block's used slots |
| ProcSpec.LiveMappingsFrame | proc.c:933 | two tables with the same memory-map slots have the same live-mapping count |
| ProcSpec.UsedSlotsNone | proc.c:929 | a slot table with no used slot counts zero |
| ProcSpec.LiveMappingsZero | proc.c:933 | a table whose blocks count no used slot counts zero |
| ProcSpec.WindowsDisjoint | proc.c:820 | the windows of two different slots never share an address when both lengths are at most 1 MiB |
| ProcSpec.WindowsOverlapWhenLong | proc.c:820-825 | a length over 1 MiB makes slot k's window cover the start of slot k+1's |
| ProcSpec.MmapBaseProperties | proc.c:820 | every mapping address is page-aligned, lies in [0x40000000, KERNBASE) and differs from MAP_FAILED |
| ProcSpec.RelocateStack | proc.c:265-270 | the child's esp is the new stack plus the caller's offset in its stack page; ebp moves by the same distance modulo 2^32 |
| ProcSpec.UnmapAllStep | proc.c:312-315 | one trip of exit's munmap loop: a used slot has its pages walked and its file closed, then counts as unmapped; an unused slot is skipped |
| ProcSpec.FindMappingOwnSlot | proc.c:313-314 | the munmap that exit calls for used slot k finds slot k, at a page-aligned address |
| ProcSpec.AdoptStep | proc.c:338-344 | one trip of the re-parenting loop: a child of the caller gets init as parent, any other slot is left alone |
| ProcSpec.WakeAdopted | proc.c:341-342 | waking init again after a wake changes nothing more |
| ProcSpec.TableOkUpdate | proc.c:802 | storing a well-formed block keeps the table invariant when the global count follows the change in used slots |
| Mlfq.NextEligible | proc.c:547-548 | the first RUNNABLE slot at the level at or after the position, or none |
| Mlfq.Pick | proc.c:544-561 | the slot the scan dispatches next is schedulable; the scan continues after it at its level; finding nothing restarts at level 0 |
| Mlfq.PickFromLevel | proc.c:545-561 | a scan from level l dispatches the first schedulable slot in (level, index) order among levels l and below, and finds nothing only when there is none |
| Mlfq.PickFresh | proc.c:545-561 | a fresh pass runs the lowest-level, lowest-index RUNNABLE slot, and finds nothing exactly when no slot is RUNNABLE |
| Mlfq.PickAfterDispatch | proc.c:547-560 | after a dispatch the scan keeps to its level until the level is exhausted, then starts again at level 0 |
| Mlfq.PickNoneMeansIdle | proc.c:545-561 | from the start of a pass or just after a dispatch, finding nothing means no slot is RUNNABLE |
| ProcTable.Kernel.constructor | proc.c:20 | the boot table: every slot UNUSED and zeroed, nextpid 1, no mapping |
| ProcTable.Kernel.SetSlot | proc.c:99-104 | the store of one control block: the table invariant is kept and only slot `i` changes, to the given block (the caller keeps the slot's memory-map slots, so the global count stays right) |
| ProcTable.Kernel.AllocProc | proc.c:84-112 | claims the first UNUSED slot: EMBRYO with pid = old nextpid, nice 2, ticks 0, level 0, slice 4, and nextpid goes up; back to UNUSED when kalloc fails; no change without an UNUSED slot |
| ProcTable.Kernel.DupFiles | proc.c:228-230 | returns the inherited file table and logs one filedup per open parent entry, in order |
| ProcTable.Kernel.Fork | proc.c:196-248 | a thread caller or a full table gets -1 with no change; otherwise the allocproc slot becomes the child (failed kstack, failed copyuvm with kfree, or RUNNABLE with the caller as parent, tid = pid, the parent's nice and eax 0) and the child's pid is returned; on success the child's page table gets a copy of every mutex cell of the parent's (as copyuvm copies the lock words), and no other address space's cells change |
| ProcTable.Kernel.ForkInto | proc.c:211-247 | the part after allocproc: a failed copyuvm frees the kernel stack and leaves the slot UNUSED; otherwise the RUNNABLE child, the copy of the parent's mutex cells into the child's page table, and the filedup and idup calls |
| ProcTable.Kernel.Clone | proc.c:251-295 | an unaligned stack or a full table gets -1 with no change; otherwise the child shares the caller's pgdir and pid, takes the new pid as tid, is a thread with eax 0, has its esp and ebp moved onto the new stack, and the stack page is copied |
| ProcTable.Kernel.CloneInto | proc.c:260-294 | the part after allocproc: the RUNNABLE thread, the stack copy, the filedup and idup calls, the returned tid |
| ProcTable.Kernel.Wakeup1 | proc.c:686-694 | the new table is WakeAll of the old one |
| ProcTable.Kernel.Sleep | proc.c:665-669 | the caller alone changes: channel set, SLEEPING, time slice 4 |
| ProcTable.Kernel.SleepReturn | proc.c:674 | the caller's channel is cleared and nothing else changes |
| ProcTable.Kernel.Yield | proc.c:611-618 | the caller becomes RUNNABLE and keeps its time slice |
| ProcTable.Kernel.Kill | proc.c:709-726 | the first slot with the pid is killed and woken if SLEEPING, returning 0; with no such slot the result is -1 and nothing changes |
| ProcTable.Kernel.SetNice | proc.c:596-607 | nice becomes clamp(nice + value, -5, 4), which is returned; nothing else changes |
| ProcTable.Kernel.FreeMmapSlot | proc.c:805-810 | returns the first free memory-map slot of the caller |
| ProcTable.Kernel.Mmap | proc.c:785-829 | bad arguments, 16 live mappings or no free slot give MAP_FAILED with no change; otherwise the first free slot is filled, the count goes up, the file is duplicated, and 0x40000000 + slot * 0x100000 is returned, a page-aligned user address |
| ProcTable.Kernel.FindMmapSlot | proc.c:888-893 | returns the first used slot at the address |
| ProcTable.Kernel.ReleasePage | proc.c:905-919 | logs the write-back of a dirty page, then the kfree of a non-zero frame |
| ProcTable.Kernel.UnmapPages | proc.c:899-926 | the page table and the log after munmap's page loop are the walk functions of the old table |
| ProcTable.Kernel.UnmapSlot | proc.c:899-936 | the pages are walked, the file is closed, the slot becomes unused and the global count goes down |
| ProcTable.Kernel.Munmap | proc.c:881-938 | an unaligned address gives (uint)-1; no matching slot gives 0 and no change; a length mismatch gives (uint)-1 and no change; otherwise the slot is released and 0 returned |
| ProcTable.Kernel.ExitUnmapSlot | proc.c:313-314 | a used slot is unmapped as munmap does; an unused slot is skipped; other page tables are untouched |
| ProcTable.Kernel.UnmapAllTrip | proc.c:312-315 | one trip of exit's munmap loop, stated against the state on entry to the loop |
| ProcTable.Kernel.UnmapAll | proc.c:311-316 | every used slot is unmapped, in index order; the count drops by the number of used slots; other page tables are untouched |
| ProcTable.Kernel.CloseFiles | proc.c:318-324 | every open file is closed in index order and the file table is cleared |
| ProcTable.Kernel.Reparent | proc.c:338-344 | every child of the caller gets init as parent, and init is woken when one of them is a ZOMBIE |
| ProcTable.Kernel.ReleaseResources | proc.c:311-330 | a process that is not a thread unmaps its slots, closes its files and releases its cwd |
| ProcTable.Kernel.BecomeZombie | proc.c:332-347 | the new table is ExitTable of the old one |
| ProcTable.Kernel.Exit | proc.c:300-350 | init panics with no change; otherwise the table is ExitTable of the table with the caller's resources released (nothing released for a thread), plus the matching log, page tables and count |
| ProcTable.Kernel.ScanChildren | proc.c:365-385 | the first zombie child, and whether the caller has any qualifying child |
| ProcTable.Kernel.Wait | proc.c:355-396 | reaps the first ZOMBIE child in table order (thread children included) and returns its pid, freeing its pgdir only when it is not a thread, with the mutex cells of that address space; no child or a killed caller gives -1; otherwise the caller sleeps on its own slot |
| ProcTable.Kernel.Join | proc.c:399-438 | a thread caller gets -1; reaps the first ZOMBIE thread child, returns its tid and clears its pgdir without freeing it; no thread child or a killed caller gives -1; otherwise the caller sleeps |
| ProcTable.Kernel.MutexLock | proc.c:940-953 | the cell is the one at address `l` in the caller's own page table; a free cell becomes 1 and 0 is returned with the table unchanged; a taken cell leaves every cell as it was and puts the caller to sleep on `l` |
| ProcTable.Kernel.MutexUnlock | proc.c:955-966 | the cell at `l` in the caller's own page table becomes 0 and no other cell changes; every slot sleeping on the address `l`, in any address space, is woken; 0 is returned |
| ProcTable.Kernel.ScanLevel | proc.c:547-548 | returns the next RUNNABLE slot at the level |
| ProcTable.Kernel.Dispatch | proc.c:544-561 | runs the slot Pick chooses (it becomes RUNNING) and returns the next cursor; nothing changes when there is none |
| Trap.MatchSlotFrom | trap.c:62-67 | the first used slot whose window [addr, addr + length) holds the address, or none |
| Trap.ClassifyFault | trap.c:52-125 | a file-page decision names an existing slot and the page-aligned page holding the address |
| Trap.KernelFaultKills | trap.c:56-59 | a fault at or above KERNBASE only kills |
| Trap.FileFaultSpec | trap.c:62-93 | a file page is mapped exactly for a user address in a slot window, unless a write faults in a slot without write permission; it maps the first such slot's page, at file offset (page - addr) + offset, with the read count, writable exactly when the slot is |
| Trap.HeapFaultSpec | trap.c:102-121 | outside the windows, a present-bit fault kills, an address below sz maps one zeroed page at its page, and otherwise the fault falls through |
| Trap.FaultMatchesWriteBack | trap.c:83-86 | the faulted page is one munmap walks, and the read count is min(addr + length - page, PGSIZE), between 1 and PGSIZE |
| Trap.FindFaultSlot | trap.c:62-67 | returns the first slot whose window holds the address |
| Trap.ReadCount | trap.c:85-86 | definition, no contract of its own (FaultMatchesWriteBack states its meaning): a whole page, or the bytes of the window left from the page, compared in `uint` and converted to `int` |
| Trap.PageFault | trap.c:52-125 | carries the decision out: kill with no change; read the file page and map it, or map a zeroed page; for a failed kalloc, kill; for a failed mappages, free the page and kill; a page that already has a present entry panics (remap) after the read and changes nothing more; fall through without change |
| Trap.MapPage | trap.c:92-98 | panics exactly when the page already has a present entry, changing nothing; otherwise maps the page present, clean and writable as asked, or, when mappages fails, frees it and kills the process |
| Trap.Charge | trap.c:139-146 | definition, no contract of its own (ChargeSpec states its meaning): one tick more, one slice unit less, a used-up slice moves one level down, never below 2, with a new slice of 4 |
| Trap.Tick | trap.c:139-151 | definition, no contract of its own: Charge, then RUNNABLE by the yield of either branch |
| Trap.ChargeSpec | trap.c:139-146 | a tick keeps the level in [0, 2] and the slice in [1, 4], adds one tick, demotes one level exactly when the last slice unit is used above the lowest level, and changes nothing else |
| Trap.SliceThenDemote | trap.c:139-146 | fewer ticks than the slice keep the level; exactly the slice demotes once (capped at 2) and restores a full slice |
| Trap.ChargeTicks | trap.c:139 | n ticks add n to the tick count |
| Trap.TimerTick | trap.c:129-155 | on CPU 0 the counter goes up modulo 2^32 and its sleepers wake; a RUNNING current process is charged and becomes RUNNABLE |
| Trap.UnexpectedTrap | trap.c:183-196 | with no process or from kernel mode the kernel panics with no change; otherwise the process is killed |
| Trap.ExitIfKilled | trap.c:44-49 | a killed process trapping from user mode exits (init panics); otherwise nothing changes; an exit has the whole effect of `exit`: the table becomes ExitTable of the cleaned slot, a process (not a thread) unmaps its memory maps, closes its files and puts its cwd in that order, its page table loses those mappings, no other page table changes, and the global map count drops by its used slots |
| ULib.CLen | ulib.c:38-40 | the length is the index of the first NUL after the pointer |
| ULib.CStr | ulib.c:38-40 | a string's bytes, of that length, none of them NUL |
| ULib.Strlen | ulib.c:33-41 | returns the index of the first NUL |
| ULib.Strcpy | ulib.c:14-23 | for a destination disjoint from the string or starting at or before it: copies the string and its terminator to the destination, writes nothing else, and returns the destination; the copy is the same string |
| ULib.CopyThroughNul | ulib.c:20-21 | for a destination disjoint from the source or starting at or before it, the loop writes the string's bytes and its terminator to the destination in order, and nothing else |
| ULib.CLenOfCopy | ulib.c:19-21 | a byte-for-byte copy including the terminator is a string of the same length and bytes |
| ULib.CLenIs | ulib.c:38-40 | the string length is the index of the first NUL |
| ULib.StrDiffSpec | ulib.c:28-30 | strcmp's value is 0 exactly for equal strings, and swapping the strings negates it |
| ULib.Strcmp | ulib.c:25-31 | returns the unsigned byte difference at the first mismatch or terminator |
| ULib.FindByte | ulib.c:53-56 | the first position holding the byte, or none when no byte matches |
| ULib.Strchr | ulib.c:50-57 | returns the address of the first c before the terminator, or none |
| ULib.StrchrNul | ulib.c:53-56 | strchr for the NUL byte finds nothing |
| ULib.DigitCount | ulib.c:97 | the length of the leading run of decimal digits; the byte after it is not a digit |
| ULib.Atoi | ulib.c:91-100 | returns the value of the leading digit run, so a sign or any other byte stops the loop |
| ULib.AtoiDecimal | ulib.c:96-99 | atoi of a number printed in decimal, followed by a non-digit, is that number |
| ULib.ValueDecimal | ulib.c:98 | the fold n*10+d of a number's decimal digits is the number |
| ULib.Memmove | ulib.c:102-113 | the memory after the call is the byte-by-byte forward copy, and dst is returned |
| ULib.ForwardCopy | ulib.c:110-111 | definition: the byte-by-byte forward copy, each byte read after the writes before it; its contract states only that the memory size is kept (ForwardCopyFrame, ForwardCopyMoves and ForwardCopyOverlapCounterexample state its meaning) |
| ULib.ForwardCopyFrame | ulib.c:110-111 | the forward copy writes only the destination |
| ULib.ForwardCopyMoves | ulib.c:110-111 | when dst does not start inside the source (dst <= src, or disjoint regions) the destination ends as the old source and nothing else changes |
| ULib.ForwardCopyOverlapCounterexample | ulib.c:110-111 | with dst = src + 1 and n = 2 the forward copy leaves 1,1,1 where a move leaves 1,1,2 |
| ULib.BackwardCopyFrame | ulib.c:110-111 | the backward copy of the corrected memmove writes only the destination |
| ULib.BackwardCopyMoves | ulib.c:110-111 | the backward copy moves when dst >= src |
| ULib.MoveCopyMoves | ulib.c:102-113 | the corrected memmove moves for every pair of regions |
| ULib.MemmoveSafe | ulib.c:102-113 | the corrected memmove method computes the corrected copy and returns dst |
| ULib.AlignStackSpec | ulib.c:117-130 | the aligned stack is a multiple of 4096 in [orig, orig + 4096), and its page ends inside the 8192-byte block, so it passes clone's check (proc.c:256) |
| ULib.ThreadCreate | ulib.c:115-150 | definition of the outcome for each malloc and clone result, no contract beyond its branches: -1 after a malloc or clone failure (the block freed after a clone failure), the thread path for 0, the tid otherwise |
| ULib.ThreadCreateCall | ulib.c:115-150 | run against the kernel's clone: the caller always gets a value back; -1 exactly when malloc failed, the table is full or kalloc failed, never because of clone's alignment check (proc.c:256); the block is freed exactly when clone failed; otherwise the tid is the next pid and the new slot is clone's child on the aligned stack; without a malloc block nothing in the kernel changes |
| ULib.AlignStack | ulib.c:125-130 | definition, no contract of its own (AlignStackSpec states its meaning): the block address when page-aligned, else `(addr + 4096) & ~0xFFF` in `uint` |
| ULib.FirstCachedFrom | ulib.c:158-163 | the first used cache entry holding the tid, or none |
| ULib.FirstFreeFrom | ulib.c:176-181 | the first unused cache entry, or none |
| ULib.JoinLoopSpec | ulib.c:165-183 | the loop returns at the first reply that is -1 or the tid: 0 for the tid and -1 for an error; more replies are needed only when there is no such reply |
| ULib.StoredThenFound | ulib.c:158-182 | a tid stored while the cache has room is later found at once: thread_join returns 0 without calling join and frees the entry |
| ULib.JoinCache.constructor | ulib.c:9-12 | the zero-initialised cache of 64 entries, none used |
| ULib.JoinCache.FindCached | ulib.c:158-163 | returns the first used entry holding the tid |
| ULib.JoinCache.StoreTid | ulib.c:176-182 | the tid is stored in the first free entry; with none, nothing changes |
| ULib.JoinCache.ThreadJoin | ulib.c:152-184 | a cached tid returns 0 and frees its entry; otherwise the join replies are consumed as the loop function says |

## Left out

- Hardware and CPU plumbing are not modelled: the CPU identity, context switches
  (`sched`, `swtch`), `switchuvm`, interrupt enabling, `lapiceoi`, the device
  interrupt cases (trap.c:156-180) and the context setup in allocproc
  (proc.c:113-127).
- Spinlocks, `tickslock` and `mmap_lock` are not modelled. Each operation is one
  atomic step.
- `userinit`, `growproc`, `procdump` and `procdump_ps` are left out. They are
  wrappers over the collaborators or only print.
- The commented-out schedulers (proc.c:449-530) and the disabled eager mapping
  path of mmap (proc.c:831-877) are left out. They are dead code.
- `gets` and `stat` are left out because they do I/O. `memset` is inline assembly
  and is left out too.
- The system-call wrappers in sysproc.c are not part of this model.
- The file contents behind `readi` and `writei` are not modelled. They are events.
- The page allocator, `copyuvm` and `freevm` are not modelled. Their results are
  parameters and their calls are events, and the child's copied page table is not
  modelled. Of the copied user memory only the mutex cells are modelled.
- ProcTable.Kernel.MutexLock, ProcTable.Kernel.MutexUnlock: a mutex cell changes only
  through these two calls, fork's copy and wait's freevm. A plain user store to the
  cell's address is not modelled.
- The MMU is not modelled. It sets the dirty bit, so the dirty bits found by
  munmap are inputs.
- Physical and kernel-virtual page addresses are the same handle (`V2P`/`P2V`
  is the identity).
- The `PTE_U` bit is not modelled, since every page the core maps is a user page.
- Trap.MapPage: xv6's vm.c is not part of this model. mappages is modelled from its known behaviour: it panics on a present entry; otherwise `mapOk` says whether it could find or allocate the page-table page.
- The loops that sleep (`wait`, `join`, `mutex_lock`) are modelled one trip per
  call, up to the `sleep` inside them. `Blocked` means the caller now sleeps, and
  the next trip is another call.
- The scheduler's infinite loop is modelled one dispatch per call of `Dispatch`.
- ProcTable.Kernel.Fork: pid, nice and tick counters are unbounded integers, so
  the 32-bit overflow of `nextpid++` is not modelled.
- ProcTable.Kernel.SetNice: the sum `nice + value` is not wrapped to 32 bits. An
  overflowing `value` is undefined behaviour in C.
- ULib.Atoi: the result is an unbounded integer. The `int` overflow of a long digit
  run is undefined behaviour in C and is not modelled.
- Trap: trap numbers are not modelled. The page-fault branch (`PageFault`), the
  timer case (`TimerTick`), the default case (`UnexpectedTrap`) and the
  killed-process checks (`ExitIfKilled`) are separate methods with no dispatcher
  over them.
- The system call itself is not modelled. The checks before and after it are
  `ExitIfKilled` with `fromUser` true.
- The final exit check is written twice in trap.c (lines 201-202 and 208-209).
  After the first check the process has exited, so the second never fires, and
  the model has one check.
- ULib.Strcpy: a destination that starts inside the source string is excluded by
  its precondition. The loop then overwrites bytes of the source before reading
  them, and may never meet the terminator; C leaves every overlapping strcpy
  undefined.
- ULib.ThreadCreate, ULib.ThreadCreateCall: `malloc`, `free`, `printf` and the call
  of the thread function are not modelled. `orig` is what malloc returned, and the
  outcome says whether the block is freed. The thread's own path (clone returning
  0 in the child) is in `ThreadCreate` only, since the caller never takes it.
- ULib.JoinCache.ThreadJoin: `join()` is not called. Its successive results are
  the `replies` parameter, and the loop ends with `None` when they run out.

Behaviour of the source that the model keeps as written:

- mutex_unlock wakes every process sleeping on the same user address, in any
  address space, since the sleep channel is the bare pointer (proc.c:961); a woken
  process of another address space re-checks its own cell and sleeps again.
- A thread's memory-map slots are never unmapped by exit (proc.c:311) and stay
  counted in the global count.
- A reused slot keeps the stale memory-map slots of its previous owner. The count
  invariant still holds, because those slots stay counted.
- kill(0) can mark an UNUSED slot, since freed slots have pid 0.
- wait reaps thread children too (proc.c:366).
- yield does not reset the time slice.
- fork and clone leave a child's file entry stale where the parent's entry is closed
  (`Inherit`).
- mmap accepts a negative page-aligned offset.
- Mapping windows overlap when a length exceeds 1 MiB (`WindowsOverlapWhenLong`).
- A process killed inside the page-fault branch returns to user mode, because that
  branch returns before trap's final check (trap.c:58, trap.c:73, trap.c:99). It
  exits at a later trap.
- munmap's `curr_addr` never wraps: addresses are at most 0x40300000 and lengths
  are below 2^31.

## Findings

| source | as written | input that shows it | evidently intended | confidence | as-written member | corrected member |
|---|---|---|---|---|---|---|
| ulib.c:110-111 | memmove always copies forward, lowest address first | src = 0, dst = 1, n = 2 over bytes 1, 2, 3 gives 1, 1, 1 instead of 1, 1, 2 | a move for overlapping regions, as the C library's memmove promises (copying backward when dst starts inside the source) | not executed; medium, since no caller in this repository passes overlapping regions | ULib.ForwardCopyOverlapCounterexample | ULib.MoveCopyMoves |
