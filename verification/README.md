# Velora OS, verified

A Dafny model of the Velora OS kernel and of its shell, with machine-checked proofs of what the kernel
keeps in every run. `dafny verify dfyconfig.toml` checks the whole project.

The modules follow the kernel's components.

- **Memory**: `Frames` (the frame allocator), `Paging` (four-level tables and walks), `Mapping` (`map_to`),
  `AddressSpace` (teardown), `Ownership` (creation and mapping), `Elf`, `Loader`, `LoaderTheorems`,
  `LoaderFailures`, `LoaderCode` and `WrittenPrograms` (the ELF loader), `StackSharing` and `SpawnCode` (kernel
  stacks in isolated spaces), `Partition` and `FreshFrames` (whole runs).
- **Scheduling**: `Scheduler` and `SchedulerCode` (the thread table and ready queue), `SchedulerRuns` and
  `SchedulerTheorems` (every interleaving with interrupts), `Pids`, `Context` and `ContextRuns`
  (`switch_to`), `Switching` (scheduler and processor together), `SyscallEntry` (the system-call gate), `System`
  (threads and memory together), `Spawning` (loading, stack sharing and launch seen as one).
- **Files and input**: `Fat16` and `Fat16Limits`, `UserAccess` and `Reads` (validated user memory and `sys_read`),
  `Wakeup` (keyboard interrupts and the executor), `Shell` and `ShellCode` (keys, escape sequences, the line editor),
  `InputPath` (keyboard, input queue and shell together).
- `Format` writes the ELF and FAT layouts out field by field, as partners of the readers.
- `Basics` and `Bits` hold shared vocabulary and word arithmetic.

Code that changes things step by step is a class or a method proved against a function or a relation on
values; the theorems are about those. Concurrency is modelled as a state machine whose steps are the
code's own lock scopes and register writes, with interrupts between any two steps where they are enabled.

## What the proofs assume

- `map_to` belongs to the `x86_64` crate. Its contract is the function `Mapping.MapTo`: it allocates and
  zeroes missing tables, refuses a present leaf and a huge parent, and adds flags to parents.
- `VirtAddr` belongs to the same crate, version 0.14.13 (`Cargo.lock:211-213`). `try_new` is `Paging.TryNew`: an
  address in [2^47, 2^48) is accepted and sign-extended, one in [2^48, 2^64 - 2^47) is refused; `new` and
  `+` panic where `try_new` refuses.
- The boot loader hands over a kernel L4 that is a tree of tables (`Mapping.TableTree`), with its tables and the
  pages of its private slots outside the usable regions, and regions that do not overlap.
- The processor's interrupt gates, `AtomicWaker`, the bounded queues and `spin` locks behave as documented:
  registering and waking are atomic, queues are bounded FIFOs, a lock scope with interrupts off is one step.
- Kernel stacks are fresh, page-aligned, pairwise disjoint allocations, mapped in the kernel's table in private
  L4 slots of the lower half, as the heap at `src/allocator.rs:9` is.
- A running thread writes neither another thread's stack nor a saved stack pointer outside `switch_to`
  (`ContextRuns.Work`).
- Callers of `spawn` run under the kernel's table: boot code does, and `sys_spawn` loads it first
  (`src/syscall.rs:424-433`); it is the guard of the step `SchedulerRuns.Launch`.
- User data pages are not page tables, so copying to user memory leaves the walks as they are.
- Hypotheses stated in the theorems that need them: ELF pages in private L4 slots (`AllPrivate`) for what a load
  or a spawn leaves behind; enough frames for `LoadPanicsWhen`; a physical-memory window closed to ring 3 for
  `SpawnedReach`; a cluster walk that ends (`Ends`) for `Fat16.ReadChain` and `Fat16.ReadFile`; generations
  below 2^56 for pids; no lone Escape for `Shell.KeysArrive`, but not for `Shell.AllKeysArrive`; fewer than 128
  bytes waiting whenever one arrives for `InputPath.KeysReachShell`; the boot thread does not call exit.

## Where the code differs from its documentation

- **A refused load can lose frames.** `elf::load` gives back exactly what the half-built space owns. A page
  mapped in slot 0 or in the physical-memory slot is owned by no space. `RefusedLoadReturnsFrames` gives the
  exact condition; `RefusedLoadLosesFrames` exhibits a 64-byte file and a machine where it happens.
- **`elf::load` can panic** on a file, where `src/elf.rs:91` says never. `LoadPanicsWhen` gives the exact condition:
  two pages to be mapped coincide, or one lies in a shared slot where the kernel's table already maps it or covers
  it with a huge page, or a segment starts in the lower half and its last byte, sign-extended by
  `try_new` if it is in [2^47, 2^48), is an address of the upper half. `OverlappingSegmentsPanic` is a file with two segments on one
  page, `LowStackPanics` one whose stack page clashes.
- **At most one zombie** holds only when exits run with interrupts off. `RolesStep` is exact;
  `InterruptedExitLosesSlot` is a run of two kernel threads that call `exit_current_thread` with interrupts
  on, as `src/main.rs:508-510` does, and lose a slot for good.
- **The heap under the kernel table.** `reap_zombie` forces the kernel's table and then frees memory. If its
  caller has its own table and interrupts on, as in `src/main.rs:519-521`, a timer interrupt in between
  resumes it under its own table. `HeapUnderKernelTable` and `ExposedReaperFaults` give both directions;
  `ExposedReaperReached` is a run from boot that gets there.
- **`free_table`'s rebuilt address** lacks the sign extension above slot 255 (`AssembledIsCanonical`).
- **`user_range_ok` checks the sign-extended address**, while the copy goes through the raw pointer. `UsableRight` says
  exactly when the answer is wrong for the raw bytes; `EndOfLowerHalfMisleads` is an example. It needs an upper
  half open to ring 3, which no spawned program has (`SpawnedReach`). `user_range_mapped` itself panics on
  a last byte in [2^48, 2^64 - 2^47) (`CheckPanicsWhen`), which the system calls' lengths never reach
  (`ShortChecksAnswer`).
- **A dropped wakeup is fatal with several tasks.** The comment on `wake_task` expects the woken one to run later;
  `WakeupCanBeDropped` is a run that drops one, and `StuckForever` shows a reader that never runs again. With one
  task it cannot happen.
- **Reading a file can loop for ever**: exactly for a non-empty file on a volume with `sectors_per_cluster == 0`
  whose chain comes back to a cluster within 0xFFF6 links (`ReadingEnds`, `CyclicWhen`). `ReadingCanLoop` is such
  a volume.
- **FAT lookups** are not limited to the FAT's size (`FatEntryFits`).
- **The directory scan** covers the whole last sector: it can return an entry beyond `root_entry_count` exactly when
  that count is no multiple of 16 (`EntryBeyondDeclared`).

## Model

| member | source | states |
|---|---|---|
| `Frames.BootInfoFrameAllocator.constructor` | src/memory.rs:337-346 | a new allocator's pool is the flat enumeration of the usable regions, in memory-map order |
| `Frames.BootInfoFrameAllocator.SkipToNextUsableRegion` | src/memory.rs:353-364 | skipping unusable and empty regions leaves the remaining enumeration unchanged |
| `Frames.BootInfoFrameAllocator.AllocateFrame` | src/memory.rs:368-384 | allocation pops the pool and fails exactly when it is empty; fresh frames are consumed in enumeration order and only when no returned frame is left |
| `Frames.BootInfoFrameAllocator.DeallocateFrame` | src/memory.rs:388-390 | a returned frame is pushed on the pool; the fresh frames are untouched |
| `Frames.FlatNoDup` | src/memory.rs:353-384 | non-overlapping usable regions enumerate no frame twice |
| `Frames.FlatExactly` | src/memory.rs:353-384 | the enumeration holds exactly the frames of the usable regions |
| `Paging.PathOfAddrOf` | src/memory.rs:649-655 | splitting an assembled address into its four indices gives back the indices |
| `Paging.AssembledIsCanonical` | src/memory.rs:590-655 | the address rebuilt from indices equals the one the walk resolves exactly in the lower half; in the upper half the sign bits are missing |
| `Paging.PathInjective` | src/memory.rs:130-152 | distinct pages of the lower half have distinct walks |
| `Paging.GrantsWalk` | src/memory.rs:236-251 | a path that grants access at every level resolves |
| `Mapping.MapToEffect` | src/elf.rs:269-274 | the contract of `map_to`: the free slot now leads to the frame, missing tables come zeroed from the pool, parents are widened, every other slot and every other frame is as before |
| `Mapping.DescendEffect` | src/elf.rs:269-274 | the tables created on the way down are linked in exactly along the path |
| `Ownership.MapPageEffect` | src/elf.rs:264-293 | mapping and filling one page keeps the space a tree; the frames taken are owned by it exactly when the page is in a private slot |
| `Ownership.NewSpaceEffect` | src/memory.rs:497-527 | a new L4 table holds the active table's entries in slot 0 and the window's slot and nothing else; the space owns that table alone and no other frame is disturbed |
| `Ownership.SharedView` | src/memory.rs:515-523 | below a shared slot two address spaces show the same tables and pages |
| `AddressSpace.FreeTable` | src/memory.rs:638-672 | the recursive teardown returns each frame owned below the table exactly once, skipping the leaves of the borrowed range |
| `AddressSpace.FreeAddressSpace` | src/memory.rs:571-604 | the frames returned are exactly the L4, L3, L2 and L1 tables and non-borrowed pages the space owns, each once |
| `AddressSpace.ChildAddr` | src/memory.rs:590-655 | or-ing the shifted index into the base assembles the child's address |
| `Elf.ReadUint` | src/elf.rs:68-82 | a checked little-endian read succeeds exactly inside the bytes, and then is their value |
| `Elf.AlignUpIs` | src/elf.rs:219-221 | add-and-mask rounds up to the next page, and fails exactly on 64-bit overflow |
| `Elf.PageData` | src/elf.rs:280-292 | a segment page holds the file bytes in order and then zeros |
| `Elf.SegmentPlan` | src/elf.rs:238-264 | the pages of a segment are consecutive, cover its memory size with none to spare and stay in the lower half; it is refused exactly for a misaligned or upper-half address or a last byte that is no address, and crashes exactly when it crosses into sign-extended addresses |
| `LoaderCode.NewAddressSpace` | src/memory.rs:497-527 | the imperative creation of an address space computes the new-space function on memory and pool |
| `LoaderCode.MapToPage` | src/elf.rs:269-274 | the imperative `map_to`, table by table, computes the mapping function |
| `LoaderCode.CreateNextTable` | src/elf.rs:269-274 | one level of `map_to`: allocate and zero a missing table, widen an existing one, refuse a huge page |
| `LoaderCode.FillPage` | src/elf.rs:280-292 | zeroing and copying produce the page's planned bytes |
| `LoaderCode.MapSegment` | src/elf.rs:238-296 | maps exactly the segment's planned pages in order, or stops as planned |
| `LoaderCode.ScanHeaders` | src/elf.rs:166-193 | the program-header loop maps exactly the planned pages and ends with the planned high-water mark |
| `LoaderCode.LoadSegmentsAndStack` | src/elf.rs:154-217 | segments, stack and argument page are mapped exactly as planned, with the planned verdict, which `WrittenPrograms` pins |
| `LoaderCode.LoadElf` | src/elf.rs:111-146 | `load` performs the load step: header checks, new space, plan, and teardown of the space on refusal; `WrittenPrograms` says what that makes of a file |
| `Loader.MapPagesEffect` | src/elf.rs:168-213 | after any prefix of the plan the space is a tree that shows exactly the pages mapped so far in private slots, and the pool is accounted for |
| `Loader.RefusedLoadReturnsFrames` | src/elf.rs:111-146 | a refused load leaves the allocatable frames as they were if and only if every page mapped before the refusal is in a private slot |
| `LoaderFailures.RefusedLoadCanLoseFrames` | src/elf.rs:195-203 | a 64-byte file whose refusal loses frames in every state: the stack page is mapped in shared slot 0 before the entry point is rejected |
| `LoaderFailures.RefusedLoadLosesFrames` | src/elf.rs:195-203 | a machine on which that file is refused and frames are lost |
| `Loader.AcceptedLoadShowsPlan` | src/elf.rs:111-146 | an accepted load shows exactly the planned pages in private slots, disturbs no frame in use and owns exactly the frames it took |
| `LoaderTheorems.LoadedSegmentBytes` | src/elf.rs:168-193 | every byte of every segment page reads as the segment's file byte, then zero |
| `LoaderTheorems.LoadedStackAndArgs` | src/elf.rs:195-216 | stack page zero and writable, 16-aligned stack top inside it, argument page holds the arguments then zeros and is not writable, the page below the stack is unmapped |
| `LoaderTheorems.AcceptedLayout` | src/elf.rs:195-216 | the stack and argument pages lie above every segment page with one page left out |
| `LoaderTheorems.ScanMark` | src/elf.rs:166-193 | the high-water mark of a completed scan is the greatest end of a loadable segment, or where it began when there is none |
| `WrittenPrograms.LoadedAsWritten` | src/elf.rs:154-217 | a loaded file was a 64-bit little-endian x86-64 executable; the program starts at e_entry, sign-extended from 48 bits, and an entry that is no address is never accepted; the stack is above one unused page above the greatest segment end, the arguments follow, and argument length and stack top are exact |
| `WrittenPrograms.SegmentAsWritten` | src/elf.rs:168-193 | each byte of a loadable segment is the file's byte, or zero beyond them; ring 3 reads it, and writes it exactly when the header's write flag is set |
| `WrittenPrograms.AcceptedExactly` | src/elf.rs:154-217 | a file is accepted if and only if its entry is an address and every loadable segment has its bytes in the file, starts at a page boundary if it has any memory, and leaves three pages below 2^47 |
| `WrittenPrograms.PanicsExactly` | src/elf.rs:238-264 | the plan panics if and only if the first header the loader does not get past is loadable, starts in the lower half and ends at an address beyond it |
| `WrittenPrograms.LoadedExactly` | src/elf.rs:111-146 | with enough frames a file is loaded if and only if its header is right, it is accepted, its pages differ and none clashes with a shared slot |
| `LoaderFailures.LoadPanicsWhen` | src/elf.rs:91-93 | with enough frames, `load` panics if and only if the header is accepted and two pages to be mapped coincide, a program header crosses the end of the lower half, or a page in a shared slot is already mapped or covered by a huge page there |
| `LoaderFailures.MapPagesWhen` | src/elf.rs:266-272 | with enough frames, mapping a list of pages succeeds if and only if they differ and each slot is free with no huge page above it; then exactly those slots are taken |
| `LoaderFailures.LowStackPanics` | src/elf.rs:195-203 | a 64-byte file that makes the loader panic exactly when the kernel's table already maps or covers the page at 0x1000 |
| `LoaderFailures.PlanPanics` | src/elf.rs:166-193 | the plan panics if and only if, before any header stops the loader, a loadable header crosses the end of the lower half; every planned page lies whole below it |
| `LoaderFailures.OverlappingSegmentsPanic` | src/elf.rs:266-272 | a well-formed file with two segments on one page: loading it panics wherever frames suffice |
| `Loader.RingThreeReach` | src/elf.rs:254-274 | after loading, ring 3 reaches in private slots exactly the planned pages and writes exactly the writable ones |
| `SpawnCode.ShareStackPages` | src/scheduler/mod.rs:505-524 | the loop shares every stack page as `ShareStack` does, or fails as a whole |
| `StackSharing.ShareStackMaps` | src/scheduler/mod.rs:508-524 | each shared stack page leads to the frame the kernel's table has for it; its entry is present, writable, not for ring 3 and not huge, and the three entries above it are present and writable |
| `StackSharing.ShareStackEffect` | src/scheduler/mod.rs:494-524 | sharing the kernel stack page by page keeps the space a tree that owns the new tables but none of the stack's frames |
| `StackSharing.PopulatedReach` | src/scheduler/mod.rs:505-524 | with the stack shared, ring 3 still reaches exactly the planned pages, and never a kernel-stack page, even under common upper tables |
| `Partition.StepInv` | src/memory.rs:353-604 | mapping the heap, creating, mapping, stack sharing, tearing down and kernel allocation each keep the usable frames partitioned |
| `Partition.KernelMapInv` | src/allocator.rs:41-47 | one page of `init_heap` keeps the partition: the kernel's table shows the page, every frame taken becomes the kernel's, and what the address spaces own stays as it was |
| `Partition.SharedFrameHeld` | src/scheduler/mod.rs:509-522 | a stack page's frame, found by walking the kernel's table, is neither available nor owned by any space, and the kernel holds it if it lies in a usable region |
| `Partition.RunKeepsPartition` | src/memory.rs:353-604 | over every run each usable frame is available, kernel-held, or owned by exactly one address space |
| `Partition.NoLeakAfterRun` | src/memory.rs:571-604 | when no address space is left, every usable frame is available again or kernel-held, and none is listed twice |
| `FreshFrames.RunFreshTail` | src/memory.rs:367-391 | over every run, with the cursor at the enumeration's length less the least pool so far: the frames from the cursor on are and always were available, those before it were issued, the returned frames come first and were issued, and the cursor never moves back |
| `Partition.BootInv` | src/memory.rs:337-346 | the partition holds when the boot loader hands over, before the heap is mapped |
| `Partition.DestroyInv` | src/memory.rs:571-604 | teardown makes exactly the space's frames available, changes no memory and leaves every other space's ownership as it was |
| `Partition.OthersUntouched` | src/memory.rs:497-604 | a step local to one address space leaves the tables, pages and ownership of every other one as they were |
| `SchedulerCode.ReadyQueue.PushBack` | src/scheduler/mod.rs:164-169 | the ring buffer appends at the back |
| `SchedulerCode.ReadyQueue.PopFront` | src/scheduler/mod.rs:171-179 | the ring buffer removes the oldest entry, or reports empty |
| `SchedulerCode.SchedulerState.constructor` | src/scheduler/mod.rs:240-280 | after `init` the boot thread is current and every slot has its role |
| `SchedulerCode.SchedulerState.FreeSlot` | src/scheduler/mod.rs:400-404 | the scan finds the lowest free slot, if any |
| `SchedulerCode.SchedulerState.SpawnThread` | src/scheduler/mod.rs:395-418 | spawn fills the lowest free slot, starts its next generation and queues it; the queue is never full |
| `SchedulerCode.SchedulerState.Reap` | src/scheduler/mod.rs:794-800 | the reaper's lock scope clears the zombie and its slot |
| `SchedulerCode.SchedulerState.Rotate` | src/scheduler/mod.rs:876-914 | the scheduling lock scope rotates the queue and picks the next thread's table; both threads are in the table |
| `SchedulerCode.SchedulerState.Retire` | src/scheduler/mod.rs:725-760 | the exit lock scope always finds another thread and makes the caller the zombie |
| `Scheduler.QueueBound` | src/scheduler/mod.rs:164-169 | the ready queue never fills up |
| `Scheduler.SpawnKeeps` | src/scheduler/mod.rs:395-418 | a spawned thread gets a slot without a role and becomes queued; the invariants stay |
| `Scheduler.TakeKeeps` | src/scheduler/mod.rs:794-800 | reaping keeps the invariants, and a pending zombie is always found in the table |
| `Scheduler.SwitchKeeps` | src/scheduler/mod.rs:878-892 | rotation keeps the invariants |
| `Scheduler.IdleIsBoot` | src/scheduler/mod.rs:880-889 | only the boot thread can find the queue empty |
| `Scheduler.ExitKeeps` | src/scheduler/mod.rs:729-739 | an exit succeeds for every thread but the boot thread and forgets a slot if and only if a zombie was still pending |
| `SchedulerRuns.StepKeeps` | src/scheduler/mod.rs:722-930 | every step of every interleaving with timer and keyboard interrupts keeps the scheduler's invariant |
| `SchedulerTheorems.BootInv` | src/scheduler/mod.rs:240-280 | the state after `init` satisfies the invariant |
| `SchedulerTheorems.RunKeeps` | src/scheduler/mod.rs:722-930 | the invariant holds in every reachable state |
| `SchedulerTheorems.NoFailure` | src/scheduler/mod.rs:722-752 | "ready queue full", "no other thread left", "boot thread can't exit" and "missing from thread table" are unreachable: every activation can take its next step |
| `SchedulerTheorems.OwnCodeUnderOwnTable` | src/scheduler/mod.rs:858-930 | whenever a thread is back in its own code CR3 is its own table, or the kernel's if it has none |
| `SchedulerTheorems.HeapUnderKernelTable` | src/scheduler/mod.rs:307-327 | every access to heap-backed state is under the kernel's table, except reaping with interrupts on in a thread with its own table |
| `SchedulerTheorems.ExposedReaperFaults` | src/scheduler/mod.rs:808-848 | from every state of that exception, some timing of the timer interrupt makes the heap access happen under the wrong table |
| `SchedulerTheorems.ExposedReaperReached` | src/main.rs:519-521 | a run from boot to such a state and on to the access under the wrong table: a kernel thread exits, then an isolated one exits with interrupts on |
| `SchedulerTheorems.RolesStep` | src/scheduler/mod.rs:722-752 | a step keeps every occupied slot in one of the three roles unless it is an exit while a zombie is pending, and then it does not |
| `SchedulerTheorems.ThreeRolesKept` | src/scheduler/mod.rs:722-752 | when every exit is called with interrupts off, every occupied slot is current, queued once, or the zombie in every reachable state |
| `SchedulerTheorems.InterruptedExitLosesSlot` | src/main.rs:508-510 | a run of two kernel threads that exit with interrupts on and lose a slot |
| `SchedulerTheorems.LostForever` | src/scheduler/mod.rs:722-752 | in every later state of every run a slot that lost its role is still occupied by the same thread, without a role |
| `SchedulerTheorems.FreedIsUnused` | src/scheduler/mod.rs:793-848 | what a reaper frees is live, is held by nobody else, and is not the table in CR3 |
| `SchedulerTheorems.ReapedBeforeDecision` | src/scheduler/mod.rs:793-800 | with interrupts off a zombie is reaped before the next scheduling decision |
| `SchedulerTheorems.MovesUp` | src/scheduler/mod.rs:878-892 | a waiting thread moves up one place at every scheduling decision, whatever else happens |
| `SchedulerTheorems.RoundRobin` | src/scheduler/mod.rs:878-892 | the thread at queue position k becomes current at exactly the (k+1)-th decision, at most 15 |
| `Pids.PackedPid` | src/scheduler/mod.rs:228-234 | unpacking a packed pid gives the slot and the generation modulo 2^56 |
| `Pids.SharedPid` | src/scheduler/mod.rs:228-234 | two lifetimes share a pid if and only if slot and generation modulo 2^56 agree |
| `Pids.AliveIsLiving` | src/scheduler/mod.rs:652-659 | a pid is alive exactly while its own lifetime lasts, for generations below 2^56 |
| `Pids.NewPidIsAlive` | src/scheduler/mod.rs:536-551 | a fresh pid is alive if and only if its generation is below 2^56 |
| `Pids.DeadStaysDead` | src/scheduler/mod.rs:652-659 | an issued pid that is no longer alive is dead in every later state, despite slot reuse |
| `Pids.PidsDiffer` | src/scheduler/mod.rs:536-551 | no two launches of a run get the same pid below 2^56 generations |
| `Pids.WaitedUntilReaped` | src/syscall.rs:481-489 | if a pid was seen alive and later not, that very thread was reaped in between |
| `Context.Processor.SwitchTo` | src/scheduler/context.rs:72-91 | saves the caller's frame and stack pointer and continues as the saved context, each access under the table that maps it |
| `Context.SavedFrame` | src/scheduler/context.rs:74-80 | the pushes leave a resumable frame and touch nothing else |
| `Context.BuildInitialStack` | src/scheduler/mod.rs:563-596 | the trampoline's address above six zero words: whatever context is read back begins at the trampoline, registers zero, RSP 8 below the end of the stack and equal to 8 modulo 16; nothing outside the stack changes |
| `ContextRuns.SwitchResumes` | src/scheduler/context.rs:72-91 | a switch suspends the caller exactly where it is and resumes the other thread exactly as suspended, under its own table |
| `ContextRuns.ParkedKept` | src/scheduler/context.rs:72-91 | a suspended context survives every step that does not resume it |
| `ContextRuns.ResumedExactly` | src/scheduler/context.rs:72-91 | over every run a thread resumes with exactly the callee-saved registers, RSP and return address it left with, and its own CR3 |
| `ContextRuns.BuiltIsStart` | src/scheduler/mod.rs:563-596 | a built stack with its stack pointer stored in the thread's record is the start of a thread with the context read back from it, every other stack untouched |
| `ContextRuns.StartsAsBuilt` | src/scheduler/mod.rs:563-596 | over every run the first switch to a started thread enters it exactly as its hand-built frame says, under its own table, whatever ran in between |
| `ContextRuns.StartsAtTrampoline` | src/scheduler/mod.rs:563-596 | over every run a thread started with six zero words and the trampoline's address at its saved stack pointer begins at the trampoline, registers zero, under its own table |
| `ContextRuns.SwitchAllowed` | src/scheduler/context.rs:72-91 | every address a switch touches is mapped under the table loaded at that moment |
| `Switching.StepKeeps` | src/scheduler/mod.rs:858-930 | every step of scheduler and processor together keeps both invariants and their agreement on the running thread, CR3, and each runnable thread's stack and table |
| `Switching.DecisionSwitches` | src/scheduler/mod.rs:896-930 | a decision for another thread can always be carried out by `switch_to`, which loads that thread's table |
| `Switching.RescheduledExactly` | src/scheduler/mod.rs:858-930 | over every run a thread the scheduler takes off and later makes current continues with exactly its registers, stack pointer and return address, under the table the scheduler has for it |
| `Switching.LaunchStarts` | src/scheduler/mod.rs:536-551 | a launched thread with a built 64 KiB stack starts on it in the slot it was given, under its own table or the kernel's |
| `Switching.LaunchedBegins` | src/scheduler/mod.rs:563-596 | over every run of scheduler and processor a launched thread begins at the trampoline, under the table the scheduler has for it, when it is first made current |
| `Switching.BootInv` | src/scheduler/mod.rs:240-280 | after `init` scheduler and processor agree |
| `SyscallEntry.Save` | src/syscall.rs:52-83 | the dispatcher receives the caller's RAX, RDI, RSI, RDX and RCX on a 16-aligned stack, with all registers saved |
| `SyscallEntry.Restore` | src/syscall.rs:84-103 | whatever the dispatcher did, every register but RAX comes back and RAX is the reply |
| `Format.FileHeaderRead` | src/elf.rs:117-164 | the loader accepts exactly 64-bit little-endian x86-64 executables and reads entry point and header table from their places |
| `Format.ProgramHeaderRead` | src/elf.rs:169-181 | a written program header is read back: file bytes, address, memory size and write permission of a loadable segment; none if the bytes are not all in the file; any other kind is skipped |
| `Format.ProgramHeaderMissing` | src/elf.rs:169-181 | the loader gives up at a header that is not in the file, and at a loadable one that is cut off |
| `Format.BootSectorRead` | src/fs.rs:71-84 | parsing a written boot sector gives back its parameter block, and nothing for other sector sizes |
| `Format.DirectoryEntryRead` | src/fs.rs:165-176 | a written directory entry is read back: name, attributes, first cluster and size |
| `Format.DirectoryEntryIs` | src/fs.rs:160-176 | a written entry is a file of its name if and only if its first byte is neither 0 nor 0xE5, its attribute byte is not 0x0F and bits 3 and 4 of it are clear; it ends the directory if and only if its first byte is 0 |
| `Format.FatEntryRead` | src/fs.rs:187-204 | on a volume whose FAT holds given entries, following a cluster gives its entry, across sector boundaries, and ends exactly at the markers from 0xFFF7 on |
| `Fat16.VolumeLayout` | src/fs.rs:86-112 | reserved sectors, FATs, just enough directory sectors and then the clusters follow each other without gaps |
| `Fat16.GeometryFits` | src/fs.rs:86-112 | no 32-bit geometry operation overflows and every data sector is below the 28-bit limit |
| `Fat16.DirectoryFits` | src/fs.rs:90-105 | every directory sector lies before the data area and below the limit |
| `Fat16.FatEntryFits` | src/fs.rs:187-193 | a FAT entry never straddles a sector, and lies in the first FAT if and only if that FAT covers the cluster |
| `Fat16.ClustersDisjoint` | src/fs.rs:107-112 | distinct clusters occupy disjoint sectors beyond the FATs and the root directory |
| `Fat16.ScanSector` | src/fs.rs:159-178 | the inner loop finds the first match in a sector, the end marker, or neither |
| `Fat16.FindInRootDir` | src/fs.rs:153-181 | the directory scan returns the first live match before the end marker, or nothing when there is none |
| `Fat16.FirstMatchUnique` | src/fs.rs:153-181 | there is at most one such entry |
| `Fat16.ReadCluster` | src/fs.rs:238-246 | the sector loop appends the cluster's bytes up to the file size |
| `Fat16.ReadChain` | src/fs.rs:226-252 | wherever the cluster walk ends, it returns the first file-size bytes of the chain, or all of a chain that ends short |
| `Fat16.ReadsAsOneThing` | src/fs.rs:236-252 | a file has exactly one contents |
| `Fat16.ReadingEnds` | src/fs.rs:236-252 | a file has contents if and only if it is empty, clusters hold sectors, or its chain does not come back to a cluster within 0xFFF6 links |
| `Fat16.CyclicWhen` | src/fs.rs:187-252 | a chain stays among the data clusters for ever if and only if it comes back to one of its clusters within 0xFFF6 links |
| `Fat16Limits.ReadingCanLoop` | src/fs.rs:218-253 | a volume that parses, with a one-byte file that is found and whose reading never ends |
| `Fat16Limits.EntryBeyondDeclared` | src/fs.rs:153-181 | the directory scan can return an entry beyond the declared ones if and only if their number is not a multiple of 16 |
| `Fat16.ChainByte` | src/fs.rs:236-246 | each byte of a file comes from its place in its cluster's sectors |
| `Fat16.FileBytes` | src/fs.rs:226-252 | what is read is at most the file size, less only when the chain ended and then all of it, and each byte is where its cluster has it |
| `Fat16.ToFat83` | src/fs.rs:125-142 | the array-filling conversion yields the padded uppercase name, and refuses exactly the names that do not fit 8.3 |
| `Fat16.NameParts` | src/fs.rs:125-142 | a name is split at its first dot |
| `Fat16.FatNameBytes` | src/fs.rs:125-142 | each of the eleven bytes is the base's or extension's letter, raised if it is a to z, or a space |
| `Fat16.EchoName` | src/fs.rs:125-142 | "Echo.elf" is looked up as "ECHO    ELF" |
| `Fat16.SameFatName` | src/fs.rs:125-142 | two names denote the same entry if and only if base and extension agree up to case and trailing spaces |
| `Fat16.ReadFile` | src/fs.rs:218-253 | nothing exactly for an unknown volume or name; otherwise the contents of the first live match |
| `UserAccess.Translate` | src/memory.rs:121-152 | the walk's physical address, nothing when a level is absent, and the panic exactly on a huge page |
| `UserAccess.PageAccessible` | src/memory.rs:223-254 | true exactly when every level grants the access |
| `UserAccess.UserRangeMapped` | src/memory.rs:187-211 | the page loop says whether ring 3 may access every address from the first to the last byte as an address, or panics as specified |
| `UserAccess.CheckPanicsWhen` | src/memory.rs:200-201 | it panics if and only if the last byte lies in [2^48, 2^64 - 2^47) |
| `UserAccess.CheckRight` | src/memory.rs:187-211 | where it does not panic, it says whether ring 3 may access every byte, except exactly when the range crosses the end of the lower half and both sides of the gap are granted |
| `UserAccess.SpanByPages` | src/memory.rs:200-210 | a span is granted exactly when all the pages it touches are |
| `UserAccess.EndOfLowerHalfMisleads` | src/syscall.rs:136-144 | two bytes at the end of the lower half, the second without an address, are accepted where the pages on both sides of the gap are open |
| `UserAccess.RecheckSucceeds` | src/syscall.rs:167-174 | every shorter range at the address of an accepted one is accepted too, if and only if the accepted one ends within 48 bits or starts in the upper half |
| `UserAccess.UserRangeOk` | src/syscall.rs:136-144 | null and pointers that are no address are refused before any walk; any other is checked at its sign-extended address |
| `UserAccess.RefusedPointers` | src/syscall.rs:136-144 | null and pointers that are no address are refused whatever the length, and an empty range anywhere else is accepted |
| `UserAccess.ShortChecksAnswer` | src/syscall.rs:136-144 | for lengths up to 2^47, hence all the system calls use, the check never panics |
| `UserAccess.UsableRight` | src/syscall.rs:136-144 | the answer is whether ring 3 may access every raw byte, except exactly when the pointer or the end of the range is sign-extended into granted addresses |
| `UserAccess.UsableRightWhenClosed` | src/syscall.rs:136-144 | with the upper half closed to ring 3 the answer is always right |
| `Paging.TryNewPath` | src/memory.rs:121-152 | sign extension does not change which entries a walk takes |
| `Reads.InputQueue.Push` | src/task/keyboard.rs:65-72 | a byte is appended, or dropped when the queue is full |
| `Reads.InputQueue.Pop` | src/task/keyboard.rs:74-82 | the oldest byte is removed, or nothing when empty |
| `Reads.FileTable.Open` | src/scheduler/mod.rs:336-342 | the lowest closed descriptor of 2 to 5 now stands for the data from its beginning, or all four are open |
| `Reads.FileTable.Read` | src/scheduler/mod.rs:350-360 | the next bytes are returned and the position advances by exactly as many |
| `Reads.FileTable.Close` | src/scheduler/mod.rs:365-378 | reports whether the descriptor was open and closes it |
| `Reads.Caller.CopyToUser` | src/syscall.rs:167-174 | copies exactly the data when the range is usable and its raw bytes are granted, nothing when it is not usable; never outside the range, nor where ring 3 could not write |
| `Reads.Caller.ReadStdin` | src/syscall.rs:242-280 | killed exactly for an unusable range, with the queue untouched; otherwise the caller receives exactly the bytes removed from the queue, as many as there are up to the length |
| `Reads.Caller.ReadFile` | src/syscall.rs:288-303 | killed exactly for an unusable range, with the position untouched; otherwise the caller receives exactly the bytes the position moves over, and an error for a closed descriptor; no other descriptor moves |
| `Reads.Caller.SysRead` | src/syscall.rs:212-226 | a read returns the least of the length asked for, 256 and what there is, and those bytes, in order, leave the source and are at the pointer; killed exactly for an unusable range; however it ends nothing outside the buffer asked for changes, nor anything ring 3 could not write, and no other source or descriptor moves |
| `Reads.ReadsNeverFault` | src/syscall.rs:167-174 | with the upper half closed to ring 3, no accepted read faults in the copy |
| `Wakeup.StartInv` | src/task/executor.rs:80-86 | the reader queued by `spawn` satisfies the wakeup invariant |
| `Wakeup.StepKeeps` | src/task/keyboard.rs:101-158 | every step keeps the wakeup invariant if and only if it is not an interrupt whose wakeup is dropped while the reader waits |
| `Wakeup.NoLostInput` | src/task/executor.rs:88-130 | in every run without such a drop a queued scancode means the reader is queued or still looking, and the executor never halts with input pending |
| `Wakeup.ScancodesKept` | src/task/keyboard.rs:101-158 | in every run each scancode that found room is decoded exactly once and in order, or is in the reader's hand or queued |
| `Wakeup.TaskGetsTurn` | src/task/executor.rs:88-130 | a queued task gets exactly the turn after those before it, and is polled then if it still exists |
| `Wakeup.FinishedForGood` | src/task/executor.rs:88-130 | a finished task is never polled again |
| `Wakeup.WakersUsedOnce` | src/task/keyboard.rs:101-158 | in every run each registration of the waker is used at most once, by an interrupt or by the reader taking it back |
| `Wakeup.SingleReaderSafe` | src/task/executor.rs:45-52 | with the reader as the only task no such drop exists, even with full queues |
| `Wakeup.HaltEndsWithReader` | src/task/keyboard.rs:101-111 | the scancode that ends a halt makes the reader ready and the executor look for it |
| `Wakeup.DroppedWakeupSticks` | src/task/executor.rs:45-52 | with several tasks a dropped wakeup leaves the reader waiting with input pending |
| `Wakeup.StuckForever` | src/task/executor.rs:88-130 | in every later state of every run such a reader is still waiting with input pending |
| `Wakeup.WakeupCanBeDropped` | src/task/executor.rs:45-52 | a run from `spawn` that parks the reader, fills the ready queue with 128 wakeups of another task and then drops the reader's |
| `Shell.OneKey` | src/task/keyboard.rs:232-257 | the bytes sent for one key have exactly that key's effect on the editor and leave the shell waiting for the next key |
| `Shell.KeysArrive` | disk/shell.s:97-250 | for all key sequences without a lone Escape the shell ends with the abstract editor's line, history and programs |
| `Shell.AllKeysArrive` | disk/shell.s:97-250 | for all key sequences and whatever the shell waits for, their bytes have the effect of the keys: after a lone Escape a typed byte is swallowed, a typed bracket opens a sequence, and an arrow or function key types the rest of its sequence into the line |
| `Shell.EscapeSpoilsArrow` | disk/shell.s:181-250 | Escape and then Up types "[A" into the line instead of recalling a line |
| `Shell.FedAllTidy` | disk/shell.s:97-250 | no bytes whatever make a line outgrow the buffer, hold an escape byte or browse beyond the stored lines |
| `Shell.PressedAllTidy` | disk/shell.s:109-114 | lines never exceed 64 bytes and never hold an escape byte; browsing stays within the stored lines |
| `Shell.UpRecalls` | disk/shell.s:219-227 | pressing Up k times recalls the k-th most recent line, up to the eighth |
| `Shell.TextIsTyped` | disk/shell.s:109-114 | plain text that fits is appended to the line as typed |
| `Shell.TextIsSubmitted` | disk/shell.s:122-175 | a typed line and Enter start its program and make it the most recent history entry |
| `Shell.BackspaceUndoes` | disk/shell.s:116-120 | backspace undoes a character that was taken |
| `Shell.EnterSubmits` | disk/shell.s:122-175 | Enter, as either byte, starts and remembers a line that is not empty, does neither with an empty one, and leaves an empty live line |
| `Shell.KeysEdit` | disk/shell.s:97-120 | backspace removes the last byte, any other byte but Enter and Escape is appended below 64, and no key but Up and Down edits |
| `Shell.ArrowsBrowse` | disk/shell.s:219-250 | Up shows the next older of the last eight lines and Down the next newer, or an empty line |
| `Shell.ArrowBytes` | src/task/keyboard.rs:232-257 | the bytes of the arrow keys, and none for a key without a sequence |
| `Shell.EditingKeyBytes` | src/task/keyboard.rs:232-257 | the bytes of Home, Insert, End, PageUp and PageDown |
| `Shell.LowFunctionKeyBytes` | src/task/keyboard.rs:232-257 | the bytes of F1 to F6 |
| `Shell.HighFunctionKeyBytes` | src/task/keyboard.rs:232-257 | the bytes of F7 to F12 |
| `Shell.DownUndoesUp` | disk/shell.s:219-250 | Down undoes Up while a stored line is shown, and otherwise leads to an empty line |
| `Shell.SplitIsLine` | disk/shell.s:132-152 | path, space and arguments make up the line again, and the path holds no space |
| `ShellCode.RingPushed` | disk/shell.s:304-334 | overwriting the oldest slot keeps the ring equal to the last eight lines |
| `ShellCode.ShellProgram.HistoryPush` | disk/shell.s:304-334 | the submitted line joins the history |
| `ShellCode.ShellProgram.HistoryLoad` | disk/shell.s:256-300 | the line browsed to is copied back into the line buffer |
| `ShellCode.ShellProgram.FindSpace` | disk/shell.s:132-140 | the scan finds the first space or the end of the line |
| `ShellCode.ShellProgram.Submit` | disk/shell.s:122-175 | an empty line is ignored; any other is remembered, split and started |
| `ShellCode.ShellProgram.Feed` | disk/shell.s:97-250 | the program's reaction to one byte is the byte-level step, whatever it was waiting for |
| `ShellCode.TypeKeys` | disk/shell.s:97-250 | from the start, the program that reads the bytes of any keys has the line, browse position, stored lines, started programs and pending wait of the shell on keys; without a lone Escape that is the abstract editor |
| `InputPath.NothingDropped` | src/task/keyboard.rs:65-82 | however arrivals and reads interleave, bytes read and bytes waiting together are exactly the bytes that arrived if and only if none arrived while 128 were waiting |
| `InputPath.KeysReachShell` | src/task/keyboard.rs:232-257 | while none does, the shell has read a prefix of the bytes sent for the keys, and once none is waiting it is where the keys lead |
| `InputPath.ShortBurstsFit` | src/task/keyboard.rs:65-72 | keys that come to at most 128 bytes cannot overrun the queue, whenever they are read |
| `InputPath.Deliver` | src/task/keyboard.rs:65-82 | after any events the ring buffer holds the bytes waiting, and the shell program is where the bytes it read lead |
| `System.StepKeeps` | src/scheduler/mod.rs:480-551 | scheduling, launching, reaping and building keep every address space with exactly one thread or under construction, with that thread's stack as its borrowed range |
| `System.NothingLeaked` | src/scheduler/mod.rs:793-848 | in every run, once no thread with an address space is left, every usable frame is available or kernel-held |
| `System.BootKeeps` | src/scheduler/mod.rs:240-280 | the combined invariant holds when the boot loader hands over, before the heap is mapped |
| `Spawning.LoadIsRun` | src/elf.rs:111-146 | a load with private pages is a run of the memory steps on one new space: an accepted file adds that space, a refused one nothing |
| `Spawning.ShareStackIsRun` | src/scheduler/mod.rs:505-524 | sharing a stack is a run of the memory steps on the space |
| `Spawning.ShareStackLocal` | src/scheduler/mod.rs:505-524 | sharing a stack changes only frames the space owns and frames it takes |
| `Spawning.SpawnBuilds` | src/syscall.rs:444-465 | load and stack sharing from any state keep the partition; the new space maps exactly the planned pages for ring 3; every byte of the stack is writable for the kernel under the new table, in the frame the kernel's table has it; the space owns every frame taken, and no frame in use changed |
| `Spawning.SpawnThenFree` | src/memory.rs:571-604 | freeing a spawned space makes available exactly the frames that were available before the spawn |
| `Spawning.SpawnIsKernelRun` | src/syscall.rs:444-465 | loading, sharing the sixteen stack pages and launching is a run of the whole kernel that keeps the invariant of threads and memory together |
| `Spawning.SpawnedReach` | src/syscall.rs:136-144 | a spawned program reaches outside the shared slots exactly its planned pages and never its kernel stack, and the buffer check answers exactly whether it may access every byte |

## Left out

- `src/ata.rs`: port I/O and polling; a disk is a function from sector number to 512 bytes.
- `src/gdt.rs`, `src/interrupts.rs`, `src/serial.rs`, `src/lib.rs`: descriptor tables, handler registration and
  the test harness; they only tell when interrupts are on.
- `src/allocator.rs`: the heap's free list; `init_heap`'s mapping loop is the step `KernelMap`, and a stack
  allocation is a fresh disjoint range.
- `src/vga_buffer.rs`, screen echo and redrawing: display output; the shell model keeps the line, not the screen.
- `src/userspace.rs`, `src/main.rs`, `build.rs`: demonstrations, boot sequence and host tooling.
- `sys_write`, `sys_open`, `sys_spawn` and `copy_from_user`: the copying of paths and arguments into fixed buffers
  and the UTF-8 check; the range check, the file read, the load and the launch behind them are modelled.
- `thread_trampoline`, `ring3_trampoline`: the one-time hand-over of an entry point.
- Huge pages, NX, the TLB and several processors: not supported by the kernel or left to hardware.
- Memory: the bytes of user pages are written by virtual address in `Reads.Caller`, so two user pages backed by
  one frame are not modelled there.
- SchedulerCode.SchedulerState.SpawnThread: a slot's generation does not wrap at 2^64; the model's counter is
  unbounded, and pids keep it modulo 2^56.
- Pids.WaitedUntilReaped: `sys_wait` polls without bound, so the lemma speaks of two observations of the pid
  instead of a terminating loop.
- LoaderCode.LoadElf: after a panic the state is left unspecified.
- Fat16.ReadChain: is defined where the walk ends, and `Fat16.ReadingEnds` says exactly when that is. A cluster
  below 2 is reported as `Panicked`, the underflow check of a debug build.
- Fat16.ReadFile: is defined where the walk of the named file ends, as `Fat16.ReadChain` is.
- Wakeup: tasks other than the reader are reduced to the wakeups they cause.
- Shell: the outcome of a started program is not modelled.
