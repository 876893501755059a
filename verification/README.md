# A verified model of the Chales-OS kernel core

This project models three connected parts of the kernel in Dafny and proves what they promise:

* **Exec-and-wait and the scheduler** (`exec.c`, `sched.c`, `elf.c`, `sched_switch.S`, the exit,
  exec, wait, kill and sbrk system calls, `crt0.S`). All programs share one address space, one
  link address and one stack window. `ExecMachine` is the protocol as a state machine over
  memory, the save pool, the heap break and the chain of live tasks; `ExecSafety`, `ExecResume`,
  `ExecLaws`, `ExecExact` and `ExecHeap` prove what its runs keep and exactly when; `ExecCall` says
  exactly when an exec succeeds and what the new program finds, with `ElfImage` as a complete
  executable; `ExecWitness` and `ExecHeapWitness` have the runs that show the limits. `Kernel` holds
  the task records, the ring and `exec_run` as the C code has them and refines the machine step by
  step; `KernelRuns` runs the first program after boot on it, and an exit with the caller's wait.
  `UserStack`, `Elf`, `RoundRobin`, `TaskRing` and `ContextSwitch` are the parts it is built from.
* **RAMFS** (`ramfs.c`). `Ramfs` is the inode table, descriptor table and byte pool; it refines
  `RamfsSpec`, a map from inode number to byte sequence with a naming tree. `RamfsCalls` states
  each call by its cases and what short sequences of calls give, `RamfsPaths` how paths compose.
  `RamfsLaws` and `RamfsRuns` prove the laws of that file system over single calls and over whole
  runs, `RamfsLimits` where it does less than one would expect, with the exact conditions;
  `RamfsWitness` has a run of `Ramfs` that fills the pool.
* **The kernel heap** (`kmalloc.c`). `Kmalloc` works on the heap's bytes with in-band headers;
  `KernelHeap` relates the bytes to a block list and to the client's view (a map from pointer to
  bytes), `HeapBlocks` is the block list and its runs. The task records and kernel stacks of
  `Kernel` are allocations of this heap, and `KernelStacks` composes the three: what
  `sched_reap`, `sched_task_new` and `schedule` do are legal runs of the switching machine of
  `ContextSwitch`, and work on kernel stacks leaves the heap sound.

`dafny verify dfyconfig.toml` checks everything.

## What the main theorems assume

* *Exec-and-wait.* The kernel image and the user heap lie below the stack window
  (`Layout.Ok`), programs are linked above it (`userland/linker.ld:4` puts them at 0x300000; the
  window ends at 0x2FF000), and a running program writes only its image, the stack window and
  the heap at or above the break it started with (`Allowed`). The root task may write anything.
* *Nested images.* `exec_run` saves only the overlap with its direct caller. What concerns tasks,
  break, pool mark and `wait` holds for every caller and all images (`ReturnsFromExec`,
  `WaitReportsOnce`, `ReachableStates`). Only the theorem that a program's memory comes back
  (`ResumesAsCalled`) assumes that a new image meets each older ancestor's image only inside its
  caller's (`Contained`), and only of execs that get as far as loading. `ContainmentIsExact` proves
  that this is exactly when a successful exec is safe for the older ancestors, `FailedExecIsExact`
  the same for a failed one, and `LargeSmallLarge` is a run from boot, with real ELF images and no
  stray write, in which a large program that ran a small one that ran a large one comes back with a
  byte changed.
* *Other memory.* Below the stack window and outside the user heap nothing a program does reaches
  a caller (`LowMemorySurvivesExec`); that is where the root's own code and data lie. Of the user
  heap the code restores only the break. A caller's bytes below it survive if every
  task started meanwhile is started at that break or above (`HeapSurvivesExec`); `LowBreakIsExact`
  proves the condition exact, and `HeapLost` is a run from boot that violates it.
* *RAMFS.* A name that a creating call gets as far as copying is shorter than 256 (the `strcpy`
  into the inode), a write's offset plus count stays below 2^32, and inode numbers do not wrap.
  Directory prefixes of any length are modelled, cut to 255 characters as the code does. Removing
  the root is modelled by `Rmdir` and shown to be exactly the call that breaks the table; run
  theorems exclude it.
* *Kernel heap.* `kfree` and `krealloc` get live pointers or NULL; the few bytes past
  `_heap_end` never look like the magic; and the size does not make the pointer sum in
  `expand_heap` wrap into the heap. `FitsCheckIsExact` proves this last condition to be exact and
  `WrappedRequestPasses` gives a request that violates it.

Where a comment in the source, or what one would expect, promises more than the code does, the
model follows the code:

* A write is said to fail only when nothing fits, but the reserve tries only a doubled block for the
  whole request. `EnospcIsEarly` and `Ramfs.Write` say exactly when a write is refused although its
  first byte would fit; `RefusedRun` is a run that ends in such a write.
* A failed creating open can leave the file behind: `FailedOpenKeepsState` and
  `FailedLegacyOpenKeepsState` (exact), `FailedOpenLeavesFile` (a run).
* `rmdir` accepts directories that are not empty: `ConnectedUnlessOrphaned` (exact),
  `OrphanedFile` (a run).

## Model

| member | source | states |
|---|---|---|
| UserStack.CopyStrings | kernel/arch/i386/exec.c:25-43 | succeeds if and only if there are at most 32 strings and they fit the 4096-byte buffer after what is already there; then the copied pointers name exactly the source strings and the earlier bytes are kept |
| UserStack.CopyArguments | kernel/arch/i386/exec.c:79-84 | succeeds if and only if each vector has at most 32 strings and together with their NULs they take at most 4096 bytes; then both vectors are read back unchanged |
| UserStack.BuildUserStack | kernel/arch/i386/elf.c:37-96 | the exact bytes and stack pointer written; 0 only when the total exceeds the window; although the size check ignores the alignment padding, a 4-aligned window is never left |
| UserStack.Crt0 | userland/crt0.S:6-14 | the call frame of main: argc, argv and envp words computed from the passed stack pointer |
| UserStack.StartupRoundTrip | kernel/arch/i386/elf.c:37-96 | what main receives through crt0 from the stack built for argv and envp is argc and exactly these strings |
| UserStack.AcceptedArgumentsFit | kernel/arch/i386/exec.c:15-43 | vectors of at most 32 strings and 4096 bytes in all fit the 0x4000-byte window, so the stack build cannot fail |
| UserStack.PassArguments | kernel/arch/i386/exec.c:79-120 | the whole path: vectors of at most 32 strings and 4096 bytes in all, and no others, reach main unchanged; refused ones leave memory alone |
| Elf.TableInBounds | kernel/arch/i386/elf.c:136-147 | a validated image holds every program header it announces, and segment i has the fields of row i |
| Elf.ExtentIsHull | kernel/arch/i386/elf.c:161-174 | the computed [lo, hi) is the least interval holding every PT_LOAD segment |
| Elf.ElfExtent | kernel/arch/i386/elf.c:152-181 | succeeds exactly for a valid image whose PT_LOAD segments all end at or below 0x400000 and do not all end at 0; every segment lies inside the interval |
| Elf.ValidIs | kernel/arch/i386/elf.c:98-150 | exactly the images that are validated: identification bytes, type, machine and program header table, field by field |
| Elf.Hull | kernel/arch/i386/elf.c:161-174 | the loop fails exactly when some segment ends past the limit, else yields the lowest start and highest end |
| Elf.CheckSegments | kernel/arch/i386/elf.c:195-232 | accepts exactly when every PT_LOAD header has filesz at most memsz, its file range inside the image, its end at or below 0x400000 and no overlap with the kernel range |
| Elf.CopySegment | kernel/arch/i386/elf.c:250-258 | file bytes then zeros at the segment's address, the stored image and the kernel range untouched |
| Elf.LoadSegments | kernel/arch/i386/elf.c:241-261 | memory is the in-order application of the segments, although headers are re-read from memory between writes |
| Elf.ElfLoad | kernel/arch/i386/elf.c:183-268 | succeeds exactly when the image is valid, every PT_LOAD header passes these four tests and the entry lies below the limit and outside the kernel; all or nothing: on failure no byte changes, on success memory is the loaded image; the kernel range never changes |
| Elf.ApplyByte | kernel/arch/i386/elf.c:241-258 | each byte comes from the last segment covering it: its file byte, or zero past filesz |
| Elf.LoadStaysInExtent | kernel/arch/i386/elf.c:225-261 | a load changes nothing outside elf_extent's interval and nothing in the kernel range |
| ElfImage.ProgramLoads | kernel/arch/i386/elf.c:98-239 | a complete executable of any code, linked above the kernel and below the limit, passes validation and every load test; its extent is its segment |
| ElfImage.ProgramBytes | kernel/arch/i386/elf.c:241-258 | after its load the segment holds exactly its code and then zeros |
| ExecMachine.SaveRestore | kernel/arch/i386/exec.c:45-108 | saving and later restoring a frame gives back exactly the covered bytes, whatever happened in between, and leaves lower frames in the pool alone |
| ExecSafety.UnwindCompose | kernel/arch/i386/sched.c:76-85 | restoring descendants first composes: unwinding to a task and then to its ancestor is unwinding to the ancestor |
| ExecSafety.FramesStacked | kernel/arch/i386/exec.c:94-108 | the frames of the live tasks lie in the pool in chain order without overlap |
| ExecSafety.PidsIncrease | kernel/arch/i386/sched.c:139-139 | children have larger pids than all their ancestors |
| ExecSafety.StepInv | kernel/arch/i386/exec.c:67-142 | every exec, write, sbrk, exit, kill and wait keeps the chain, the gap-free stack of frames ending at the pool mark, and the break in the heap |
| ExecSafety.ExecEffect | kernel/arch/i386/exec.c:86-142 | exec either passed every check and pushed one task whose frame gives back the caller's memory, or fails having already given it back |
| ExecSafety.FailedExecByte | kernel/arch/i386/exec.c:94-126 | every byte after a failed exec of a program: as before, except the loaded image outside the caller's own when only the task's allocation failed |
| ExecSafety.SharedIsCovered | kernel/arch/i386/exec.c:86-92 | under nesting, whatever a task shares with any ancestor is in its own frame |
| ExecResume.PendingStep | kernel/arch/i386/sched.c:73-94 | each step of a deeper task keeps a waiting caller's memory recoverable, or resumes it with everything back |
| ExecResume.PendingRun | kernel/arch/i386/sched.c:73-94 | the same over runs of any length |
| ExecResume.ResumesAsCalled | kernel/arch/i386/exec.c:45-142 | the restore theorem: in every run, at any depth, a program back from exec_run has its image, stack window, heap break, pool mark and ancestors exactly as at the call, and the child it started as zombie with its status |
| ExecResume.ReturnsFromExec | kernel/arch/i386/exec.c:129-141 | for any caller, the root or a program, and any images: when it is the leaf again its child is gone and is its zombie, and break, pool mark and ancestors are as at the call |
| ExecResume.ReachableStates | kernel/arch/i386/exec.c:94-141 | every state any run reaches from boot is one chain with increasing pids and disjoint stacked frames, the mark is the end of the leaf's frame and at most the pool size |
| ExecResume.ReachableNested | kernel/arch/i386/exec.c:86-92 | if the execs also keep to nested images, every reached state does |
| ExecLaws.FailedExecIsHarmless | kernel/arch/i386/exec.c:67-126 | whichever step of exec_run fails, a calling program's image, window, break, the pool mark and the live tasks are as before |
| ExecLaws.KillsSubtree | kernel/arch/i386/sched.c:73-94 | kill ends the target and exactly its descendants; its parent becomes the leaf with the zombie and its pool mark |
| ExecLaws.KillByCase | kernel/arch/i386/interrupt.c:312-327 | EINVAL above 64, ESRCH without a live task of that pid, 0 for the probe, all without effect; 0 exactly for a live task and an existing signal |
| ExecLaws.SbrkExact | kernel/arch/i386/interrupt.c:104-123 | sbrk succeeds exactly when the new break lies in the user heap, despite the 32-bit sum; the opposite increment undoes it |
| ExecLaws.WaitReportsOnce | kernel/arch/i386/interrupt.c:278-288 | for any caller and any images: when exec_run has returned 0 the child it started is dead, the next wait yields exactly that child's pid and (code & 0xFF) << 8 after an exit or the signal after a kill, and a further one ECHILD |
| ExecLaws.WaitByCase | kernel/arch/i386/interrupt.c:278-288 | with a zombie: its pid, its status in the four bytes asked for and nowhere else, and it is gone; without one ECHILD and no effect |
| ExecCall.ExecSucceedsExactly | kernel/arch/i386/exec.c:67-142 | for every image and all arguments: 0 if and only if the file has an extent and loads, each vector has at most 32 strings and both at most 4096 bytes, the caller's window and overlap fit the rest of the 512 KiB pool, and the task is allocated; else -1 |
| ExecCall.ProgramReceivesArguments | kernel/arch/i386/exec.c:117-127 | main of the started program receives exactly the strings the caller passed, and it is entered at the entry word of the file |
| ExecCall.ProgramFindsImage | kernel/arch/i386/exec.c:120-121 | each byte of the started program's image is the file byte of its last covering segment, or zero past the file bytes |
| ExecCall.ProgramStarts | kernel/arch/i386/exec.c:67-142 | for a complete executable of any code, from any reachable state: it starts exactly when its arguments and its caller's frame fit and a task is allocated, and then has its code, zeroed data and arguments in memory |
| ExecExact.LosesByte | kernel/arch/i386/exec.c:86-92 | if a child's image reaches an older ancestor's byte outside the caller's image, a two-event run makes that ancestor lose it |
| ExecExact.ContainmentIsExact | kernel/arch/i386/exec.c:86-92 | a successful exec is safe for all older ancestors in every run if and only if its image meets theirs inside the caller's |
| ExecExact.FailedExecIsExact | kernel/arch/i386/exec.c:110-126 | a failed exec is safe for all older ancestors in every run if and only if it did not, failing only in the allocation, load another byte over one of theirs outside the caller's image |
| ExecHeap.HeapSurvivesExec | kernel/arch/i386/exec.c:57-65 | any caller finds its heap below the break as it left it, if every task started meanwhile was started at that break or above |
| ExecHeap.LowBreakIsExact | kernel/arch/i386/interrupt.c:104-123 | while a caller waits, a further exec is safe for its heap in every run if and only if the break is not below the caller's |
| ExecHeap.LowMemorySurvivesExec | kernel/arch/i386/exec.c:101-142 | any caller, the root included, finds all memory below the stack window and outside the user heap as it left it, whatever the images |
| ExecWitness.ExecStarts | kernel/arch/i386/exec.c:67-142 | exec of a program of zeros without arguments succeeds whenever the frame fits, and the child's image is zeroed |
| ExecWitness.LargeSmallLarge | kernel/arch/i386/exec.c:86-92 | a run from boot, large then small then large, after which the first program's byte is no longer what it was at its call |
| ExecHeapWitness.HeapLost | kernel/arch/i386/interrupt.c:104-123 | from the state after boot and sbrk(1): the root runs a program that gives the byte back and runs another; after a run during all of which the root waits, it is back without its heap byte |
| RoundRobin.NextReady | kernel/arch/i386/sched.c:24-42 | the distance to the first READY task, none in between; 0 exactly when no other task is READY |
| RoundRobin.ScheduleKeepsOneRunning | kernel/arch/i386/sched.c:22-43 | after a switch exactly the new current task is RUNNING; without a switch no other task was READY |
| RoundRobin.ScheduleApproaches | kernel/arch/i386/sched.c:22-43 | a call brings every READY task strictly nearer or runs it |
| RoundRobin.UnlinkApproaches | kernel/arch/i386/sched.c:56-70 | unlinking a dead record leaves the current task in place and never takes a READY one farther |
| RoundRobin.RunsWithinDistance | kernel/arch/i386/sched.c:22-43 | a task READY at ring distance d runs within d calls, whatever the others do in between, as long as nothing puts it farther away; records may be reaped |
| TaskRing.UnlinkIsRing | kernel/arch/i386/sched.c:61-64 | unlinking and freeing a record leaves a ring of exactly the others |
| TaskRing.InsertIsRing | kernel/arch/i386/sched.c:140-141 | linking a new record after the current one gives a ring of all of them |
| Kernel.OnlyChild | kernel/arch/i386/sched.c:77-80 | the only live task with a given live parent is the next one of the chain |
| Kernel.PopPop | kernel/arch/i386/sched.c:76-85 | killing the child with status 9 and then the task is one pop of both |
| Kernel.LeafIsNext | kernel/arch/i386/sched.c:98-99 | after an exit the READY parent is the task schedule selects; with none left nothing is READY |
| Kernel.Kernel.constructor | kernel/arch/i386/sched.c:14-19 | the boot state: task 0 alone in the ring, RUNNING, pid 1, over a sound kernel heap; if that heap is unused and has 36 + 76 + 4096 bytes, a task fits |
| Kernel.Kernel.Schedule | kernel/arch/i386/sched.c:22-43 | the ring walk switches to the first READY task of the ring and to nothing if there is none; records change as RoundRobin.Schedule says |
| Kernel.Kernel.FindTask | kernel/arch/i386/sched.c:45-53 | a live task with the pid if there is one, NULL exactly if there is none |
| Kernel.Kernel.Reap | kernel/arch/i386/sched.c:56-70 | a record is gone if and only if it was DEAD, on the heap and not the current one, so no other dead one is left; exactly their records and stacks leave the heap, whose block list is the one these frees give in any order; all other records keep everything but their link; the ring stays whole |
| Kernel.OnlyLiveLeft | kernel/arch/i386/sched.c:56-70 | then every record is a live task of the chain, the current one or the static one |
| Kernel.Kernel.Unlink | kernel/arch/i386/sched.c:61-64 | one unlinking with its two kfrees keeps ring, heap and the ownership of every other record and stack |
| Kernel.Kernel.TaskNew | kernel/arch/i386/sched.c:113-143 | after reaping, which leaves no dead heap record but possibly the current one, two fresh allocations: a READY record with the next pid, linked after the current one, and a stack with the frame its first switch pops; NULL exactly when the heap, once the dead tasks are freed, has no room for the record or then for the stack, and never while the unused part holds both; the block list afterwards in each case |
| Kernel.Kernel.TaskFitsExactly | kernel/arch/i386/sched.c:113-122 | on the one list that reaping leaves: a task fits exactly when a free block of 76 bytes or the unused part can take the record and then one of 4096 bytes or what is left can take the stack |
| Kernel.Kernel.AllocBlocks | kernel/arch/i386/sched.c:116-135 | both allocations and the frame written exactly when a free block or the unused part holds 76 bytes and then 4096, else the allocations as before; the block list in each case |
| KernelStacks.StacksDisjoint | kernel/arch/i386/sched.c:118-126 | the kernel stacks of different tasks do not overlap, because they are different live allocations |
| KernelStacks.MirrorsInv | kernel/arch/i386/sched.c:113-143 | what the switching machine assumes of its stacks (disjoint, in memory, saved pointers on them) follows from the heap and the records |
| KernelStacks.SwitchKeeps | kernel/arch/i386/sched.c:29-38 | schedule's switch is a legal step of the switching machine, which afterwards shows the records schedule left |
| KernelStacks.WorkKeeps | kernel/arch/i386/sched_switch.S:3-20 | work of the current task on its own stack keeps the heap and every record's allocations in place |
| KernelStacks.ReapIsLegal | kernel/arch/i386/sched.c:56-70 | reaping, with the kfrees' rewriting of the heap, is a legal run of nothing but frees of the reaped tasks and work of the current one; every other task keeps its stack bytes and its saved stack pointer |
| KernelStacks.TaskNewIsLegal | kernel/arch/i386/sched.c:113-143 | creating a task is such a run plus the one creation; it ends with the new task parked at the frame that was stored and nobody else disturbed |
| KernelStacks.SleepsOn | kernel/arch/i386/sched_switch.S:3-20 | through such a run a task that is not reaped is neither switched to nor freed and keeps its stack and saved stack pointer |
| KernelStacks.ChildEntersUser | kernel/arch/i386/sched.c:127-137 | whatever runs meanwhile, the first switch to the new task enters enter_user_mode_at with its entry point and user stack |
| KernelStacks.NewTaskShown | kernel/arch/i386/sched.c:113-143 | on a kernel object whose heap bytes the switching machine shows, sched_task_new, with or without success, is such a run, and the machine shows the kernel afterwards |
| KernelStacks.ScheduleShown | kernel/arch/i386/sched.c:22-43 | on a kernel object, schedule switches exactly when another task is READY; the pushes go to the old task's kernel stack in the heap's bytes, the heap and all records stay sound, and the machine has made that switch |
| Kernel.Kernel.FrameRestore | kernel/arch/i386/exec.c:45-55 | memory is the machine's restore of the frame |
| Kernel.Kernel.ExecRestore | kernel/arch/i386/exec.c:57-65 | a task with a frame restores memory, break and mark and gives the frame up; one without changes nothing |
| Kernel.Kernel.EndRecord | kernel/arch/i386/sched.c:83-93 | the leaf dies, its parent gets the zombie and becomes READY, its frame is restored |
| Kernel.Kernel.KillChildren | kernel/arch/i386/sched.c:77-81 | the ring loop with its recursion pops exactly the subtree below the task |
| Kernel.Kernel.TaskExitNoSwitch | kernel/arch/i386/sched.c:73-94 | terminates; a dead task changes nothing; a live one is popped with its descendants deepest first, leaving its parent READY |
| Kernel.Kernel.TaskExit | kernel/arch/i386/sched.c:96-107 | after the pop the parent runs as the leaf, or the machine halts when the root ended |
| Kernel.Kernel.SaveCaller | kernel/arch/i386/exec.c:101-107 | the pool after saving the window and the image overlap |
| Kernel.Kernel.Prepare | kernel/arch/i386/exec.c:117-123 | stack build then image load, with each failure |
| Kernel.Kernel.LinkChild | kernel/arch/i386/exec.c:129-139 | the new task becomes the leaf below its blocked caller with the frame that was saved |
| Kernel.Kernel.NewChild | kernel/arch/i386/exec.c:125-139 | the machine's launch exactly when the heap has room for a task, which it has while its unused part holds a record and a stack; else no change of the live tasks |
| Kernel.Kernel.RunSaved | kernel/arch/i386/exec.c:101-141 | the machine's step from the save on, including the restore on each failure; whether the allocation fails is decided by the heap before the call |
| Kernel.Kernel.ExecRun | kernel/arch/i386/exec.c:67-142 | the imperative exec_run over bytes, records, ring and kernel heap is the machine's Exec step, for every failure point and for success, and keeps the kernel invariant; it returns 0 if and only if the image has an extent and loads, the arguments are within 32 strings each and 4096 bytes, the caller can be saved in the pool and a task fits, all on the state before the call |
| KernelRuns.RunFirst | kernel/arch/i386/exec.c:67-142 | on the kernel as booted, with room for one task in the heap: a program of any code, stored in the kernel range, runs if and only if its arguments are within the limits; the current task is then pid 2, at the program's entry, with code, data and argument strings in place |
| Kernel.Kernel.SysExit | kernel/arch/i386/interrupt.c:194-196 | the machine's Exit step with status (code & 0xFF) << 8 |
| Kernel.Kernel.SysKill | kernel/arch/i386/interrupt.c:312-327 | the machine's Kill step with its EINVAL, ESRCH and probe cases |
| Kernel.Kernel.SysWait | kernel/arch/i386/interrupt.c:278-288 | the machine's Wait step, status written to memory when a pointer is given |
| KernelRuns.ExitThenWait | kernel/arch/i386/interrupt.c:278-288 | when the running program exits its caller is current again, and the caller's wait returns the program's pid and stores its status |
| Kernel.Kernel.SysSbrk | kernel/arch/i386/interrupt.c:104-123 | the machine's Sbrk step; the returned break lies in the heap |
| ContextSwitch.StepInv | kernel/arch/i386/sched_switch.S:3-20 | kernel work, switches, creation and freeing keep every sleeping task's saved stack pointer on its own stack |
| ContextSwitch.ResumesContext | kernel/arch/i386/sched_switch.S:3-20 | over any interleaving of switches a task switched back in has its callee-saved registers, return address, stack pointer and stack contents |
| ContextSwitch.FirstSwitchEntersUser | kernel/arch/i386/sched.c:127-137 | the first switch to a new task enters enter_user_mode_at with exactly (entry, user stack) |
| ContextSwitch.Cpu.SchedSwitch | kernel/arch/i386/sched_switch.S:3-20 | the push, swap and pop sequence is the machine's switch step |
| HeapBlocks.FirstFit | libc/stdlib/kmalloc.c:57-74 | the first free block that is big enough, none before it |
| HeapBlocks.ReleaseGood | libc/stdlib/kmalloc.c:75-96 | freeing with two-way coalescing leaves no two free neighbours and the same total extent |
| HeapBlocks.RunGood | libc/stdlib/kmalloc.c:98-150 | over every run of allocations and frees the blocks stay well formed and the used extent never shrinks |
| HeapBlocks.AllSpaceRecovered | libc/stdlib/kmalloc.c:75-96 | when a run has freed everything, one free block covers all space any state of the run used |
| HeapBlocks.AllocatedIsCall | libc/stdlib/kmalloc.c:114-134 | what kmalloc does to the list is a call of such a run |
| HeapBlocks.FreedIsCall | libc/stdlib/kmalloc.c:136-150 | what kfree does to the list is a call of such a run |
| HeapBlocks.FreedAllUnique | libc/stdlib/kmalloc.c:75-96 | the live allocations and the extent determine the block list, so the order of frees does not matter |
| HeapBlocks.FreedAllExists | libc/stdlib/kmalloc.c:75-96 | any set of allocations can be freed, each by one coalescing free |
| HeapBlocks.ReleaseLive | libc/stdlib/kmalloc.c:136-150 | a free takes away the one allocation and no other |
| HeapBlocks.RoomIs | libc/stdlib/kmalloc.c:114-134 | a request fits exactly when some free block is big enough or the rest of the heap is |
| KernelHeap.NoHeaderAtTop | libc/stdlib/kmalloc.c:61-64 | the zeros above the last block are what stops the magic-checked walk, also when the header would straddle the end |
| KernelHeap.WalkStep | libc/stdlib/kmalloc.c:61-71 | at each step of a walk the magic is there exactly if a block is, and the size link leads to the next one |
| KernelHeap.LivePayloadsDisjoint | libc/stdlib/kmalloc.c:114-134 | live allocations are pairwise disjoint, header included, and inside the heap |
| KernelHeap.JoinRep | libc/stdlib/kmalloc.c:79-85 | rewriting one size word turns the bytes of two blocks into the bytes of the joined list |
| KernelHeap.JoinContents | libc/stdlib/kmalloc.c:79-85 | joining two free blocks is invisible to clients |
| Kmalloc.FitsCheckIsExact | libc/stdlib/kmalloc.c:98-103 | the 32-bit size test is right if and only if the pointer sum does not wrap to or below the end of the heap |
| Kmalloc.WrappedRequestPasses | libc/stdlib/kmalloc.c:98-103 | a concrete request for which the test passes although the block does not fit |
| Kmalloc.Heap.Init | libc/stdlib/kmalloc.c:21-30 | the first call writes the sentinel, later ones nothing; clients see no change |
| Kmalloc.Heap.FindFreeBlock | libc/stdlib/kmalloc.c:57-74 | the walk over the bytes returns the first fit of the block list, or nothing if there is none |
| Kmalloc.Heap.ExpandHeap | libc/stdlib/kmalloc.c:98-112 | appends a block exactly when it fits; no other allocation changes |
| Kmalloc.Heap.Alloc | libc/stdlib/kmalloc.c:114-134 | for a size above 0 not NULL if and only if some free block is big enough or the part after the last block holds header and size; an unused heap hands out its first block at offset 24 whenever it is that big; otherwise a fresh allocation of at least that size, all others and their bytes kept |
| Kmalloc.Heap.PrevBlock | libc/stdlib/kmalloc.c:40-55 | the walk from the base finds the block just before |
| Kmalloc.Heap.Merge | libc/stdlib/kmalloc.c:79-85 | two free neighbours become one, heap_ptr follows when the last one is swallowed |
| Kmalloc.Heap.Coalesce | libc/stdlib/kmalloc.c:75-96 | forward then backward merge of the freed block; the client's view is unchanged |
| Kmalloc.Heap.Free | libc/stdlib/kmalloc.c:136-150 | NULL changes nothing; a live allocation disappears from the view and nothing else does; the extent is kept |
| Kmalloc.Heap.Realloc | libc/stdlib/kmalloc.c:153-186 | size 0 frees; a big enough block stays; otherwise the old bytes are a prefix of a fresh allocation and the old one is gone; not NULL exactly when a free block or the rest of the heap is big enough, else everything kept; on the block list it is nothing, kfree's step, kmalloc's step, or kmalloc's and then kfree's; the extent never shrinks |
| Kmalloc.EmptyHeapIsOneBlock | libc/stdlib/kmalloc.c:75-96 | with no live allocation the bytes hold the sentinel and at most one free block covering the whole extent |
| RamfsSpec.Overwrite | kernel/kernel/ramfs.c:381-391 | byte by byte: the written bytes, zeros in the hole, the old bytes elsewhere |
| RamfsTable.ReservedOk | kernel/kernel/ramfs.c:14-43 | growth in place or by move keeps blocks 16-aligned, disjoint, inside the used pool and at most 256 KiB |
| RamfsTable.ReservedByCase | kernel/kernel/ramfs.c:14-43 | the file whose block is the newest grows where it is, any other gets a block at the mark; failure exactly when the grown block would end beyond the pool |
| RamfsTable.NewCapacityIs | kernel/kernel/ramfs.c:19-22 | the new capacity holds the request, doubles the old one up to 256 KiB, and is at most 15 bytes more than that needs |
| RamfsTable.ReserveGivesUpEarly | kernel/kernel/ramfs.c:19-34 | the reserve of a request fails although the whole request would fit exactly when the pool ends between the needed and the doubled capacity |
| RamfsLimits.EnospcIsEarly | kernel/kernel/ramfs.c:363-379 | a write returns -ENOSPC although its first byte would fit if and only if that byte needs a bigger block and the pool ends between the least such block and the one the reserve tries for the whole request |
| RamfsLimits.RefusedWrite | kernel/kernel/ramfs.c:363-379 | in a well-formed state with 512 bytes of the pool free, a write of 1000 bytes to a file without a block returns -ENOSPC |
| RamfsWitness.RefusedRun | kernel/kernel/ramfs.c:332-394 | from ramfs_init, three files created and written in full reach that state, and the write to a fourth is refused |
| RamfsWitness.AddFile | kernel/kernel/ramfs.c:226-394 | creating a file and writing to it: the slot, the pool mark and the result |
| RamfsTable.OthersKept | kernel/kernel/ramfs.c:381-391 | bytes written inside one file's block, or above the used pool, leave every other file as it was |
| RamfsTable.ShrunkOk | kernel/kernel/ramfs.c:45-50 | truncating, or dropping a slot and lowering the mark for the tail block only, keeps the pool in order |
| RamfsTable.NodeCount | kernel/kernel/ramfs.c:204-212 | the table is full exactly when the file system has 64 nodes |
| RamfsNames.AbsInv | kernel/kernel/ramfs.c:9-53 | a well-formed table stands for a well-formed file system: unique names, parents older than children, numbers below the next one |
| RamfsNames.SlotIsChild | kernel/kernel/ramfs.c:126-135 | a slot with that parent and name is the child of that name in the tree |
| RamfsLaws.CreateInv | kernel/kernel/ramfs.c:231-250 | a new node keeps names unique and parents older than children |
| RamfsLaws.CreatedIsFound | kernel/kernel/ramfs.c:430-444 | a path just created is found again, as the new node |
| RamfsLimits.FailedOpenKeepsState | kernel/kernel/ramfs.c:419-464 | a failed open2 changes nothing if and only if it did not create the file with all descriptors taken |
| RamfsLimits.FailedLegacyOpenKeepsState | kernel/kernel/ramfs.c:226-271 | the same for the legacy open |
| RamfsLimits.FailedOpenLeavesFile | kernel/kernel/ramfs.c:246-264 | after a run that takes all 32 descriptors both opens fail to create a file, and it is there |
| RamfsLimits.OrphanedFile | kernel/kernel/ramfs.c:563-572 | mkdir, create inside, rmdir from the fresh file system: every call succeeds and a file hangs below no directory |
| RamfsLaws.StepInv | kernel/kernel/ramfs.c:226-585 | every call keeps the file system well formed |
| RamfsRuns.StepEffect | kernel/kernel/ramfs.c:226-585 | a call adds one node under the next number, or changes or removes at most the one node it names |
| RamfsRuns.RunDescends | kernel/kernel/ramfs.c:246-250 | over every run inode numbers are never reused and surviving nodes keep name, directory and kind |
| RamfsRuns.DescriptorSticks | kernel/kernel/ramfs.c:260-270 | over every run a descriptor stays on its file and in its mode until it is closed |
| RamfsRuns.DeadDescriptor | kernel/kernel/ramfs.c:300-311 | once its file is gone, read, write and lseek through a descriptor fail without effect until it is closed, whatever is created meanwhile |
| RamfsRuns.PathsNeverMove | kernel/kernel/ramfs.c:176-201 | after any run a path names nothing, the node it named before, or a node created in between |
| RamfsRuns.RunIsolates | kernel/kernel/ramfs.c:331-394 | a file that no call of a run writes, truncates or removes keeps its bytes |
| RamfsRuns.ReadBack | kernel/kernel/ramfs.c:289-394 | what a write stored is what any later read of that place returns, through any readable descriptor, as long as the file is untouched |
| RamfsRuns.HoleReadsZero | kernel/kernel/ramfs.c:381-391 | truncating open, seek, write: the file is zeros up to the offset and then the bytes written, also over stale bytes |
| RamfsRuns.AppendsConcatenate | kernel/kernel/ramfs.c:359-361 | after a run that only appends to a file, through any number of descriptors, it is its old bytes followed by every accepted part in call order |
| RamfsRuns.ConnectedUnlessOrphaned | kernel/kernel/ramfs.c:563-572 | every node keeps hanging below an existing directory if and only if the call is not a rmdir of a path that names a directory with entries |
| RamfsCalls.OpensExisting | kernel/kernel/ramfs.c:419-464 | open2 of an existing path, for all flags: EEXIST under create and exclusive, EISDIR, EMFILE, or the first free descriptor on that file, at its start, with the access mode and append bit of the flags; the file is emptied exactly by a truncating open for writing and no other node changes |
| RamfsCalls.OpensMissing | kernel/kernel/ramfs.c:430-464 | open2 of a path that does not exist succeeds exactly with the create flag, room in the table, an existing directory and a free descriptor, and then names a new empty file; else ENOENT |
| RamfsCalls.OpensTheFile | kernel/kernel/ramfs.c:446-463 | whenever open2 succeeds the descriptor is on the file the path now names, at offset 0, with the access mode and append bit of the flags |
| RamfsCalls.OpenThenRead | kernel/kernel/ramfs.c:289-464 | an existing file opened for reading without truncation yields its first bytes, and no node changed |
| RamfsCalls.ModeIsEnforced | kernel/kernel/ramfs.c:313-358 | on a new descriptor writes are refused exactly in the read-only mode and reads exactly in the write-only one |
| RamfsCalls.OpenByCase | kernel/kernel/ramfs.c:226-271 | the legacy open: an existing file for reading and writing, a new one when bit 0 is set, -1 exactly otherwise |
| RamfsCalls.CloseByCase | kernel/kernel/ramfs.c:274-286 | 0 exactly for an open descriptor, which is then free, the others as before; -1 and no effect otherwise |
| RamfsCalls.ReadByCase | kernel/kernel/ramfs.c:289-329 | -1 without a file or in the write-only mode, 0 exactly at or past the end or for no bytes, else as many bytes at the offset as there are, and the offset moves past them |
| RamfsCalls.ReadsConcatenate | kernel/kernel/ramfs.c:317-328 | reading in pieces of any sizes returns the file in order, nothing twice and nothing left out, and stops at its end |
| RamfsCalls.WriteByCase | kernel/kernel/ramfs.c:332-394 | -1 without a file or in the read-only mode; else from the end in append mode and the offset otherwise, as much as the limit and the room allow, byte by byte; ENOSPC exactly if that is nothing |
| RamfsCalls.LseekByCase | kernel/kernel/ramfs.c:466-491 | EBADF, EINVAL, or the position counted from the start, the offset or the end of the file |
| RamfsCalls.MkdirByCase | kernel/kernel/ramfs.c:529-560 | 0 exactly for a new path in an existing directory with a node left, and then the path names an empty directory; -1 and no effect otherwise |
| RamfsCalls.RemoveByCase | kernel/kernel/ramfs.c:563-585 | 0 exactly for a path that names a node of the wanted kind, and exactly that node goes; -1 and no effect otherwise |
| RamfsCalls.UnlinkedIsGone | kernel/kernel/ramfs.c:575-585 | after an unlink the path names nothing and every path of another node names what it named |
| RamfsCalls.SavedAndLoaded | kernel/kernel/ramfs.c:274-464 | a file written, closed and opened again for reading: the second open succeeds and reads back exactly what the write stored |
| RamfsPaths.LookupComposes | kernel/kernel/ramfs.c:100-201 | a directory path, a slash and a name is that name in that directory; after anything that is no directory it names nothing |
| RamfsPaths.LongPrefixIsCut | kernel/kernel/ramfs.c:164-169 | a path whose directory prefix has 256 characters or more names whatever the path with the prefix cut to 255 names |
| Ramfs.Ramfs.constructor | kernel/kernel/ramfs.c:81-95 | the fresh file system: the root directory, no descriptors, next number 1 |
| Ramfs.Ramfs.FindDir | kernel/kernel/ramfs.c:125-135 | the slot of a directory with that parent and name, or none exists |
| Ramfs.Ramfs.ResolveDir | kernel/kernel/ramfs.c:100-149 | the character walk agrees with following the components in the naming tree |
| Ramfs.Ramfs.FindLastSlash | kernel/kernel/ramfs.c:153-158 | the position of the last slash, or -1 |
| Ramfs.Ramfs.SplitPath | kernel/kernel/ramfs.c:151-173 | directory prefix, cut to 255 characters, and final component |
| Ramfs.Ramfs.FindInode | kernel/kernel/ramfs.c:176-201 | the slot of the node the naming tree has at this path, -1 exactly if there is none |
| Ramfs.Ramfs.FindFreeInode | kernel/kernel/ramfs.c:204-212 | a free slot, -1 exactly when there are 64 nodes |
| Ramfs.Ramfs.FindFreeFd | kernel/kernel/ramfs.c:215-223 | the first free descriptor, -1 if there is none |
| Ramfs.Ramfs.InodeByIno | kernel/kernel/ramfs.c:396-407 | the slot with that number and what it stands for, -1 exactly if no node has it |
| Ramfs.Ramfs.Reserve | kernel/kernel/ramfs.c:14-43 | grows in place or by move without changing any file; on failure nothing changes |
| Ramfs.Ramfs.MoveBlock | kernel/kernel/ramfs.c:35-41 | a file moved to a new block at the mark keeps its bytes, and so does every other file |
| Ramfs.Ramfs.Store | kernel/kernel/ramfs.c:381-391 | the file's bytes become the overwrite, every other node is kept |
| Ramfs.Ramfs.Read | kernel/kernel/ramfs.c:289-329 | result, bytes and new offset are those of the abstract read, in every error and end-of-file case |
| Ramfs.Ramfs.Write | kernel/kernel/ramfs.c:332-394 | result and state are those of the abstract write: append offset, size limit, short write, ENOSPC, hole; slot and pool mark afterwards exactly; ENOSPC although a byte would fit exactly when the reserve gives up early |
| Ramfs.Ramfs.WriteFile | kernel/kernel/ramfs.c:356-393 | the same for a file open for writing, with the room the reserve gives |
| Ramfs.Ramfs.ReserveAndStore | kernel/kernel/ramfs.c:373-393 | from the reserve on: how much is stored, or ENOSPC, by the room there is |
| Ramfs.Ramfs.Lseek | kernel/kernel/ramfs.c:466-491 | the abstract seek with its EBADF and EINVAL cases |
| Ramfs.Ramfs.Close | kernel/kernel/ramfs.c:274-286 | the abstract close |
| Ramfs.Ramfs.CreateInode | kernel/kernel/ramfs.c:231-250 | the abstract creation, failing exactly when the table is full or the directory is missing |
| Ramfs.Ramfs.AttachFd | kernel/kernel/ramfs.c:260-270 | the first free descriptor opened at offset 0, or -1 with nothing changed |
| Ramfs.Ramfs.Open | kernel/kernel/ramfs.c:226-271 | the abstract legacy open |
| Ramfs.Ramfs.Open2 | kernel/kernel/ramfs.c:419-464 | the abstract open with create, exclusive, truncate and append flags and each error; on success the first free descriptor is on the node of the path, at offset 0, in the mode of the flags |
| Ramfs.Ramfs.OpenExisting | kernel/kernel/ramfs.c:446-463 | the part after the file was found: EISDIR, EMFILE, or the first free descriptor at offset 0 with the access mode and append bit of the flags, the size set to 0 exactly by truncation for writing |
| Ramfs.Ramfs.Mkdir | kernel/kernel/ramfs.c:529-560 | the abstract mkdir |
| Ramfs.Ramfs.Rmdir | kernel/kernel/ramfs.c:563-572 | the abstract removal of any directory; the table stays well formed if and only if it is not the root |
| Ramfs.Ramfs.Unlink | kernel/kernel/ramfs.c:575-585 | the abstract removal of a file; its slot is zeroed and the pool ends where its block began if that was the newest, else where it did |
| Ramfs.Ramfs.FileData | kernel/kernel/ramfs.c:516-526 | where the bytes of the regular file at this path lie in the pool; nothing for directories and missing paths |

## Left out

- Bootloader, `boot.S`, GDT/IDT/PIC/PIT setup and port I/O: hardware plumbing with nothing unbounded to prove.
- Page-table user bits: `paging_map_user_range` does not change data memory and is left out of the steps that call it.
- Terminal, keyboard, shell and the other user programs, `printk` and `snprintk`: no effect on the modelled state.
- newlib glue, the `int 0x80` wrappers, `sys_wrap_fd` and the console descriptors in `sys_read`/`sys_write`: thin wrappers.
- Ring 3 entry by `iret`, interrupt entry stubs, the TSS: user execution is the constrained write step of the machine.
- `ramfs_populate`: it stores the embedded programs, which are generated files; the model starts from the empty file system.
- `ramfs_ls`: it only prints. `ramfs_stat` and `ramfs_fstat`: they copy the type, size and number of a node that `Ramfs.FindInode` and `Ramfs.InodeByIno` find, and change nothing.
- `elf_exec_file`: it runs a program without saving a caller and is not used by the exec system call.
- The static buffers `exec_pool` and `kargs`, the RAMFS pool and the kernel heap are arrays of their own, not ranges of the memory programs run in, so that a root task overwriting them is not captured; program files are read from the kernel range of memory at the place `FileData` reports.
- The stack window and what lies above it, as seen by the root task: the code does not save them for a caller that is no program. All memory below the window outside the user heap, and the heap below the break, is covered (`ExecHeap.LowMemorySurvivesExec`, `ExecHeap.HeapSurvivesExec`).
- Task records live in a map by address, so that every access proves the record is not freed; the raw layout of the record inside its allocation and the aliasing of its fields are not captured.
- Kernel.Kernel.ExecRun: stops at the switch to the child; what the caller finds when the call returns is `ExecResume.ReturnsFromExec` and `ExecResume.ResumesAsCalled`.
- Kernel.Kernel.Schedule: the registers and the pushes of the switch are in `ContextSwitch.Cpu.SchedSwitch`; `KernelStacks.ScheduleShown` puts the two together on a kernel object.
- ContextSwitch.Cpu.SchedSwitch: the two argument loads are the method's parameters.
- RoundRobin.RunsWithinDistance: records linked in between the calls, which can put a task farther away, are not covered; records reaped are.
- Wrap-around of `next_pid` and `ramfs_next_inode`: numbers are unbounded here.
- Kmalloc.Heap.Free and Kmalloc.Heap.Realloc: pointers that are not live allocations are excluded; for live ones the magic check always passes.
