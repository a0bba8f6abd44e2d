# A verified model of the PKE kernel

PKE is a small teaching kernel for RISC-V. This project models, in Dafny, the parts of it where
correctness is hard to see, and proves what they are for:

* `Sv39`, `PageTable`, `Memory`, `Hardware`: physical frames, the intrusive free list, and the
  three-level Sv39 page tables built inside those frames. The mutable tree is proved to be a plain map
  from virtual pages to entries: mapping is a map update, unmapping undoes it, and the kernel's own walk
  agrees with the translation process of section 4.3.2 of the RISC-V Privileged Architecture, version
  20211203, exactly where both see the page alike.
* `Ownership`, `Images`, `Forking`, `ProcessMemory`: who holds each frame, and the operations that build,
  copy, replace and reap a process. A ghost map gives every managed frame one use; all operations keep it
  in step with the free list, the page tables and the process table.
* `Reaping`, `Ledger`: what a process gives back when it is reaped or replaced, and where every frame goes over a
  whole run: it is free, or a process's, or lost to one of five named causes.
* `Placement`, `Freeing`, `Arguments`: three places, of what is modelled here, where the code does not keep that
  invariant, and exactly when. Exec stores its result through the trapframe the process had before, whose frame
  may be a page table or a page of the new program by then; `sys_user_free_page` hands back a frame that another
  page may still use; exec copies argument strings eight bytes apart to the top of the new stack, where a long
  one runs over the one before it, and the first over the end of the frame.
* `Scheduler`, `Fairness`: the process table and the linked ready queue, as a class whose methods are
  refined to events on a small abstract view, and bounded waiting over every run of such events.
* `Steps`, `Runs`, `Kernel`: one state machine whose steps are the traps of a running process. Each step has its
  effect on memory and on the process table stated as a relation, halts only for a stated reason, and keeps the whole invariant exactly if
  it is not an exec or a free in a case that breaks it. A run over any list of traps is a sequence of states, each
  in order and each following from the one before, that ends with the list or for a reason found in its last state.
* `Boot`, `Machine`: the free list, the kernel page table and the RAM disk as start-up builds them, and the whole
  machine: boot, then any run, with the disk and the kernel's page table out of every process's reach.
* `Fdt`: the flattened device tree scanner, which also deletes nodes in place (section 5.4 of the
  Devicetree Specification, release v0.3).
* `Text`, `Shell`, `UserBuffer`, `Bytes`: the bounded formatter, `atol`, the shell's command parser, the loops
  that hand user buffers to a device page by page, and the bytes that `sys_user_read` leaves in one.

Code that works on memory in place is modelled by classes and by methods with loops over arrays; each is
proved against a specification function or relation, and the promises are lemmas about those.

How the code is read:

* Machine words are naturals below 2^64; every place where 64-bit arithmetic can wrap says so (`Span`,
  `UnmapSpan`, `PaAt`, the heap pointer). Frame numbers stand for addresses of frames.
* Memory and the trap vector lie above the user stack (kernel/memlayout.h:5-15), which start-up establishes and process creation requires.
* A process that runs keeps status READY, because the assignment in `schedule` is written as a comparison
  (kernel/sched.c:70).
* Nothing assumes that frames suffice, and a machine that halts for want of them had too few before the trap:
  `Steps.Short` says how many each trap may need. Where the code uses a null page the machine halts; where it ignores
  the result of `map_pages` (in `do_fork`) the page is missing and the contract says that the free list was
  empty; where it ignores the result of `alloc_page` and goes on (heap pages, store faults) the page is mapped
  to physical address 0.
* Heap pages and pages from store faults are not on the region list, so a fork does not copy them and
  reaping does not return them; intermediate page tables and the open-file page are not returned either.
  `ProcessMemory.Reap` states exactly which frames are.
* The result of a system call is stored in the trapframe the handler was given (kernel/strap.c:29). For exec that
  is the old one, a frame freed by then (kernel/process.c:185-204) and perhaps taken again. The frames of an exec
  are taken in a fixed order, so where that frame ends up follows from the region list before the call:
  `Placement.Cuts` says whether a table entry in use is erased, `Placement.Spoils` whether the program is changed.
  Runs stop before an exec that cuts, as they do before a free of a frame still in use and before an exec whose
  arguments do not fit the stack's frame.
* Exec's table of arguments ends with a pointer to a word 0, not with a null pointer (kernel/elf.c:200-213).
* `sys_user_read` stores through the kernel's own map. What a process maps outside the managed memory is frame 0,
  which that map lacks, and the trap vector's page, which it has without write access, so there the kernel faults.
* Fork maps code pages writable in parent and child, so isolation is stated for all pages but code.
* The comment above `rrsched` says a process is preempted when its count is bigger than the slice length; the
  code preempts when it is equal, and the model follows the code.
* A `%c` fetches its argument only when the character is stored. So what `snprintf` promises is false of some
  formats; `Text.TruncatesIff` gives exactly those for which it holds.

`dafny verify dfyconfig.toml` checks everything.

## Model

| member | source | states |
|---|---|---|
| `Sv39.MakePteFields` | kernel/riscv.h:158-172 | an entry made for an address and permissions is valid, gives back that page's address and exactly those permissions |
| `Sv39.PxDigits` | kernel/riscv.h:175-182 | below MAXVA the three indices are the base-512 digits of the page number, the first below 256 |
| `Sv39.ProtFlags` | kernel/vmm.c:36-44 | a page is writable, executable or user-accessible exactly if asked; readable if asked or if nothing was; never valid by itself |
| `PageTable.HoldsFrame` | kernel/vmm.c:50-83 | a tree depends only on the frames that hold its own tables |
| `PageTable.StoreLeaf` | kernel/vmm.c:26-28 | writing one leaf word is a point update of the page map and leaves every other translation alone |
| `PageTable.LinkTable` | kernel/vmm.c:69-78 | linking a zeroed frame as a new table changes no translation and keeps tables distinct |
| `PageTable.WalkStep` | kernel/vmm.c:62-68 | an interior entry is a link to the child's frame or zero, so the valid bit decides whether there is a child |
| `PageTable.NoLeafBelow` | kernel/vmm.c:69-78 | a missing table on the way means there is no leaf table |
| `PageTable.LeafWord` | kernel/vmm.c:82 | the word a complete walk ends at is the page's entry, or zero if it is not mapped |
| `PageTable.TookMore` | kernel/vmm.c:50-83 | the tables a walk adds sit, in order, in the next frames of the free list, and nothing else comes off it; this composes over walks |
| `PageTable.PathsAdd` | kernel/vmm.c:19-31 | the tables missing for a range are those for its first part, then those still missing for the rest |
| `PageTable.GrownTrans` | kernel/vmm.c:50-83 | growth composes: only tables are added, each in a frame off the free list, every frame taken is linked, nothing else is written |
| `PageTable.UnmapUndoesMap` | kernel/vmm.c:180-203 | on page maps: unmapping a range just mapped gives back the old map, and the frames pushed are exactly the range's, each once |
| `PageTable.MappedIsRemovable` | kernel/vmm.c:180-203 | pages just mapped with some permission can all be unmapped; if their frames are lent by the allocator they may be handed back |
| `Memory.PopFree` | kernel/pmm.c:54-60 | following the link of the first free frame leaves a well-formed list of the rest |
| `Memory.PushFree` | kernel/pmm.c:38-48 | a frame in use, linked in front, makes a well-formed list without repeats |
| `Memory.Memory.AllocPage` | kernel/pmm.c:54-60 | takes the first frame of the list, or returns null exactly if it is empty |
| `Memory.Memory.FreePage` | kernel/pmm.c:38-48 | refuses an address that is unaligned or out of range; otherwise the frame is first on the list and only its first word changed |
| `Memory.Memory.PageWalk` | kernel/vmm.c:50-83 | halts exactly beyond MAXVA; otherwise reaches the leaf word of the page, or null, when allocating only because the list is empty; no translation changes, and without alloc nothing changes |
| `Memory.Memory.AddTable` | kernel/vmm.c:69-78 | the allocating branch adds one zeroed table below an entry, or changes nothing because no frame is left |
| `Memory.Memory.MapPages` | kernel/vmm.c:19-31 | the page map gains exactly the first n pages of the range with consecutive frames and the given flags; n is all of them, or the next page is taken (panic), or frames ran out; every frame taken is linked into the tree |
| `Memory.Memory.WalkLevel` | kernel/vmm.c:62-80 | one level of the walk finds the child or, when allocating, adds it in the next free frame |
| `Memory.Memory.LookupPa` | kernel/vmm.c:88-100 | equals the lookup in the page map and changes nothing |
| `Memory.Memory.UserVaToPa` | kernel/vmm.c:150-165 | null exactly where the lookup is, else page address plus offset |
| `Memory.Memory.UserVmUnmap` | kernel/vmm.c:180-203 | removes exactly the first n pages and pushes their frames in order; stops short only at a page that is not mapped by a leaf or not managed; page tables stay intact and no other frame is written |
| `Memory.Memory.MapThenUnmap` | kernel/vmm.c:180-203 | mapping a range and unmapping it restores every translation; the free list is the range's frames, each once, on what the walk left of the old list |
| `Hardware.HwReachesLeaf` | kernel/vmm.c:50-83 | the hardware walk passes no superpage and no reserved encoding and ends at the page's own entry |
| `Hardware.SoftwareMatchesHardware` | kernel/vmm.c:88-100 | kernel and hardware translate an address alike if and only if the page's entry is readable (and not frame 0) or gives neither any access |
| `Ownership.OtherSlotKept` | kernel/process.c:184-384 | a step that is local to one slot keeps every other slot's page table, backing and image intact |
| `Ownership.GrowOwners` | kernel/vmm.c:50-83 | frames taken for page tables are accounted to the process, and only its tables and free frames changed |
| `Ownership.TrimOwners` | kernel/vmm.c:180-203 | frames handed back by unmapping become free, private pages of that process only, and its page table stays in order |
| `Ownership.TakeOwner` | kernel/pmm.c:54-60 | taking the first free frame for a use keeps list and uses in agreement |
| `Ownership.BackedReclaimable` | kernel/vmm.c:197-200 | private pages of a process are distinct frames, neither free nor tables, so handing them back frees no frame twice |
| `Ownership.GainedStep` | kernel/process.c:349-366 | after each region of the list, the free list has gained exactly the pages of the reclaimed regions done so far |
| `Images.SlotsKept` | kernel/process.c:85-384 | all other slots survive a local step |
| `Images.SegmentAdded` | kernel/elf.c:23-35 | a loaded segment extends a process image to a well-formed one |
| `Images.LoadedStep` | kernel/elf.c:64-103 | loading one more segment leaves the pages loaded before it mapped and unchanged |
| `Images.FixedMapped` | kernel/process.c:130-150 | stack, trapframe and trap vector, mapped into an empty directory, are three disjoint regions, all backed |
| `Images.RemovedRegion` | kernel/process.c:349-366 | unmapping one region leaves the pages of the regions still to come mapped |
| `Images.NotReached` | kernel/process.c:262-384 | a free frame, or one of the kernel, is not kernel stack, trapframe, region page, page table or mapped page of a process |
| `Images.HandableRemovable` | kernel/process.c:349-366 | a process whose listed pages are all there, in managed frames where those are handed back, can be taken down |
| `Images.StoreKeepsSlots` | kernel/process.c:262-329 | a store into a code or private page keeps every slot in order and the kernel's frames unchanged |
| `Placement.TrapframeAt` | kernel/process.c:186-196 | unmapping the regions in order leaves the old trapframe on the free list behind one frame for each data page |
| `Placement.OldTrapframe` | kernel/process.c:185-204 | when exec starts taking frames the list begins with the old directory, and the old trapframe lies behind it and the data pages |
| `Placement.FixedTook` | kernel/process.c:222-243 | the tables for stack, trapframe and trap vector take the next frames in this order |
| `Placement.OneMoreSeg` | kernel/elf.c:64-103 | a segment takes one frame for its page, then one for each table it lacks |
| `Placement.PlacedBy` | kernel/process.c:184-253 | all frames of an exec come off the list in the order of the plan, each to its role |
| `Placement.Enough` | kernel/process.c:184-253 | nine frames and three for each segment are enough for any exec, whatever the old image was |
| `Placement.TooFewForPlan` | kernel/elf.c:64-103 | frames that run out while segments are loaded were fewer than the whole plan from the start |
| `Placement.SurvivesIff` | kernel/strap.c:29 | clearing word 9 of the n-th frame keeps the new image in order if and only if that frame is no table with entry 9 in use |
| `Placement.IntactIff` | kernel/strap.c:29 | and the program is as loaded if and only if that frame is none of its pages with word 9 not 0 |
| `Placement.AfterExec` | kernel/strap.c:19-31 | both for the old trapframe, the condition being one on the old region list and directory and the program |
| `Placement.NewTrapframeElsewhere` | kernel/process.c:204-208 | the new trapframe is the old directory's frame, so the store never hits it |
| `Placement.OneDataPage` | kernel/strap.c:29 | with one data page nothing is lost, whatever is loaded |
| `Placement.FiveDataPages` | kernel/strap.c:29 | with five, the image is cut if and only if page 9 of the new trapframe's leaf table is mapped; always if that is the trapframe |
| `Placement.SevenDataPages` | kernel/strap.c:29 | with seven, and a trap vector with a table of its own, a word of the program's first page is lost if it is not 0 |
| `Arguments.FitIff` | kernel/elf.c:200-208 | arguments fit if and only if they are one to ten strings and all copies stay inside the stack's frame |
| `Arguments.OneMoreString` | kernel/elf.c:200-208 | one more copy: each string before it is as it was, or its place holds the rest of the new one |
| `Arguments.ArrivesIff` | kernel/elf.c:200-208 | a string arrives if and only if the last one to run over it leaves the same text there |
| `Arguments.ShortArrive` | kernel/elf.c:200-208 | strings of at most seven characters all arrive |
| `Arguments.LongRunsOver` | kernel/elf.c:200-208 | "echo helloworld" is called with the name "ld" |
| `Arguments.OverrunIff` | kernel/elf.c:200-208 | where the frame behind the stack's is free, the first string leaves the free list in order if and only if it has at most eight characters |
| `Arguments.PushStrings` | kernel/elf.c:200-208 | after all copies the C string at each place is the one stated |
| `Arguments.PushPointers` | kernel/elf.c:204-213 | the word 0 and a pointer to each string, above them nothing is touched |
| `Arguments.PushArguments` | kernel/elf.c:198-216 | strings, pointers, and sp, a0 and a1 of the trapframe, all other registers 0; no other frame is written |
| `Arguments.ArgumentsKept` | kernel/strap.c:29 | only the last 22 words of the stack and the trapframe matter to the arguments |
| `Freeing.FreedIff` | kernel/vmm.c:193-201 | with the page unmapped and its frame on the list, all slots are in order if and only if the page is not the trapframe and no other page has the frame |
| `Freeing.ReachableYetFree` | kernel/syscall.c:59-62 | otherwise the frame is free and in reach of a process |
| `Freeing.OwnTrapframe` | kernel/syscall.c:59-62 | freeing the page at its trapframe's address is accepted from every process, and its frame is still in use |
| `Freeing.FreedKernel` | kernel/vmm.c:193-201 | whatever else a free breaks, the kernel's frames keep use and contents |
| `Forking.ForkBegun` | kernel/process.c:265-277 | after the copies of stack and saved context the child has the parent's stack in a frame of its own and the parent's 35 saved words |
| `Forking.ForkStep` | kernel/process.c:278-315 | one more region: code pages are the parent's frames, data pages private copies; everything forked before stays |
| `Forking.ForkDone` | kernel/process.c:319-320 | setting a0 to 0 in the child's trapframe disturbs nothing else that was forked |
| `Forking.StuckPage` | kernel/process.c:278-315 | a page that cannot be forked lies above the user stack or cannot be read in the parent |
| `Forking.ChildReadsParent` | kernel/process.c:262-329 | after a fork the child reads, in data regions and on its stack, the very words the parent read before; its code pages are the parent's |
| `Forking.PrivateFrame` | kernel/process.c:295-307 | a managed frame of a page outside code is mapped by no other process |
| `Forking.StoreInvisible` | kernel/process.c:295-307 | a store to such a page changes nothing another process reads |
| `Forking.StoreIsolated` | kernel/process.c:262-329 | the same for every other process and address at once |
| `ProcessMemory.ProcessMemory.constructor` | kernel/process.c:85-95 | an empty process table over any sound memory meets the invariant; every managed frame that is not free is the kernel's; the heap starts at 0x400000 |
| `ProcessMemory.ProcessMemory.FreeUnreachable` | kernel/pmm.c:38-60 | in every state: the free list has no repeats, is in range, and no frame on it is reachable from a process |
| `ProcessMemory.ProcessMemory.KernelUnreachable` | kernel/kernel.c:57-70 | in every state: a frame of the kernel is not free and no process reaches it |
| `ProcessMemory.ProcessMemory.OnlyCodeShared` | kernel/process.c:278-315 | in every state: two processes share no managed frame but code |
| `ProcessMemory.ProcessMemory.Take` | kernel/pmm.c:54-60 | null exactly if the list is empty; otherwise the first free frame takes the given use |
| `ProcessMemory.ProcessMemory.Give` | kernel/pmm.c:38-48 | a frame held by a process goes back on the list; the range check never fails |
| `ProcessMemory.ProcessMemory.MapPage` | kernel/vmm.c:170-174 | one page is mapped, or it was mapped already or beyond MAXVA (panic), or no frame is left; only this process's tables grow, each in the next free frame |
| `ProcessMemory.ProcessMemory.UnmapRange` | kernel/vmm.c:180-203 | all pages are unmapped and, if asked, exactly their frames freed, in order; fails exactly if one of them cannot be |
| `ProcessMemory.ProcessMemory.UnmapRegions` | kernel/process.c:349-366 | frees exactly the pages of stack, context and data regions, in order; fails exactly if a listed page is missing or unmanaged |
| `ProcessMemory.ProcessMemory.MapFixed` | kernel/process.c:130-150 | the three fixed regions of a new image; fails only for want of frames |
| `ProcessMemory.ProcessMemory.AllocImage` | kernel/process.c:100-166 | a well-formed image in at most twelve frames off the front of the free list, trapframe and directory the first two, with a cleared trapframe and exactly the three fixed mappings, the last two not for user mode; nothing else touched; fails only if fewer than twelve are left |
| `ProcessMemory.ProcessMemory.TearDown` | kernel/process.c:347-368 | the free list gains exactly kernel stack, region page, directory, user stack, trapframe and the pages of data regions: five frames and one for each data page; what p still holds of its tree are the tables below the directory and the pages on no list |
| `ProcessMemory.ProcessMemory.Reap` | kernel/process.c:343-376 | the slot is vacant; the free list gained exactly kernel stack, region page, directory, user stack, trapframe and the frames of data regions, in that number; of its tree the slot keeps exactly the lower tables and the pages on no list, and no frame is its kernel stack or region page; no other slot's frame changed; fails exactly if a listed page cannot be unmapped |
| `Images.VacantUnstaffed` | kernel/process.c:343-376 | in every state a vacant slot has no kernel stack and no region page |
| `Images.StaffUses` | kernel/process.c:100-166 | in every state each kernel stack and region page is that of a process there is, and the only one it has |
| `Reaping.RefundedBy` | kernel/process.c:349-366 | the regions hand back exactly the frame of the user stack page, the trapframe, and the frames of pages in data regions |
| `Reaping.PushedCount` | kernel/process.c:349-366 | that is two frames and one for each data page |
| `Reaping.WhatIsLeft` | kernel/process.c:343-376 | afterwards a page of the old tree still counts as the slot's if and only if no region lists it, every table but the directory does, and nothing else of the image |
| `ProcessMemory.ProcessMemory.LoadSegment` | kernel/elf.c:23-35 | the segment's page is mapped readable, writable and executable, holds the file's contents and is listed; fails only if taken or for want of frames |
| `ProcessMemory.ProcessMemory.LoadSegments` | kernel/elf.c:64-103 | every segment is loaded and listed in order; fails only if the list is shorter than the plan of pages and tables, or if two pages coincide or lie above the stack |
| `ProcessMemory.ProcessMemory.DropImage` | kernel/process.c:185-204 | directory, user stack, trapframe and the frames of data regions go back, three frames and one for each data page, kernel stack and region page stay; the new list is known frame by frame |
| `ProcessMemory.ProcessMemory.BuildImage` | kernel/process.c:206-252 | the new trapframe, directory and stack are the first three frames of the list, the tables the next ones; fails only for want of frames |
| `ProcessMemory.ProcessMemory.ReallocImage` | kernel/process.c:184-253 | a fresh image on the old kernel stack and region page; directory, user stack, trapframe and data pages went to the free list before frames were taken; no other slot changes |
| `ProcessMemory.ProcessMemory.Spawn` | kernel/process.c:100-166 | a new process with its program loaded, its stack pointer set and all other registers 0, which can be taken down again; every other frame in use is untouched; exactly five frames, one for each segment and its tables are taken; fails only for a program that does not fit or with fewer than twelve frames and three for each segment |
| `ProcessMemory.ProcessMemory.LoadArguments` | kernel/elf.c:198-216 | strings, pointers and registers are in the new stack and trapframe, two private frames, and nothing else is written |
| `ProcessMemory.ProcessMemory.Exec` | kernel/elf.c:172-240 | the program is replaced by the new one, all of it loaded and called with its arguments, the old image's frames given back first; no other slot changes; the new image can be taken down again; fails only if the list, the old image's frames included, is shorter than the plan, or for a page missing in the old image, or a program that does not fit below the stack |
| `ProcessMemory.ProcessMemory.ExecTrap` | kernel/strap.c:19-31 | exec and the store of its result through the old trapframe: free list, uses, every other slot and the arguments always survive; the invariant holds if and only if the store does not cut the new image, the program is intact if and only if it does not spoil it; fails as Exec does |
| `ProcessMemory.ProcessMemory.AllocateHeapPage` | kernel/syscall.c:46-54 | the page at the heap pointer is mapped to the first free frame (to address 0 if there is none) and the pointer moves on by a page; no frame but that and those of new tables is taken; fails as StoreFault does |
| `ProcessMemory.ProcessMemory.StoreFault` | kernel/strap.c:50-68 | the faulting page is mapped likewise; fails only if mapped already, beyond MAXVA, or with fewer than three frames left |
| `ProcessMemory.ProcessMemory.FreeUserPage` | kernel/syscall.c:59-62 | on any address: fails exactly if unaligned, unmapped or unmanaged; else the page is unmapped and its frame first on the list (at the last page of the address space nothing happens); the invariant holds if and only if the page is not the trapframe and no other page has the frame, and otherwise a frame in reach of a process is free |
| `ProcessMemory.ProcessMemory.ForkCodePage` | kernel/process.c:279-287 | the child maps the parent's frame; a page is left out only when no frame is left for a table |
| `ProcessMemory.ProcessMemory.ForkDataPage` | kernel/process.c:296-307 | the child maps a new private frame with the parent's contents; fails only for stated reasons |
| `ProcessMemory.ProcessMemory.ForkPage` | kernel/process.c:278-315 | one turn of either loop, code or data |
| `ProcessMemory.ProcessMemory.ForkRegion` | kernel/process.c:278-315 | every page of a region is forked in this way |
| `ProcessMemory.ProcessMemory.ForkRegions` | kernel/process.c:267-317 | all code and data regions of the parent are forked and listed in order |
| `ProcessMemory.ProcessMemory.ForkImage` | kernel/process.c:262-329 | the whole child image; fails only if frames run out, a page cannot be read, or a region lies above the stack |
| `ProcessMemory.ProcessMemory.Fork` | kernel/process.c:262-329 | equal contents in different frames for data and stack, same frames for code, equal saved registers but a0 = 0; frames only came off the free list; nothing of the parent or of any other slot changed; exactly five frames, one for each data page and the child's tables are taken; fails only for a page that cannot be read or with fewer than twelve frames and three for each page listed |
| `ProcessMemory.ProcessMemory.UserStore` | kernel/process.c:262-329 | a store writes one word of the mapped frame if user mode may write the page, and nothing otherwise; it keeps the invariant, and off code pages is invisible to every other process |
| `ProcessMemory.ProcessMemory.CopyIn` | kernel/syscall.c:130 | the device's copy into one page keeps the invariant and the kernel's frames |
| `ProcessMemory.ProcessMemory.ReadPiece` | kernel/syscall.c:126-131 | one turn of the read loop: the bytes are stored at consecutive addresses of the page's frame, or there is no memory behind it |
| `ProcessMemory.ProcessMemory.ReadInto` | kernel/syscall.c:123-134 | the bytes delivered are stored one by one at the addresses of the user's buffer, whatever frames back it; fails exactly if one of them has no memory behind it; keeps the invariant, and off code no other process sees it |
| `Scheduler.QueuePop` | kernel/sched.c:66-68 | removing the head leaves the list of the rest, which does not contain it |
| `Scheduler.QueuePush` | kernel/sched.c:26-33 | linking a process behind the last makes the list longer by it and changes no other status |
| `Scheduler.Scheduler.Walk` | kernel/sched.c:26-30 | finds the process exactly if it is queued; otherwise ends at the last element |
| `Scheduler.Scheduler.Insert` | kernel/sched.c:13-36 | appends and marks READY exactly if not queued already; the list stays acyclic and null-terminated |
| `Scheduler.Scheduler.Schedule` | kernel/sched.c:45-73 | an empty queue means shutdown exactly if every slot is free or a zombie; otherwise the head is current and off the queue |
| `Scheduler.Scheduler.RrSched` | kernel/strap.c:73-85 | a tick always ends in a dispatch: the slice counts up, or at its end the process goes to the rear and the head runs; every process keeps state, pid and parent |
| `Scheduler.Scheduler.DoYield` | kernel/syscall.c:75-83 | the caller goes to the rear and the head runs; every process keeps state, pid and parent |
| `Scheduler.Scheduler.DoExit` | kernel/syscall.c:35-41 | shutdown exactly if nobody is queued, else the head runs; never the unhandled case |
| `Scheduler.Scheduler.FindFree` | kernel/process.c:100-110 | the lowest free slot, or none exactly if all are taken |
| `Scheduler.Scheduler.AddChild` | kernel/process.c:319-328 | the child is queued last, READY, with its parent set; its pid is its slot and positive; all other processes keep state, pid and parent |
| `Scheduler.Scheduler.ResetSlice` | kernel/process.c:249 | exec restarts the caller's slice and nothing else |
| `Scheduler.Scheduler.FindZombie` | kernel/process.c:331-384 | the first zombie child asked for; -1 exactly if no such child is recorded, -2 if none has exited |
| `Scheduler.Scheduler.FreeSlot` | kernel/process.c:369-375 | the slot is free without parent; slot 0 never is |
| `Scheduler.Scheduler.constructor` | kernel/kernel.c:67-75 | after start-up the first process runs, in slot 0, and all others are free |
| `Scheduler.Scheduler.ShownOk` | kernel/sched.c:13-73 | every state shows a queue without repeats, a current process off it, and slices within bounds |
| `Scheduler.Scheduler.Facts` | kernel/sched.c:66-72 | the current process is always READY, so the assertion in `schedule` never fails |
| `Fairness.NextKeepsOk` | kernel/sched.c:13-73 | every scheduling event keeps the abstract invariant |
| `Fairness.WaitStep` | kernel/strap.c:73-85 | an event that does not dispatch a waiting process moves it no further back, and the measure falls by one per tick and rises by at most one per exec |
| `Fairness.BoundedWaiting` | kernel/strap.c:73-85 | over every run: a process at position k that is not dispatched has seen fewer than 2(k+1) ticks plus one per exec, and is still queued |
| `Fairness.BoundReached` | kernel/strap.c:73-85 | the bound is exact: with fresh slices and ticks only, position k runs after 2(k+1) ticks and not before |
| `Runs.AllAlong` | kernel/strap.c:91-126 | every state of a run is in order, and the kernel's frames have the use and contents they had at its start |
| `Runs.SchedulerRun` | kernel/sched.c:13-73 | the scheduler's part of a run is a run of its events, one for each trap |
| `Runs.Waits` | kernel/strap.c:73-85 | bounded waiting over every run, counted in timer interrupts and exec calls |
| `Runs.ChildStays` | kernel/process.c:331-384 | over any run, a child that no wait was answered with keeps its parent and pid, and is a zombie exactly if it has called exit |
| `Runs.WaitFindsChild` | kernel/process.c:331-384 | fork answered c, later wait(c) by the same process, c not reaped in between: the answer is c exactly if c has called exit, and -2 otherwise, never -1 |
| `Runs.HeapGrows` | kernel/syscall.c:46-54 | over any run, an allocation is answered with the heap's start plus a page for each allocation before, modulo 2^64, whoever asked |
| `Runs.RegularIff` | kernel/syscall.c:123-134 | which traps the model answers at all |
| `Ledger.Balance` | kernel/strap.c:91-126 | every trap: the frames that are free or accounted to a process, before, are those after and the ones the trap lost, exactly |
| `Ledger.Conserved` | kernel/strap.c:91-126 | the same over any run: frames are lost by an open-file page for each fork, the lower tables at each wait and exec, the code pages of each exec and the pages of heap and faults, and in no other way |
| `Kernel.Kernel.DoTimer` | kernel/strap.c:36-43 | a timer interrupt is one tick of the scheduler and leaves memory alone |
| `Kernel.Kernel.DoYield` | kernel/syscall.c:75-83 | yield is one rotation and leaves memory alone |
| `Kernel.Kernel.DoExit` | kernel/syscall.c:35-41 | shutdown exactly if nobody is queued; otherwise the machine goes on, invariant kept |
| `Kernel.Kernel.DoFork` | kernel/syscall.c:67-70 | returns the lowest free slot's pid, positive; child memory and queue as stated; halts only for a full table, a free list shorter than the copy may need, or a parent that cannot be copied |
| `Kernel.Kernel.DoWait` | kernel/syscall.c:88-90 | the answer follows from the process table alone; a reaped child's slot and frames are free, otherwise nothing changes |
| `Kernel.Kernel.DoExec` | kernel/strap.c:19-31 | the caller's image is replaced, called with its arguments, and its slice restarted, and the result stored through the old trapframe; all but the caller's slot always survives, and the whole invariant if and only if the store does not cut the new image |
| `Kernel.Kernel.DoAllocate` | kernel/syscall.c:46-54 | returns the heap pointer, whose page the caller now has |
| `Kernel.Kernel.DoFree` | kernel/syscall.c:59-62 | the caller lost the page, or the request is refused for the stated reason and no other; the invariant is kept if and only if the frame is in no other use |
| `Kernel.Kernel.DoRead` | kernel/syscall.c:123-134 | returns how many bytes arrived, and they are in the caller's buffer; refused exactly if a byte has no memory behind it; off the caller's code no other process sees them |
| `Kernel.Kernel.DoStoreFault` | kernel/strap.c:50-68 | the caller has the faulting page |
| `Kernel.Kernel.DoUserStore` | kernel/process.c:262-329 | memory is the old one with the stored word, and off code pages every other process reads what it read before |
| `Kernel.Kernel.Step` | kernel/strap.c:91-126 | every trap modelled here has exactly its effect on memory, on the queue, on the process table and in its answer, keeps the free list, the account of frames, the process table and the kernel's frames, keeps the whole invariant if and only if it is no exec that cuts its image and no free of a frame in use, and stops the machine only if the last process exits, the free list before the trap is shorter than it may need and was used up, or the request is one the kernel refuses |
| `Kernel.Kernel.RunSteps` | kernel/strap.c:91-126 | a run over any list of traps: the states on the way are all in order, each follows from the one before by its trap, and it ends with the list, or stops at trap n for a reason there is in the state before it, or meets a trap that would break the invariant there or is outside the model |
| `Kernel.Kernel.Run` | kernel/strap.c:91-126 | the same, and every process queued at the start that never runs saw fewer than 2(k+1) timer interrupts plus one per exec |
| `Kernel.Start` | kernel/kernel.c:67-75 | start-up establishes the invariant with the first program loaded in slot 0, its directory the second free frame, all other slots vacant, every frame the kernel held kept; fails only with fewer than twelve frames and three for each segment or for a program that does not fit |
| `Steps.FreeAfterFork` | kernel/process.c:278-290 | after a fork, a free of a code page breaks the invariant whether parent or child asks for it |
| `Steps.ExecFailingInput` | kernel/strap.c:29 | an image, with five data pages and directory 0x80409, from which every exec breaks the invariant, in whichever slot |
| `Steps.ArgvReads` | kernel/elf.c:209-216 | the new program reads in a1 and sp the table, in a0 its length, and word k of it is the address of string k |
| `Steps.ArgvText` | kernel/elf.c:198-216 | from the address it reads as word k the program reads string k, byte by byte through its page table, as far as that was not run over |
| `Steps.ArgvIsArgument` | kernel/elf.c:198-216 | if no argument is longer than seven characters, argv[k] is argument k |
| `Steps.ArgvEnds` | kernel/elf.c:200-213 | the word behind the last points to a word 0 |
| `Steps.OwnPageReadsBack` | kernel/strap.c:50-68 | a word stored to a page of its own outside code is read back at that address, and no other word of the process changes |
| `Steps.FreshPageReadsBack` | kernel/syscall.c:46-54 | the same anywhere in a page just allocated or faulted in |
| `Boot.CreateFreepageList` | kernel/pmm.c:29-33 | the free list is all whole pages of the range, highest first; no other frame is written |
| `Boot.PmmInit` | kernel/pmm.c:66-91 | succeeds exactly if the kernel fits the usable memory; the list covers what is left above the kernel |
| `Boot.KernVmMap` | kernel/vmm.c:112-114 | a kernel range is mapped in full exactly if there are as many frames as tables missing on the way, and those are what it takes |
| `Boot.NewDirectory` | kernel/vmm.c:119-124 | the directory is the first free frame; without one the kernel faults |
| `Boot.KernelPaths` | kernel/vmm.c:19-31 | the first n kernel pages need one middle table and a leaf table for each 512 pages begun |
| `Boot.KernVmInit` | kernel/vmm.c:119-142 | never meets a mapped page: with 66 free frames or more it takes exactly 66 and yields exactly the identity map of memory, text executable and not writable, the rest writable and not executable, nothing for user mode; with fewer it fails |
| `Boot.InitRamdisk` | kernel/dev.c:76-81 | on a descending list the 128 frames are one region starting at the last one taken; with fewer frames the address is null |
| `Boot.DiskWrite` | kernel/dev.c:16-22 | replaces that block, no other block and no other frame; out of range it panics and changes nothing |
| `Boot.DiskRead` | kernel/dev.c:28-34 | returns that block |
| `Boot.BootMemory` | kernel/kernel.c:57-70 | succeeds exactly if the kernel fits and 66 frames are left, and has a disk exactly if 194 are; then the disk is one region above the kernel, off the free list and apart from the page tables, the kernel map is in place, and the free list is known frame by frame |
| `Machine.TakePages` | kernel/dev.c:44-66 | fs_init's records are in the first frames of the list, in order, and no other frame is written; disk and page table are left alone |
| `Machine.FillDisk` | kernel/dev.c:16-22 | writing every block puts the whole image on the disk and leaves the page table alone |
| `Machine.StartAndRun` | kernel/kernel.c:67-75 | start-up, then a run: in every state on the way the disk's blocks and the kernel's page table are what they were and no process reaches them; how far the run got and why it ended is stated |
| `Machine.BootAndRun` | kernel/kernel.c:51-78 | from power-on: what was put on the disk is there in every state of any run, block by block; the kernel map stands; the run is stated as in StartAndRun; with 206 frames, one for each record and three for each segment, a program that fits is started |
| `Machine.ExecAfterStart` | kernel/strap.c:19-31 | a machine on which exec breaks the invariant: first program with five data pages, second free frame 9 modulo 512; its exec goes on out of order unless frames run out or the new program does not fit, and certainly does with 21 frames and three for each segment of two programs that fit |
| `UserBuffer.SamePage` | kernel/vmm.c:150-165 | bytes of one page are translated together |
| `UserBuffer.NextPiece` | kernel/syscall.c:125-132 | one more piece keeps the bytes moved equal to those of the buffer, in order |
| `UserBuffer.Transfer` | kernel/syscall.c:123-150 | pieces stay in one page and tile the buffer; the bytes moved are the buffer's first bytes, each through the page table; it ends at the first short piece and otherwise moves all |
| `Bytes.SplitNumber` | kernel/syscall.c:123-134 | the word made of given bytes splits into those bytes again |
| `Bytes.PutGet` | kernel/syscall.c:123-134 | a byte stored is read back, and every other byte is unchanged |
| `Bytes.AllFound` | kernel/syscall.c:123-134 | bytes stored at different addresses are all found there, and no other byte changed |
| `Bytes.Copy` | kernel/syscall.c:130 | a copy into one page stores each byte at its address |
| `Bytes.NextRun` | kernel/syscall.c:126-129 | the addresses of a buffer grow by one run inside a frame per turn, and one test decides for the whole piece whether there is memory behind it |
| `Bytes.ReadArrives` | kernel/syscall.c:123-134 | off code, the process finds in its buffer exactly the bytes delivered, though its pages may be anywhere |
| `Bytes.GivenIs` | kernel/syscall.c:123-134 | one call delivers a prefix of what the device has, all of it if that is no more than was asked for |
| `Bytes.StreamArrives` | kernel/syscall.c:123-134 | however pages cut the request, the first count bytes of the device's stream arrive, or all of it |
| `Fdt.BswapTwice` | spike_interface/dts_parse.c:11-15 | swapping bytes twice is the identity |
| `Fdt.BswapReverses` | spike_interface/dts_parse.c:11-15 | the two swaps reverse the four bytes |
| `Fdt.BlockWords` | spike_interface/dts_parse.h:22-26 | the words of the structure block, token by token, as they lie in memory |
| `Fdt.Strlen` | spike_interface/dts_parse.c:54-56 | the byte length of a name ends in its last word |
| `Fdt.Erase` | spike_interface/dts_parse.c:57-58 | exactly the words from one place to the other become NOPs |
| `Fdt.Scan` | spike_interface/dts_parse.c:17-72 | on the encoding of any tree, with any NOPs between tokens, the callbacks are those the tree calls for, in order: a node's properties, done once, then each subnode opened, visited and closed; the scan ends just past its end token, and the buffer holds the tree with the deleted nodes blanked |
| `Fdt.ScanChild` | spike_interface/dts_parse.c:50-61 | one subnode: its callbacks, its own deletions, and its erasure if asked for |
| `Fdt.FdtScan` | spike_interface/dts_parse.c:89-99 | a blob with another magic number or a newer version is left alone; of any other the structure block is scanned, with the callbacks its tree calls for |
| `Fdt.TraceIsPreOrder` | spike_interface/dts_parse.c:17-72 | the scanner's trace, with its flag for the first subnode, is the tree's visit: properties, one done for the node (none above the root), then its subnodes in order |
| `Fdt.DoneForEach` | spike_interface/dts_parse.c:50-69 | within every subtree as many nodes are done and closed as are opened |
| `Fdt.PruneLength` | spike_interface/dts_parse.c:57-59 | blanking keeps the length of the block |
| `Fdt.PruneWellFormed` | spike_interface/dts_parse.c:57-59 | what is left is again the encoding of a tree |
| `Fdt.PruneReadsAsDrop` | spike_interface/dts_parse.c:57-59 | and its trace is that of the tree with the deleted subtrees removed |
| `Fdt.Rescan` | spike_interface/dts_parse.c:17-72 | scanning twice: the first visit is the tree's, the second that of the tree without the nodes the first scan deleted |
| `Text.Put` | util/snprintf.c:24 | a character that fits is stored, any other only counted |
| `Text.PutHex` | util/snprintf.c:26-35 | appends the low bits as hexadecimal digits |
| `Text.CountDigits` | util/snprintf.c:42-44 | counts the decimal digits |
| `Text.PutDigits` | util/snprintf.c:45-49 | the backward writer appends the decimal digits as far as they fit |
| `Text.PutChar` | util/snprintf.c:64-69 | the argument is consumed exactly if the character is stored |
| `Text.Format` | util/snprintf.c:16-78 | stores as much of the text as fits and returns its whole length |
| `Text.Vsnprintf` | util/snprintf.c:11-83 | stores the longest prefix of the text that leaves room for the terminator, then the terminator, and nothing else; returns the length of the text |
| `Text.LateArguments` | util/snprintf.c:64-69 | behind a %c that was not stored, hexadecimal conversions keep their length whatever argument they find |
| `Text.RoomDoesNotMatter` | util/snprintf.c:11-83 | where no %d or %s follows a %c, the stored text is a prefix of the unbounded one and the length is the same for every n |
| `Text.RoomMatters` | util/snprintf.c:64-69 | where one does, some arguments give a shorter text without room |
| `Text.TruncatesIff` | util/snprintf.c:11-83 | a format is truncated as promised for all arguments and every n if and only if no %d and no %s follows a %c in it |
| `Text.PercentCDependsOnRoom` | util/snprintf.c:64-69 | one such format: "%c%d" returns 2 with room and 3 without |
| `Text.HexReadsBack` | util/snprintf.c:26-35 | the digits of %x read back as the number modulo the width |
| `Text.DecLength` | util/snprintf.c:42-44 | a number below 10^k prints in at most k digits |
| `Text.Atol` | util/string.c:77-94 | skips blanks, takes one sign and accumulates the rest |
| `Text.AccumulateDec` | util/string.c:88-91 | accumulating the digits of a number gives the number |
| `Text.PrintThenRead` | util/snprintf.c:36-53 | the text of %ld of any long above the minimum, read by atol, is that long; it has at most 20 characters, none of them NUL |
| `Text.PrintAndRead` | util/snprintf.c:11-83 | snprintf with %ld into any buffer of at least 21 characters, then atol on the buffer, gives the number back |
| `Text.PrintInt` | util/snprintf.c:36-53 | what %d prints of any argument reads as an int congruent to it modulo 2^32; an int reads as itself |
| `Text.PrintHex` | util/snprintf.c:26-35 | %x prints eight hexadecimal digits that read back as the argument modulo 2^32 |
| `Text.PrintLongHex` | util/snprintf.c:21-35 | %lx prints sixteen that read back modulo 2^64, and %p the same behind 0x |
| `Text.PrintText` | util/snprintf.c:54-69 | %s prints the argument, %c the character; a second percent sign is skipped |
| `Shell.SkipSpace` | user/sh.c:132-134 | skips exactly the white space, which is no part of any word |
| `Shell.GetToken` | user/sh.c:82-125 | NUL exactly at the end, the symbol (or + for a doubled >), or 'a' and the bounds of a whole word |
| `Shell.Peek` | user/sh.c:127-137 | whether one of the characters asked for is next |
| `Shell.ParseExec` | user/sh.c:174-197 | the words read are exactly those of the line up to where it stops, or a symbol or a tenth word explains the refusal |
| `Shell.NulTerminate` | user/sh.c:202-218 | exactly the word ends become NUL |
| `Shell.ParseCmd` | user/sh.c:144-158 | accepts exactly the lines without symbols and with at most 9 words; then the C strings are the words of the line, none cut by another's terminator |
| `Shell.ArgumentsIntact` | user/sh.c:202-218 | no terminator falls inside a word |
| `Shell.WordsAppend` | user/sh.c:82-125 | splitting distributes over a cut behind white space |
| `Shell.MoreWords` | user/sh.c:188-194 | a longer line has no fewer words |
| `Shell.SplitUndoesJoin` | user/sh.c:174-197 | splitting undoes joining with blanks |
| `Shell.BlanksAlike` | user/sh.c:82-125 | tabs, carriage returns, newlines and vertical tabs separate words as blanks do |
| `Shell.OneCharacter` | user/sh.c:82-125 | and no other character does |
| `Shell.RejoinedLine` | user/sh.c:144-158 | joining the words of a line and splitting again gives the same words, still without symbols |

## Left out

- Registers, control registers, `switch_to`, `return_to_user`, machine mode and HTIF: only which process becomes current is kept.
- Saved registers other than fork's copy: the program counter and the results a trap writes to a0 are not followed, except exec's, which is the one stored in a frame that may have another use by then.
- Reading ELF files: segments are inputs, one page each, aligned, not at address 0 and at most 253; a program that is not so is reported as outside the model.
- Where exec's argument strings come from: they are inputs, as `strcpy` finds them; that they lie in frames of the old image, freed by then and perhaps written, is not followed. No argument, more than ten, or one that does not fit is reported as outside the model.
- `rfs.c`, `vfs.c`, `file.c` and host files: the device routine of `UserBuffer` is any routine that moves at most what it is asked for, that of `Bytes` delivers any bytes; disk blocks change only at start-up.
- `sys_user_getline`, `sys_user_open`, `sys_user_write` and the other file calls as steps: getline stores through the console at one translated address without regard to page ends, open may take frames for its records.
- `total_mem_count`, `total_tick_count` and `do_getinfo`: accounting for display.
- Parent links as a forest: slots are reused while orphans keep old parents, so none is intended.
- `memset` and `memcpy` word and byte paths: whole pages are written at once.
- `ProcessMemory.ProcessMemory.UserStore`: the A and D bits, which the entries have set; isolation is stated off code regions, whose pages parent and child share writable, and for frames the allocator manages.
- `ProcessMemory.ProcessMemory.ForkFixed`: the first three turns of the region loop (stack, context, system) are unrolled, since they are the first three regions of every list.
- `UserBuffer.Transfer`: counts below 2^31, as the callers' int arithmetic needs; the data is modelled in `ReadInto`.
- `ProcessMemory.ProcessMemory.ReadInto`: counts below 2^31 likewise; a larger one is reported as outside the model.
- `Kernel.Kernel.DoRead`: counts below 2^31 likewise; `Step` answers a larger one as outside the model.
- `ProcessMemory.ProcessMemory.LoadSegments`: programs as the entry on ELF files above says.
- `Fdt.Scan`: address and size cells, malformed blobs and absent callbacks; the property order of section 5.4 of the Devicetree Specification is required.
- `Text.Format`: LONG_MIN, whose negation overflows.
- `Text.Vsnprintf`: the result as a 32-bit number, and LONG_MIN, whose negation overflows.
- `Text.Atol`: signed overflow, and non-digits, which accumulate as the code does.
- Formatting calls, console output and the user programs other than the shell's parser.
