# JOS kernel model

A Dafny model of the virtual-memory half of the JOS teaching kernel and of the small algorithms around
it, with proofs of what they are for.

* The physical page allocator, the two-level x86 page tables that live in the pages it hands out, and
  the reference counters that tie the two together (`project3/kern/pmap.c`).
* Environments: their address spaces, their table and ids, and the loading of programs into them
  (`project3/kern/env.c`).
* The TLB of one CPU under lab4's conditional `tlb_invalidate` (`lab4/kern/pmap.c`, `lab4/kern/env.c`).
* The `xchg` spinlock with its racy debug checks (`lab4/kern/spinlock.c`), `stab_binsearch`
  (`project3/kern/kdebug.c`), and number printing, `strtol`, `vprintfmt` and `vsnprintf`
  (`project3/lib`).

## How it is organised

`Vm` gives the state of the memory system as a value and each operation on it as a function.
`VmInvariant` states the invariant: a page's counter is the number of *sites* (directory roots, user
directory slots, user page-table entries, kernel directory slots) that refer to it, plus its boot
reference, plus the references that a running operation holds; the free list holds each allocatable page
without references once, unless it is handed out; directories and tables form a forest; above UTOP
every directory is the kernel's, except for its own UVPT slot. `VmSteps`, `PageTables`, `Teardown`,
`Boot` and `FlatMap` prove what each operation does to it and to the flat map from virtual pages to
entries that it implements; `Runs` draws the conclusions for whole runs, and `Limits` gives runs that lead
to the inputs for which the code falls short of its comments. `Kernel.Machine` performs
the operations in place, on the `pages[]` array with its intrusive list (`FreeChain`) and on words
of memory, and each of its methods is proved to follow the function of the same name.

The same split is used for environments (`EnvIds`, `EnvTable` for values, `EnvKernel` in place), for
loading (`Bytes`, `UserMemory`, `Loader`, and `Elf` for images by their fields; `LoaderKernel` in place) and for the TLB (`Tlb`; `TlbKernel` in
place). `Spinlock` is a state machine over single loads, stores and `xchg`s with a store buffer per CPU.
`Stab`, `FreeListSplit`, `Numbers` and `Printf` hold loops proved against their specifications; `Formats` says
character by character what the conversions print.

`dafny verify dfyconfig.toml` checks the project.

## Where the code and its comments disagree

The model follows the code.

* `user_mem_check` (`project3/kern/pmap.c:650-704`) promises a test of `perm | PTE_P`; it tests `perm`
  alone, which matters exactly for a `perm` of 0 (`AddressSpace.PresentIsNotTested`,
  `Limits.PresentMatters`). It promises the first erroneous address; it reports `va` plus whole pages, which
  is that address exactly when `va` starts a page or its own page fails (`AddressSpace.ReportedAddress`,
  `Limits.SecondPageMisreported`).
  It promises to check the whole range; its page count is taken modulo 2^20, so that a range of as many
  pages as there are passes unchecked (`AddressSpace.UserMemCheck`, `AddressSpace.OverlookedExample`).
  It promises the rights of the page table; it looks at the entry and not at the directory slot, so that a
  write to the self-map, which the MMU denies, is granted (`Limits.TestIsTheMmusBut`,
  `Limits.SelfMapWriteGranted`).
* `region_alloc` (`project3/kern/env.c:288-330`) promises a panic when an allocation fails; a failed
  `page_insert` goes unnoticed because its result is stored in an unsigned variable
  (`Loader.RegionPanicExact`, `Limits.RegionReturns`).
* `stab_binsearch` (`project3/kern/kdebug.c:23-103`) promises the entry that contains the address; after
  an exact hit its key grows, and it may run on to a later entry (`Stab.StabBinsearch`,
  `Stab.OverrunExample`). With wanted entries only above the address it always leaves left <= right, so
  left > right is a sign of a table without wanted entries, and not of a miss.
* The `-` flag of `vprintfmt` (`project3/lib/printfmt.c:107-110`) is described as padding on the right; numbers
  that need padding are padded on the left, with `-` characters (`Printf.MinusFlagPadsLeft`,
  `Printf.DashExample`).
* `pp_ref` has 16 bits and `page_insert` does not check it (`FlatMap.CounterExact`, `Limits.CounterWraps`).
* `page_free` (`project3/kern/pmap.c:398-417`) checks for a page that is free already by its link, which the
  last page of the list does not have (`Kernel.Machine.PageFree`).

## Model

| member | source | states |
|---|---|---|
| Runs.EveryReachableState | project3/kern/pmap.c:302-636 | after page_init and any legal run of allocator, page-table and environment operations and of the re-threading of the free list, with any stores into pages that are no directory or table in between, every counter is the page's boot reference plus the number of sites that refer to it; the free list is duplicate-free and holds exactly the allocatable pages that nobody refers to and that are not handed out; the tables form a forest that shares the kernel's half |
| Runs.StepKeeps | project3/kern/pmap.c:373-636 | every operation, called as its comment demands, keeps that invariant |
| Runs.NoLeak | project3/kern/env.c:477-525 | once no environment is left and nothing is handed out, every allocatable page that is not a kernel page table is back on the free list |
| Runs.BootPagesStay | project3/kern/pmap.c:305-320 | over every run page 0, the I/O hole and what boot_alloc gave out are never free, never handed out, and referenced |
| Runs.StepIsolates | project3/kern/env.c:186-223 | an operation about one environment leaves every word of the directory and every entry of every other environment's address space as it was |
| Runs.RunIsolates | project3/kern/env.c:186-223 | so does any run of operations about other environments |
| Runs.RunKeepsKernel | project3/kern/env.c:186-223 | once the kernel's half is mapped, every run leaves every word and entry of kern_pgdir as it was |
| VmSteps.AllocKeeps | project3/kern/pmap.c:373-392 | page_alloc returns an unreferenced page that is off the list, or NULL and no change, and keeps the invariant |
| VmSteps.DecrefKeeps | project3/kern/pmap.c:423-428 | dropping a held reference keeps counters and free list in step |
| VmInvariant.CountChange | project3/kern/pmap.c:539-636 | when one site changes what it refers to, only the counts of its old and new page change, by one |
| PageTables.WalkCreateKeeps | project3/kern/pmap.c:452-485 | pgdir_walk with create changes no translation of any address space outside the self-map, and returns NULL exactly when it needs a table and no page is free |
| PageTables.PageRemoveKeeps | project3/kern/pmap.c:619-636 | page_remove clears that one entry, no other in any address space, and keeps the books |
| PageTables.InstallKeeps | project3/kern/pmap.c:551-562 | increment, remove, store: in that order the invariant holds with the page never free in between, whatever the entry mapped before |
| PageTables.PageInsertKeeps | project3/kern/pmap.c:539-564 | page_insert sets that one entry and no other in any address space, or fails for want of a table and changes nothing |
| FlatMap.WalkLeavesMap | project3/kern/pmap.c:452-485 | pgdir_walk with create leaves every environment's flat map alone |
| FlatMap.LookupReadsMap | project3/kern/pmap.c:577-602 | page_lookup finds a page exactly when the flat map has the key, and finds the page and entry the map holds |
| FlatMap.InsertUpdatesMap | project3/kern/pmap.c:539-564 | page_insert updates one key of one environment's map; when it fails, nothing at all has changed |
| FlatMap.RemoveDeletesKey | project3/kern/pmap.c:619-636 | page_remove deletes one key, drops that page's count by one, and frees it exactly when that was the last reference |
| FlatMap.ReinsertChangesOnlyPermissions | project3/kern/pmap.c:527-564 | inserting the page that is already there changes the entry's permissions and nothing else: no counter, no list |
| FlatMap.CounterExact | project3/inc/memlayout.h:179-184 | a page_insert that succeeds keeps the books exactly when the page had fewer than 65535 references or was what the entry maps already |
| Limits.CounterWraps | project3/kern/pmap.c:551-562 | from any state with 66 free pages some legal run makes a page's counter a correct 65535; the next page_insert of it succeeds and leaves a count of 0 and wrong books |
| Teardown.EnvFreeExact | project3/kern/env.c:477-525 | env_free lowers each page's count by its user mappings in that environment, plus one if it was a user table of it, plus one if it was its directory; exactly the pages left without references join the free list, each once; no other address space and nothing of the kernel's changes |
| Teardown.HeldIsCounted | project3/kern/env.c:490-518 | those references are exactly the sites that belong to the environment |
| Teardown.FreeTableKeeps | project3/kern/env.c:490-513 | one turn of the outer loop empties its slot and leaves every other slot and address space |
| Teardown.EnvSetupKeeps | project3/kern/env.c:186-223 | env_setup_vm adds a directory with an empty user half, changes no other address space, and fails exactly when no page is free, without a change |
| Boot.PageInitInv | project3/kern/pmap.c:302-359 | the state that page_init leaves satisfies the invariant |
| Boot.PageInitExact | project3/kern/pmap.c:302-359 | page 0 is in use, base memory is free, and of the rest the I/O hole at 0xA0000 and everything below boot_alloc(0) are in use; used pages have count 1, free ones 0; the list descends |
| Boot.BootMapExact | project3/kern/pmap.c:498-512 | boot_map_region succeeds exactly when the free list can pay for the missing tables; then it has mapped exactly its range, with perm and PTE_P, and changed no other translation and no counter of a page in use |
| Boot.MemInitExact | project3/kern/pmap.c:216-261 | the four kernel windows of mem_init succeed together exactly with 67 free pages, and then all hold at once, with the rest of the stack window unmapped and the self-map in place |
| Kernel.Machine.constructor | project3/kern/pmap.c:302-359 | page_init in place: counters, and a list through the links that is the reserved ranges' complement, highest page first |
| Kernel.Machine.LowPagesFirst | project3/kern/pmap.c:738-755 | in place, the re-threading that mem_init runs right after page_init: a panic on an empty list, else its stable partition with low pages first |
| Kernel.Machine.PageAlloc | project3/kern/pmap.c:373-392 | in place on pages[] and memory, follows Vm.PageAlloc |
| Kernel.Machine.PageFree | project3/kern/pmap.c:398-417 | panics, without a change, exactly on a page that is referenced or on the list but not its tail; a page off the list is pushed; a second free of the tail goes through and leaves links that no finite list follows |
| Kernel.Machine.PageDecref | project3/kern/pmap.c:423-428 | in place, follows Vm.PageDecref |
| Kernel.Machine.PgdirWalk | project3/kern/pmap.c:452-485 | in place, with and without create, the entry's frame and index or NULL |
| Kernel.Machine.PageLookup | project3/kern/pmap.c:577-602 | reads the entry and page that Vm.PageLookup names |
| Kernel.Machine.PageRemove | project3/kern/pmap.c:619-636 | in place, follows Vm.PageRemove and keeps the invariant |
| Kernel.Machine.PageInsert | project3/kern/pmap.c:539-564 | in place, for any counter, follows Vm.PageInsert; keeps the invariant when the counter was below 65535; 0 or -E_NO_MEM |
| Kernel.Machine.BootMapRegion | project3/kern/pmap.c:498-512 | the loop over addresses, in 32-bit arithmetic, follows Boot.BootMap |
| Kernel.Machine.EnvSetupVm | project3/kern/env.c:186-223 | in place, follows Vm.EnvSetupVm; 0 or -E_NO_MEM |
| Kernel.Machine.EnvFree | project3/kern/env.c:477-518 | the two nested loops and the directory, in place, follow Vm.EnvFree |
| Runs.PartitionKeeps | project3/kern/pmap.c:742-755 | the re-threading keeps the invariant in every state |
| FreeListSplit.PartitionIsStable | project3/kern/pmap.c:742-755 | low pages first is a permutation of the list in which every low page precedes every high one and each half keeps its order |
| FreeListSplit.LowPagesFirst | project3/kern/pmap.c:742-755 | the two-tail re-threading turns any list without a cycle into that partition, ended by NULL, with an empty half too, and touches no other page and no counter |
| AddressSpace.UvptHoldsEntries | project3/kern/env.c:219-221 | for kern_pgdir and every environment, UVPT + 4 * PGNUM(va) translates to where va's entry is stored, whenever va has a page table |
| AddressSpace.UvpdHoldsSlots | project3/kern/env.c:219-221 | for the same directories, uvpd + 4 * i translates to where directory slot i is stored |
| AddressSpace.SelfMapIsReadOnly | project3/kern/env.c:219-221 | through them user mode can read the self-map exactly where there are tables, and can never write it |
| AddressSpace.CheckVa2paIsTheMmus | project3/kern/pmap.c:928-940 | for every directory and address check_va2pa returns the page address that the MMU translates to, or ~0 exactly when it does not translate |
| AddressSpace.CheckVa2paReadsMap | project3/kern/pmap.c:928-940 | below UTOP of an environment that is the flat map's page address, or ~0 |
| AddressSpace.Landmarks | project3/inc/memlayout.h:87-128 | UTOP, USTACKTOP, UENVS, UPAGES, UVPT, ULIM, KERNBASE and the kernel stack in numbers |
| AddressSpace.UserMemCheck | project3/kern/pmap.c:650-704 | for every range, wrapping ones included: the answer is right (0 exactly when every page of the range is below ULIM and grants perm) if and only if the rounded range does not have 2^20 pages, or one more with the first one granted; a reported address lies in the first page that does not grant perm, and is the first erroneous address exactly when va starts a page or its own page fails |
| AddressSpace.OverlookedExample | project3/kern/pmap.c:668-676 | from address 0 a length of 2^32 - 1 is such a range, whatever is mapped |
| AddressSpace.PagesTouched | project3/kern/pmap.c:655-660 | for a nonempty range, the pages that count are exactly those that hold one of its bytes |
| AddressSpace.TestIsTheMmus | project3/kern/pmap.c:659-661 | below UTOP and with PTE_U in perm, the test agrees with the MMU's combined check of directory slot and entry, and asks besides for bits of perm that the MMU ignores |
| Limits.TestIsTheMmusBut | project3/kern/pmap.c:655-661 | after mem_init it agrees for every page of the address space, except exactly for writes to a page of the self-map that shows a table |
| Limits.SelfMapWriteGranted | project3/kern/pmap.c:655-661 | in every state after mem_init and every environment there is such a page |
| AddressSpace.PresentIsNotTested | project3/kern/pmap.c:650-697 | for any directory and page, testing perm differs from the promised perm with PTE_P exactly on an entry below ULIM that has all bits of perm but is not present |
| AddressSpace.RangePresent | project3/kern/pmap.c:650-704 | for a whole range whose entries are empty or present, it differs exactly for a perm of 0 when all its pages are below ULIM and have tables and some page is not mapped |
| Limits.PresentMatters | project3/kern/pmap.c:650-697 | in every state that a run after mem_init leads to, for every environment, both hold of every page and of every range |
| Limits.AbsentPageGranted | project3/kern/pmap.c:650-697 | from any state with two free pages a legal run leads to such a page |
| AddressSpace.ReportedAddress | project3/kern/pmap.c:663-697 | the reported address is the first erroneous one exactly when va starts a page or va's own page fails |
| Limits.SecondPageMisreported | project3/kern/pmap.c:663-697 | from any state with three free pages a legal run leads to an environment for which PGSIZE bytes from address 1 fail first at PGSIZE, where PGSIZE + 1 is reported |
| EnvIds.IdClosedForm | project3/kern/env.c:247-251 | in 32-bit arithmetic the ids of a slot step by 4096 and start over after 2^19 - 1 of them |
| EnvIds.SameIdExact | project3/kern/env.c:247-251 | two allocations of a slot get the same id exactly when their distance is a multiple of 2^19 - 1 |
| EnvIds.IdShape | project3/kern/env.c:247-251 | every issued id is positive and has its slot in the low ten bits |
| EnvTable.LookupExact | project3/kern/env.c:73-106 | envid2env without checkperm finds exactly the live environment with that id, or -E_BAD_ENV |
| EnvTable.PermissionExact | project3/kern/env.c:95-103 | with checkperm, of those only curenv and its children |
| EnvTable.LookupTotal | project3/kern/env.c:73-106 | for every id and checkperm: 0 finds curenv; any other id finds the one live slot that has it and, with checkperm, is curenv or its child; otherwise NULL and -E_BAD_ENV |
| EnvTable.ChildFound | project3/kern/env.c:73-106 | after any run a new environment that has not been freed is found with checkperm by the environment that was given as its parent |
| EnvTable.StaleIdRejected | project3/kern/env.c:83-93 | after any run, a freed environment's id is found again exactly when its slot is live and has been allocated a positive multiple of 2^19 - 1 times since; before that it is rejected |
| EnvTable.EveryTable | project3/kern/env.c:108-286 | after env_init and any run, the free list holds exactly the ENV_FREE slots, each once, exactly the live ones have a page directory, and their ids are positive and name their slot |
| EnvTable.RunsCounted | project3/kern/env.c:589-596 | until the slot is allocated again, env_runs is the number of times a run has switched to it, in 32 bits, and it keeps its id and its parent |
| EnvTable.AllocKeepsTable | project3/kern/env.c:233-286 | env_alloc takes the head of the list and an empty address space; the slot has the given parent, the next id in closed form, ENV_RUNNABLE, no runs, and cleared registers but for cs 0x1B, ds, es and ss 0x23 and esp 0xEEBFE000; no other slot changes; or it fails for want of a slot or a page and changes nothing |
| EnvTable.FreeKeepsTable | project3/kern/env.c:477-525 | env_free marks the slot free, links it before the head, and changes no other slot |
| EnvTable.RunKeepsTable | project3/kern/env.c:589-597 | env_run makes the old curenv runnable, the new one running with one more run and current, and changes no other slot |
| EnvKernel.EnvList.EnvInit | project3/kern/env.c:114-150 | the nested append loops leave every slot free with id 0 and the list in the order of the array |
| EnvKernel.Envs.EnvAlloc | project3/kern/env.c:233-286 | in place, follows EnvTable.EnvAlloc: id, parent, type, status, env_runs, and a cleared trap frame with user segments and stack; 0, -E_NO_FREE_ENV or -E_NO_MEM |
| EnvKernel.Envs.EnvFree | project3/kern/env.c:477-525 | in place, follows EnvTable.EnvFree |
| EnvKernel.Envs.EnvRun | project3/kern/env.c:589-597 | the old curenv becomes runnable, the new one running and counted, and its directory goes into cr3 |
| EnvKernel.Envs.Envid2env | project3/kern/env.c:73-106 | reads the table as EnvTable.Envid2env does |
| Bytes.LoadStored | project3/lib/string.c:173-212 | a byte stored in a word is read back and the other three stay |
| Bytes.WordLayout | project3/inc/mmu.h:58-60 | an entry's number has PTE_P, PTE_W and PTE_U in bits 0 to 2 and the page number from bit 12 on |
| Bytes.ByteLayout | project3/lib/string.c:173-212 | the four bytes of a word lie least significant first |
| UserMemory.StoresWhereWritable | project3/kern/pmap.c:279-284 | with CR0_WP set, the kernel's store through a directory faults exactly where the slot or the entry is not present or not writable; otherwise the byte is stored |
| UserMemory.WriteExact | project3/lib/string.c:173-212 | memset and memcpy through an environment's page tables succeed exactly when all their pages are loaded, and then change just their bytes |
| Loader.RegionExact | project3/kern/env.c:295-330 | region_alloc maps all pages of its range exactly when the free list can pay for them and their missing tables |
| Loader.RegionPanicExact | project3/kern/env.c:288-330 | when it cannot pay, it panics except in exactly one case: one page short, and only the last page needs its table |
| Limits.RegionReturns | project3/kern/env.c:288-330 | from any state with two free pages a legal run leads to that case: a new environment for which region_alloc of any one user page returns with the page unmapped |
| Loader.SegmentExact | project3/kern/env.c:402-422 | one program header: the segment's bytes are the file's and then zero, bytes loaded before stay, or there were too few pages |
| Loader.LoadExact | project3/kern/env.c:354-441 | load_icode succeeds exactly with the ELF magic and enough free pages, and uses exactly those; then tf_eip is e_entry, every segment byte read through the page tables is the file's byte or, past p_filesz, zero, the stack page is zero, nothing else below UTOP is mapped, and no other address space has changed |
| Elf.LoadsImage | project3/kern/env.c:354-441 | the same by the fields of struct Elf and struct Proghdr as they lie in the image: success exactly with e_magic \x7FELF and enough pages; tf_eip is e_entry; exactly the pages of PT_LOAD headers and the stack are mapped; byte k of a header's memory is byte p_offset + k of the file, and 0 from p_filesz on |
| LoaderKernel.RegionAlloc | project3/kern/env.c:295-330 | the loop, with its 32-bit roundings, follows Loader.SegRegion |
| LoaderKernel.LoadIcode | project3/kern/env.c:354-441 | in place, follows Loader.LoadIcode: the stores go through the environment's directory in cr3, which holds kern_pgdir at the end; tf_eip is set |
| Tlb.TlbCoherent | lab4/kern/pmap.c:653-682 | whatever operations run, and whatever the hardware caches or drops in between or between the parts of page_insert, page_remove and env_free, each cached translation equals a fresh walk of the loaded directory, except for the one page whose entry has been cleared and is about to be invalidated |
| Tlb.FreshWalkIsTheMmus | lab4/kern/pmap.c:676-682 | what is cached of a page is its translation and what user mode may do with it |
| Tlb.InvalidateKeeps | lab4/kern/pmap.c:676-682 | flushing only when curenv is NULL or owns the edited directory is enough, because otherwise that directory is not loaded |
| Tlb.FreeBeginKeeps | lab4/kern/env.c:508-512 | leaving the directory that is going to be freed, when it is the loaded one, keeps the TLB coherent |
| Tlb.ClearSlotStepKeeps | lab4/kern/env.c:535-537 | from then on env_free may give back tables with nothing to invalidate, because another directory is loaded |
| Tlb.WalkKept | lab4/kern/pmap.c:486-519 | a new page table takes no translation away, not even through the self-map, so it needs no flush |
| Tlb.InsertIsPageInsert | lab4/kern/pmap.c:574-598 | the parts of page_insert between which the hardware may act add up to the operation |
| Tlb.RemoveIsPageRemove | lab4/kern/pmap.c:653-670 | and so do those of page_remove |
| TlbKernel.Processor.PageInsert | lab4/kern/pmap.c:574-598 | in place, takes those parts in order; 0 or -E_NO_MEM |
| TlbKernel.Processor.PageRemove | lab4/kern/pmap.c:653-670 | in place: clear, drop the reference, invalidate |
| TlbKernel.Processor.EnvFree | lab4/kern/env.c:502-549 | in place, page_remove's tlb_invalidate calls included, is a run of those steps, and leaves the memory that Vm.EnvFree gives |
| TlbKernel.Processor.EnvDestroy | lab4/kern/env.c:556-573 | so does env_destroy, which resets curenv if it was that one; an environment that runs elsewhere is only marked ENV_DYING |
| TlbKernel.Processor.EnvRun | lab4/kern/env.c:629-637 | curenv and cr3 change together |
| Spinlock.MutualExclusion | lab4/kern/spinlock.c:60-116 | for any number of CPUs, any interleaving of single loads, stores and xchgs and any delay of buffered stores, at most one CPU is between the xchg that takes the lock and the one that gives it back, and locked says whether one is |
| Spinlock.HoldingExact | lab4/kern/spinlock.c:39-43 | holding(), its two loads taken in different states, is true exactly when the CPU that evaluates it owns the lock |
| Spinlock.ChecksExact | lab4/kern/spinlock.c:60-104 | the last load of a debug check stops the CPU exactly when its call was not bracketed |
| Spinlock.NoPanic | lab4/kern/spinlock.c:60-116 | with bracketed use neither debug panic fires, on any CPU, under any interleaving |
| Spinlock.TakesFreeLock | lab4/kern/spinlock.c:60-79 | spin_lock of a free lock takes it; then cpu and all ten pcs are recorded |
| Spinlock.GivesLockBack | lab4/kern/spinlock.c:84-116 | spin_unlock by the holder leaves the lock free, with cpu NULL and pcs[0] 0 |
| Spinlock.SpinsWhileTaken | lab4/kern/spinlock.c:69-72 | a CPU that finds the lock taken stays where it is and changes nothing |
| Stab.StabBinsearch | project3/kern/kdebug.c:59-103 | terminates on every table, with left > right exactly without wanted entries, where left stays and right is left - 1; on sorted wanted entries the result brackets the address exactly when the search does not overrun, and on an overrun stops at a wanted entry of a later address up to which every address is a wanted entry's; with none at or below the address right is just before the first |
| Stab.TurnProgress | project3/kern/kdebug.c:65-91 | on any table a turn of the loop decreases twice the window's length plus one for an exact hit at its left end |
| Stab.BracketsUnique | project3/kern/kdebug.c:36-41 | there is one right answer |
| Stab.OverrunExample | project3/kern/kdebug.c:84-90 | two functions one byte apart, for which the search misses the first |
| Numbers.PrintedIsPadded | project3/lib/printfmt.c:35-50 | printnum emits the digits, padded on the left, max(width, digits) characters in all |
| Numbers.DigitsExact | project3/lib/printfmt.c:35-50 | those digits write the number in the base, in lower case and without leading zeros |
| Numbers.Strtol | project3/lib/string.c:239-284 | the loops over the string compute Parse, with 32-bit wrap-around |
| Numbers.ParseExact | project3/lib/string.c:239-284 | by the parts of the string (blanks and tabs, a sign, a prefix that sets the base, digits in either case, the rest): the number that the digits write, with its sign, in 32 bits, and *endptr at the rest |
| Numbers.EveryStringHasParts | project3/lib/string.c:239-284 | every string has such parts, for base 0 and bases 2 to 36 |
| Numbers.RoundTrip | project3/lib/string.c:239-284 | for bases 2 to 16 and every n, strtol reads the low 32 bits of what printnum printed with blanks or zeros back, to the end, and so n itself exactly below 2^31 |
| Numbers.HexPrefix | project3/lib/string.c:256-258 | a 0x prefix is skipped with base 16 and base 0 |
| Numbers.OctalPrefix | project3/lib/string.c:259-260 | with base 0 a leading 0 means octal |
| Printf.SignedRoundTrip | project3/lib/printfmt.c:190-198 | for every int, long and long long, strtol reads %d back, to the end, exactly when the number fits a long and is not negative, or padded with zeros, or not padded |
| Printf.MinusFlagPadsLeft | project3/lib/printfmt.c:107-110 | with the - flag, %d, %u, %o, %x and %p, sign and 0x included, put - characters before the digits, and so pad on the right with blanks, as promised, exactly when the width asks for no padding |
| Printf.DashExample | project3/lib/printfmt.c:107-110 | %-5d of 42 is ---42 |
| Formats.StringExact | project3/lib/printfmt.c:174-188 | %s of any string, NULL included: its first characters up to the precision, in the field, padding before them or with the - flag blanks after them, and with # a ? for each character outside ' '..'~' |
| Formats.PrecisionCuts | project3/lib/printfmt.c:135-151 | %.*s prints no more than its int of the string |
| Formats.WidthPads | project3/lib/printfmt.c:107-151 | %*s pads on the left with blanks, %-*s on the right |
| Formats.WidthInDigits | project3/lib/printfmt.c:118-151 | a width written in digits is the number they write |
| Formats.NumbersPad | project3/lib/printfmt.c:107-151 | %0*u pads on the left with zeros, %*u with blanks |
| Formats.NumbersExact | project3/lib/printfmt.c:190-234 | %u, %o, %x, %p and %d of an int or long: its digits in base 10, 8 and 16 with 0x before %p, and - before the magnitude of a negative %d |
| Formats.LongLongsExact | project3/lib/printfmt.c:55-79 | with two l flags the same of a long long |
| Formats.LongsRead | project3/lib/printfmt.c:55-79 | %d and %ld take an int, %lld a long long |
| Formats.AltShows | project3/lib/printfmt.c:174-188 | %#s, %s, and (null) |
| Formats.CharactersShow | project3/lib/printfmt.c:158-161 | %c prints one byte; %% a percent sign, and takes no argument |
| Formats.ErrorsShow | project3/lib/printfmt.c:163-172 | %e prints the message of an error number or of its negative, or `error` and the number |
| Formats.InTurn | project3/lib/printfmt.c:82-100 | escapes take the arguments in turn, and text between them is copied |
| Printf.Sprintbuf.Putch | project3/lib/printfmt.c:265-271 | sprintputch counts every character and stores it while there is room |
| Printf.Sprintbuf.Printnum | project3/lib/printfmt.c:35-50 | the recursion, through putch, emits Printed |
| Printf.Sprintbuf.PutString | project3/lib/printfmt.c:174-188 | the three loops of %s emit the string, cut to the precision, cleaned if asked, padded on the side the flag says |
| Printf.ScanField | project3/lib/printfmt.c:98-156 | the goto loop reads flags, width and precision up to the conversion character |
| Printf.ScanPassesNoPercent | project3/lib/printfmt.c:239-244 | between a % and its conversion character there is no other % |
| Printf.Rewind | project3/lib/printfmt.c:239-244 | the rewind after an unknown escape stops just after its % |
| Printf.LiteralText | project3/lib/printfmt.c:91-96 | text outside escapes is copied |
| Printf.UnknownEscapeIsCopied | project3/lib/printfmt.c:239-244 | an unknown escape is copied, flags and all |
| Printf.Vprintfmt | project3/lib/printfmt.c:82-247 | on every format whose arguments match it, terminates, having emitted its text |
| Printf.Vsnprintf | project3/lib/printfmt.c:273-288 | stores the first min(n - 1, L) of the L characters, then a NUL, writes nothing after it, and returns L; -E_INVAL without a buffer |

## Left out

- Runs.EveryReachableState: callers of page_insert keep pp_ref below 65535, pages that are inserted are not on the free list, and mem_init's mappings precede the first environment; FlatMap.CounterExact says what happens at 65535. Stores between operations go to pages that are no directory or table.
- AddressSpace.UserMemCheck: here and in Kernel.Machine.PageInsert, perm has the twelve flag bits of an entry; higher bits, which no caller passes, would reach the frame number.
- Kernel.Machine.LowPagesFirst: the rest of check_page_free_list is assertions, and a fill of free pages, which is a store into a plain page.
- PageTables.PageInsertKeeps: addresses below UTOP; above UTOP the tables are shared and page_insert is not called there.
- Kernel.Machine.PgdirWalk: create is a flag; an int other than 0 and 1 makes the source return NULL in a case the callers never use.
- Boot.BootMapExact: ranges at or above UTOP and outside the self-map, before the first environment; a table that pgdir_walk cannot allocate counts as failure where the source stores through NULL.
- Loader.LoadExact: segments lie below UTOP, share no page with each other or the stack page, have p_filesz <= p_memsz, and their headers and file bytes lie in the image; a panic and a page fault are one outcome; entries' flags are those stored, without the accessed and dirty bits.
- The MMU's accessed and dirty bits, which it sets in entries as it walks them: that entries have the flags PTE_P, PTE_W and PTE_U and no others, and that shared kernel slots are equal (VmInvariant.KernelShared, VmInvariant.UserEntries, Loader.LoadExact), holds but for these two bits once it has.
- Tlb.TlbCoherent: pgdir_walk, page_alloc and env_setup_vm are single steps, because all their stores but one go to pages that no directory reaches; as in Runs, pages inserted have a pp_ref below 65535. One CPU, no global pages and no caching of directory entries; load_icode runs before the first environment, as its comment says; the environment that sched_yield would pick is not modelled.
- Spinlock.MutualExclusion: the lines that the debug panic of spin_unlock prints are not modelled; the call stack that get_caller_pcs records is arbitrary.
- Stab.StabBinsearch: its correctness clause excludes a wanted entry at address 0xFFFFFFFF, where the key wraps; the table has at most 2^30 entries, so that l + r does not overflow.
- Printf.Vprintfmt: widths and precisions are unbounded integers, where C leaves their overflow undefined; %e of the least int, which indexes outside the error table, counts as a mismatched argument; a character is one byte.
- Printf.Vsnprintf: the count of emitted characters is unbounded.
- Numbers.Strtol: a long is 32 bits wide and wraps, where C leaves its overflow undefined.
- EnvKernel.Envs.EnvRun: env_pop_tf, the return to user mode.
- EnvTable.EveryTable: env_run is called with a live environment and does not follow the freeing of curenv, after which project3's env_destroy never returns.
- Privilege switching, segment tables, traps and system calls, the scheduler, IPC and fork, which are assembly or empty in the source.
- Devices, the boot loader, the monitor, debuginfo_eip around the search, and the kernel's self-tests apart from the list re-ordering and check_va2pa.
- Physical memory sizes: the number of pages, of which the kernel can reach 256 MB through KERNBASE and the model admits more, and the frames of pages[], envs[] and the kernel stack are parameters.
