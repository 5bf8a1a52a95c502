# A verified model of the JOS memory and environment manager

JOS keeps one array of physical frames and lets each frame play one of several roles:
free page, page directory, page table, user data. The kernel is correct only as long as
these roles never mix. This project models the four layers that depend on that (the page
allocator, the two-level page tables, the environments and the ELF loader) together with
boot, the processor's `cr3` and its TLB, and proves that the roles stay apart over every
run. Four standalone pieces with hard proofs of their own complete it: the symbol-table
lookup behind backtraces, number printing and parsing, formatted output, and `memmove`.

Verify everything with `dafny verify dfyconfig.toml`.

## How it is put together

* `Mmu`, `Vm`, `VmSteps`: addresses and entries; the paging state; the references that
  `pp_ref` counts (a live directory, a user page-table slot, a user entry, a kernel
  page-table slot) and the invariant `Inv`. `Inv` says that every directory and table
  frame has exactly one reference, that all kernel halves agree, and that the ledger
  balances: `pp_ref` is the boot-time count plus the number of references, and the free
  list is exactly the unreferenced pages that nobody has been handed.
* `PageOps`, `Translation`: the page operations on values, what each keeps, and how the
  tables refine a flat map per address space, with the TLB as a cache.
* `EnvVm`, `Loader`, `Elf`, `Envs`: teardown, the loader from the bytes of the file down to
  the bytes of user memory, the life cycle.
* `Protection`: the permission bits of both levels of a walk, and user stores gated by them.
* `Steps`, `Runs`, `Isolation`: arbitrary sequences of kernel operations, TLB fills and user
  stores to any address, and what holds in every state they reach. `Isolation.RunView` is the summit:
  no environment can notice anything the kernel does for another.
* `Boot`: from `page_init` to the first state of a run.
* `PageList`, `KernelCode`: the code as it runs, on arrays and intrusive lists updated in
  place. Each method is proved equal to the value-level operation the other modules
  reason about, so their theorems hold of it.
* `Stabs`, `DebugInfo`, `Numbers`, `PrintFmt`, `Directives`, `MemoryMoves`: the standalone
  pieces.

A panic is `None` (or `false` from a method), an error return is the returned code with an
unchanged state. The ghost parameters `base` and `out` are the boot-time counts and the
pages handed out but not yet mapped; `gens` counts the allocations of each slot.

## Where the code and its comments disagree

The model follows the code. In each case a lemma states exactly what the code does, or
exactly when the comment is right.

* `page_remove` is said to do nothing at an unmapped address. `page_lookup` does not test
  PTE_P, so it does nothing exactly when there is no page table
  (`PageOps.RemoveUnmappedIff`, `PageOps.RemoveUnmappedFreesPageZero`).
* `pgdir_walk` with `create` is not entirely invisible: the new table shows up as a page
  in the self-mapped slot (`Translation.WalkCreateTranslation`).
* `page_insert` does not invalidate the TLB when the same page is mapped again
  (`Translation.InsertExactIff`).
* `page_free`'s guard misses the tail of the list (`PageList.GuardMissesOnlyTail`,
  `PageList.DoubleFreeOfTailLoops`), and `pp_ref` wraps at 65536
  (`PageOps.InsertKeepsLedgerIff`).
* `region_alloc` rounds the length and not the end (`Loader.RegionCoversIff`).
* `boot_map_region` may stop early without a word; it completes exactly when the free pages
  pay for the missing tables (`Boot.MapRegionInv`, `Boot.MapRegionStopsShort`, and for all
  of `mem_init` `Boot.MemInitCompleteIff`). The window on pages[] may end early
  (`Boot.PagesWindowIff`).
* `stab_binsearch`: raising the key after a hit can make it answer with an entry at
  `addr+1`; it does exactly when such an entry is left in the interval of the first hit
  (`Stabs.StabBinsearch`, `Stabs.NeighbourDefeats`, `Stabs.NeighbourSpared`). The comment
  says that left > right means that no entry contains addr, and that is so; the converse
  fails, because left > right is reported only when there is no entry of the type at all.
* `debuginfo_eip` tests the first answer for 0 only. The answer is -1, and the next search
  starts before the table, exactly when the entry of index 0 is a source file above the
  address (`DebugInfo.MinusOneIff`, `DebugInfo.OneFileAbove`, `DebugInfo.DebuginfoEip`,
  which reports that outcome as `BeforeTable`). If all functions of a file lie above the
  address, its N_SO entry is taken for the function (`DebugInfo.Locate`).
* The flag in `%-d` is said to pad on the right. It does for strings; a number is padded on
  the left with `-`, so the comment is right exactly when there is nothing to pad
  (`PrintFmt.MinusPadsStrings`, `PrintFmt.MinusPadsNumbersIff`).

## Model

| member | source | states |
|---|---|---|
| `Mmu.PackParts` | jos-code-with-comments/inc/mmu.h:67-87 | packing a frame number and permission bits into an entry (`page2pa` ORed with `perm` and PTE_P) and taking PTE_ADDR and the flag bits out again returns both, with the present bit set |
| `Mmu.PackBits` | jos-code-with-comments/inc/mmu.h:67-69 | the writable bit (bit 1) and the user bit (bit 2) of a packed entry are those of perm, by position |
| `Mmu.AddressSplit` | jos-code-with-comments/inc/mmu.h:36-50 | every 32-bit address is PGADDR of its PDX, PTX and PGOFF, and PGNUM is the page number made of PDX and PTX |
| `Mmu.AddressJoin` | jos-code-with-comments/inc/mmu.h:36-50 | PDX, PTX and PGOFF recover the three parts from PGADDR |
| `Mmu.LayoutIndices` | jos-code-with-comments/inc/memlayout.h:87-128 | the literal layout constants of the model satisfy the chain of definitions from KERNBASE down to USTACKTOP; UTOP and UVPT lie on directory-slot boundaries, at the indices the model uses |
| `Mmu.GetPut` | jos-code-with-comments/kern/env.c:380-381 | a byte put into a 32-bit word is read back, and the other three bytes keep their values |
| `Vm.HoldersFinite` | jos-code-with-comments/inc/memlayout.h:181-191 | in any state the references that name a page form a finite set, so pp_ref has something to count |
| `Vm.HoldersDelta` | jos-code-with-comments/inc/memlayout.h:181-191 | a step that changes what a single reference names moves the number of holders of every page by exactly the reference lost and the reference won |
| `PageOps.AllocInv` | jos-code-with-comments/kern/pmap.c:244-260 | page_alloc hands out a page that no directory, table or entry names, that is not kern_pgdir and had no boot-time use; the invariant holds with that page counted as handed out |
| `PageOps.AllocContents` | jos-code-with-comments/kern/pmap.c:244-260 | page_alloc with ALLOC_ZERO leaves every word of the page 0, without it no frame changes, and no other frame ever does |
| `PageOps.WalkCreateInv` | jos-code-with-comments/kern/pmap.c:296-326 | pgdir_walk with create returns the existing table untouched, fails exactly when a table is missing and no page is left, and otherwise hangs a page all of whose 1024 words are 0 into that one slot; no other reference in the machine changes |
| `PageOps.RemoveInv` | jos-code-with-comments/kern/pmap.c:422-435 | page_remove of a present user entry clears exactly that entry, keeps every other reference of every environment and keeps the ledger, freeing the page if this was its last reference |
| `PageOps.InsertAtInv` | jos-code-with-comments/kern/pmap.c:359-374 | each of the three branches of page_insert (same page, other page, empty entry) makes the entry name pp and changes no other reference, and keeps the ledger; the same-page branch at any count, the others while pp_ref does not wrap and pp has no boot-time use |
| `PageOps.InsertPoints` | jos-code-with-comments/kern/pmap.c:352-375 | page_insert fails exactly when the table is missing and no page is left; otherwise the entry of va names pp, at most the table of va is new and every other reference of every environment is untouched, whatever the counts are |
| `PageOps.InsertInv` | jos-code-with-comments/kern/pmap.c:352-375 | the same together with the ledger, whenever the new reference can be counted |
| `PageOps.UnlinkInv` | jos-code-with-comments/kern/env.c:450-452 | clearing a directory slot whose table is empty and dropping the table page keeps the ledger and touches no other reference |
| `PageOps.DetachInv` | jos-code-with-comments/kern/env.c:455-458 | giving up a directory with an empty user half keeps the ledger and touches no other reference |
| `PageOps.SetupVmInv` | jos-code-with-comments/kern/env.c:161-195 | env_setup_vm gives the slot the first free page as directory, with an empty user half and the kernel half shared; no other reference changes and the invariant is kept |
| `PageOps.RemoveUnmappedIff` | jos-code-with-comments/kern/pmap.c:404 | page_remove at an unmapped address does nothing, as its comment promises, if and only if the address has no page table; otherwise the count of the frame number that the absent entry holds goes down by one, modulo 2^16 |
| `PageOps.RemoveUnmappedFreesPageZero` | jos-code-with-comments/kern/pmap.c:422-435 | the other case, made concrete: an all-zero entry under an existing table makes page_remove release page 0 onto the free list |
| `PageOps.InsertKeepsLedgerIff` | jos-code-with-comments/inc/memlayout.h:190 | page_insert, through all its branches, keeps the invariant if and only if the page is mapped there already, or has no boot-time use and a 16-bit pp_ref below 65535 |
| `Translation.SecondLevel` | jos-code-with-comments/kern/env.c:187-192 | where the first level of a walk can lead, in any address space: the directory itself in the UVPT slot, a shared kernel table above UTOP, the environment's own table below |
| `Translation.WalkCreateTranslation` | jos-code-with-comments/kern/pmap.c:296-326 | pgdir_walk with create changes no translation of any address space, with the one exception of the self-mapped page through which the new table itself becomes visible |
| `Translation.RemoveTranslation` | jos-code-with-comments/kern/pmap.c:422-435 | page_remove deletes exactly the translation of va in that directory, for every page of every address space |
| `Translation.InsertTranslation` | jos-code-with-comments/kern/pmap.c:352-375 | page_insert refines the update of a flat map: va now translates to pp with exactly the given permissions, every other page of every address space is as before (self-mapped page of a new table apart) |
| `Translation.RemoveCoherent` | jos-code-with-comments/kern/pmap.c:422-447 | after page_remove every cached translation still names the frame of the tables, and the cache stays exact if it was |
| `Translation.InsertTlb` | jos-code-with-comments/kern/pmap.c:359-374 | page_insert drops the cached translation of va exactly when it replaces a different page |
| `Translation.InsertCoherent` | jos-code-with-comments/kern/pmap.c:352-375 | after page_insert every cached translation still names the frame of the tables, in all three branches |
| `Translation.InsertExactIff` | jos-code-with-comments/kern/pmap.c:361-366 | permissions in the TLB go stale through page_insert if and only if the same page is re-inserted, in the current directory, while cached with different permissions |
| `Translation.SelfMap` | jos-code-with-comments/lib/entry.S:11-14 | through a directory whose UVPT slot names itself, the walk of uvpt[n] reads the table entry of page n (or faults if it has no table) and the walk of uvpd[d] reads directory entry d |
| `Translation.SpacesSelfMap` | jos-code-with-comments/kern/env.c:192 | kern_pgdir and every live environment's directory are such directories |
| `EnvVm.FreeEntriesInv` | jos-code-with-comments/kern/env.c:444-447 | the inner loop of env_free never panics, clears exactly the entries of its table and keeps the ledger |
| `EnvVm.FreeTablesInv` | jos-code-with-comments/kern/env.c:434-453 | the outer loop of env_free never panics, removes exactly the user tables and entries of the slots it has passed and keeps the ledger |
| `EnvVm.FreeIffUnnamed` | jos-code-with-comments/kern/pmap.c:244-289 | the free list holds exactly the pages without boot-time use that nothing names and nobody has been handed |
| `EnvVm.SamePointsSameLedger` | jos-code-with-comments/kern/pmap.c:244-435 | two states with the same references have the same pp_ref everywhere and the same set of free pages |
| `EnvVm.FreeSpaceInv` | jos-code-with-comments/kern/env.c:429-458 | env_free never panics; the environment then names nothing, every other reference is untouched and every other address space translates every page as before |
| `EnvVm.FreeSpaceReclaims` | jos-code-with-comments/kern/env.c:429-458 | env_free grows the set of free pages by exactly the pages that only this environment held |
| `EnvVm.FreeSpaceReturnsTables` | jos-code-with-comments/kern/env.c:449-458 | in particular the directory and every user page table come back |
| `EnvVm.FreeSpaceCoherent` | jos-code-with-comments/kern/env.c:426-458 | after env_free the TLB still agrees with the tables, provided cr3 has left the directory, which the switch to kern_pgdir ensures |
| `EnvVm.RemoveIsolated` | jos-code-with-comments/kern/pmap.c:422-435 | page_remove in one environment changes no reference of anybody else and no word of a frame that anybody else names |
| `EnvVm.FreeSpaceIsolated` | jos-code-with-comments/kern/env.c:429-458 | env_free changes no reference of anybody else and no word of a frame that anybody else names |
| `Loader.RegionPageInv` | jos-code-with-comments/kern/env.c:283-296 | one page of region_alloc makes the entry name the first free page and leaves every data frame and every other reference alone; two free pages always suffice |
| `Loader.RegionPageTranslation` | jos-code-with-comments/kern/env.c:283-296 | that page is mapped writable and accessible to the user, and no other user translation of any address space changes |
| `Loader.RegionPageBelowIff` | jos-code-with-comments/kern/env.c:271-297 | one page of region_alloc keeps the invariant if and only if it lies below UTOP (self-mapped slot aside): above, it counts a page that no user mapping names |
| `Loader.RegionSucceeds` | jos-code-with-comments/kern/env.c:271-297 | region_alloc succeeds whenever two pages are free for each page it maps |
| `Loader.RegionGrows` | jos-code-with-comments/kern/env.c:271-297 | region_alloc makes every page of its range readable, keeps every byte of the environment outside the range, and shares no page with anyone |
| `Loader.PageCountNumbers` | jos-code-with-comments/kern/env.c:280 | the page count is the least number of pages that hold len bytes, and 0 for the lengths above 0xFFFFF000, whose rounding wraps |
| `Loader.RegionMapsExactly` | jos-code-with-comments/kern/env.c:271-297 | in an empty address space region_alloc makes exactly n pages from the one of va on accessible, where (n-1)*4096 < len <= n*4096; of an aligned region every byte |
| `Loader.RegionWraps` | jos-code-with-comments/kern/env.c:280 | with length 0, or one whose rounding wraps, it maps nothing |
| `Loader.RegionCoversIff` | jos-code-with-comments/kern/env.c:280-281 | region_alloc, which rounds only the length, makes all of [va, va+len) accessible in an empty address space if and only if va % 4096 + len <= (len + 4095) / 4096 * 4096 |
| `Loader.StoreInv` | jos-code-with-comments/lib/string.c:141-212 | a store below UTOP through the TLB succeeds exactly when the tables map the page; it writes only the data frame they name, which has no boot-time use (so it is none of those that hold the kernel, pages[] or envs[]), and keeps the whole paging invariant and every translation |
| `Loader.StoreRead` | jos-code-with-comments/lib/string.c:141-212 | a stored byte is read back at its address and no other user byte of an unshared address space changes |
| `Loader.InsertIsolated` | jos-code-with-comments/kern/pmap.c:352-375 | page_insert in one environment changes no reference of anybody else and no word of a frame that anybody else names |
| `Loader.StoreBytesFill` | jos-code-with-comments/lib/string.c:141-212 | a copy of a byte string to readable pages always completes, is read back whole, and changes no byte outside it |
| `Loader.SegmentLoads` | jos-code-with-comments/kern/env.c:374-381 | loading one PT_LOAD segment yields the file's bytes and then zeros over the segment, and keeps all bytes outside the segment's pages |
| `Loader.SegmentsLoad` | jos-code-with-comments/kern/env.c:373-383 | all segments of a tidy image are in place at once when the loop ends |
| `Loader.LoadIcodeReads` | jos-code-with-comments/kern/env.c:329-391 | after load_icode every address of every PT_LOAD segment reads as the byte of the file, or zero past p_filesz, and the stack page is readable; for images whose segments and stack share no page and fit their rounded length |
| `Elf.ElfDecodes` | jos-code-with-comments/inc/elf.h:16-44 | what load_icode reads off a file whose bytes encode, little-endian and in the order of struct Elf and struct Proghdr, an entry point and a list of program headers, is that entry point, their number, and the fields of each |
| `Elf.LoadsElf` | jos-code-with-comments/kern/env.c:329-391 | from the bytes of such a file: after load_icode, at va + k of every header of type 1 stands image[offset + k] for k < filesz and 0 up to memsz, all segments at once |
| `Elf.ElfSucceeds` | jos-code-with-comments/kern/env.c:329-391 | such a file loads whenever two pages are free for every page of its headers and two for the stack |
| `Loader.LoadIcodeInv` | jos-code-with-comments/kern/env.c:329-391 | for every image below UTOP, tidy or not, load_icode keeps the invariant, leaves cr3 on kern_pgdir with an agreeing TLB, and is isolated from every other environment |
| `Loader.LoadIcodeSucceeds` | jos-code-with-comments/kern/env.c:329-391 | a tidy image with the right magic and p_filesz <= p_memsz loads whenever two pages are free for every page it needs and two for the stack |
| `Envs.NthIdClosed` | jos-code-with-comments/kern/env.c:221-224 | the k-th identifier of slot i in closed form: generations count up from 1 and wrap after 2^19-1, two's-complement overflow included |
| `Envs.IdShape` | jos-code-with-comments/kern/env.c:221-224 | every identifier given out is positive and carries its slot in ENVX |
| `Envs.IdRepeatsIff` | jos-code-with-comments/kern/env.c:221-224 | two allocations of a slot share an identifier if and only if 2^19-1 divides their distance |
| `Envs.EnvAllocInv` | jos-code-with-comments/kern/env.c:206-257 | env_alloc keeps the whole system invariant (ledger, TLB, slots, identifiers, cr3); the slot was free and becomes runnable with the given parent and no runs, and no other slot's record, curenv or cr3 changes |
| `Envs.SetupVmTranslation` | jos-code-with-comments/kern/env.c:161-195 | a new directory changes no translation of an address space that exists already |
| `Envs.EnvFreeInv` | jos-code-with-comments/kern/env.c:417-464 | env_free of any live environment, current or not, never panics and keeps the whole system invariant |
| `Envs.OtherDirectory` | jos-code-with-comments/kern/env.c:426-427 | once env_free has switched to kern_pgdir if need be, cr3 is not the directory about to be freed |
| `Envs.EnvRunInv` | jos-code-with-comments/kern/env.c:507-537 | env_run keeps the whole system invariant |
| `Envs.EnvRunRecord` | jos-code-with-comments/kern/env.c:507-537 | env_run changes of the environment's record only the status, to running, and the run count, by one modulo 2^32; of every other record only a running status, to runnable; curenv is the environment, cr3 its directory, and the TLB is empty |
| `Envs.EnvCreateInv` | jos-code-with-comments/kern/env.c:400-411 | env_create, when it does not panic, keeps the whole system invariant |
| `Protection.StoreAboveFaults` | jos-code-with-comments/inc/memlayout.h:106-123 | in any state in order, under any directory, a user store at or above UTOP faults, through the TLB or through the tables, self-mapped slot included |
| `Protection.StoreIffPermitted` | jos-code-with-comments/inc/mmu.h:67-69 | below UTOP, with an exact TLB, a user store succeeds if and only if both levels of the walk have bits 1 and 2 set |
| `Protection.TableDecidesAbove` | jos-code-with-comments/kern/pmap.c:314-316 | every directory entry permits everything, so the table entry decides; only the self-mapped slot is itself closed to stores |
| `Protection.RegionOpen` | jos-code-with-comments/kern/env.c:283-296 | every page that region_alloc maps has bits 1 and 2 set in both levels when it returns |
| `Steps.StepSound` | jos-code-with-comments/kern/pmap.c:244-435 | every allowed kernel operation and TLB fill keeps ledger, TLB, slots, identifiers and cr3 in order, and only env_create can panic |
| `Steps.StepGuard` | jos-code-with-comments/kern/pmap.c:330-346 | none of them opens a kernel page to user stores, in the tables or in the TLB |
| `Runs.UserStoreStep` | jos-code-with-comments/inc/mmu.h:67-69 | a user store to any address of the machine keeps the invariant; below UTOP it reaches a data frame or faults, and from UTOP up it always faults and changes nothing |
| `Runs.StepKeeps` | jos-code-with-comments/kern/pmap.c:244-435 | every allowed operation and every user store keeps the system invariant, and only env_create can panic; a page may be mapped if page_alloc handed it out or it is mapped already |
| `Runs.RunKeeps` | jos-code-with-comments/kern/env.c:206-537 | every run of page_alloc, page_free, page_insert, page_remove, env_alloc, env_create, env_run, env_free, TLB fills and user stores keeps the system invariant |
| `Runs.ReachableLedger` | jos-code-with-comments/kern/pmap.c:244-435 | in every reachable state pp_ref is the boot-time count plus the number of live directories, user and kernel table slots and user entries that name the page, and a page is free exactly when nothing names it and nobody was handed it; the list has no duplicates; a page with a boot-time use keeps its count and is named by nothing |
| `Runs.ReachableProcessor` | jos-code-with-comments/kern/env.c:426-533 | in every reachable state cr3 names kern_pgdir or a live environment's directory and never a free page, at most one environment runs and it is curenv, a slot is ENV_FREE exactly when it is on the duplicate-free env_free_list, and every cached translation names the frame of the tables |
| `Runs.ReachableKernelHalf` | jos-code-with-comments/kern/env.c:187-192 | in every reachable state every environment translates every page from UTOP up as kern_pgdir does, the UVPT slot excepted |
| `Runs.ReachableAllocIsUnused` | jos-code-with-comments/kern/pmap.c:244-260 | in every reachable state the page that page_alloc hands out is in no use and was not handed out before without a free between |
| `Runs.LiveIds` | jos-code-with-comments/kern/env.c:73-106 | live environments have distinct positive identifiers and envid2env finds each by its own |
| `Runs.LookupIff` | jos-code-with-comments/kern/env.c:73-106 | envid2env resolves a nonzero id to a slot if and only if that slot is live, carries the id and (with checkperm) is curenv or its child; it fails if and only if there is no such slot |
| `Runs.LookupCurrent` | jos-code-with-comments/kern/env.c:78-81 | identifier 0 answers the current environment whatever checkperm is, just as the current environment's own identifier does |
| `Runs.StaleIdRejected` | jos-code-with-comments/kern/env.c:85-89 | envid2env rejects an identifier of an earlier allocation of a slot until the slot has been allocated 2^19-1 more times |
| `Runs.RunCountsAllocations` | jos-code-with-comments/kern/env.c:206-257 | over any run the allocation count of a slot, on which the staleness window rests, never falls and grows by at most one per operation |
| `Runs.CreateThenFree` | jos-code-with-comments/kern/env.c:400-464 | env_create followed by env_free restores every pp_ref, the set of free pages, the slot list, every directory and every reference |
| `Steps.StepIsolated` | jos-code-with-comments/kern/pmap.c:244-435 | every kernel operation leaves all references of all environments but the one it acts on, the contents of every frame they name, and the contents of every frame with a boot-time use, as they were |
| `Isolation.StepView` | jos-code-with-comments/kern/pmap.c:244-435 | one operation that is not aimed at an environment, nor stores to a page it maps, leaves it live on the same directory with every user byte reading the same |
| `Isolation.RunView` | jos-code-with-comments/kern/env.c:206-537 | the same over every run: whatever the others map, unmap, load, store or exit, every byte below UTOP, mapped or not, reads as at the start |
| `Isolation.RunKeepsBootFrames` | jos-code-with-comments/kern/pmap.c:222-230 | over every run, user stores included, the frames with a boot-time use (kernel, kern_pgdir, and where pages[], envs[] and the program images lie) keep their contents |
| `Isolation.RunKeepsKernelMap` | jos-code-with-comments/kern/env.c:187-192 | over every run kern_pgdir goes on translating every page as it did, the self-mapped slot apart |
| `Isolation.KernelMapForever` | jos-code-with-comments/kern/pmap.c:133-163 | from boot on, after any run, every live environment finds at every page from UTOP up, the UVPT slot apart, exactly the documented kernel map |
| `Isolation.KernelMapNumbers` | jos-code-with-comments/kern/pmap.c:154-163 | the documented map in numbers: physical address + 3 from 0xF0000000 up and for the kernel stack, frame address + 5 in the two windows, nothing elsewhere |
| `Isolation.KernelProtected` | jos-code-with-comments/inc/memlayout.h:100-128 | from boot on, after any run and in every live environment: no page from ULIM up has the user bit in both levels of the walk, no page from UTOP up, self-mapped tables included, has the writable and user bits in both, and the windows on pages[] and envs[] are readable |
| `Isolation.EnvCreateRecord` | jos-code-with-comments/kern/env.c:400-411 | the slot env_create takes was free and then holds the type, parent 0, ENV_RUNNABLE, the ELF entry point and an identifier that envid2env resolves to it; no other slot's record changes |
| `Isolation.EnvCreateReads` | jos-code-with-comments/kern/env.c:400-411 | after env_create the new directory shows the program of the image |
| `Isolation.EnvCreateSucceeds` | jos-code-with-comments/kern/env.c:400-411 | env_create of a tidy image does not panic when a slot is free and there is one page for the directory and two for every page of program and stack |
| `Isolation.CreatedProgramStays` | jos-code-with-comments/kern/env.c:329-411 | end to end: after any later run that does not touch it, a created environment still shows every byte of every segment of its image |
| `Isolation.ElfProgramStays` | jos-code-with-comments/kern/env.c:329-411 | from the bytes of the file to the running system: env_create of an ELF file puts its entry point into the slot's eip and, after any later run that does not touch it, every byte of every segment where the headers say |
| `Isolation.ElfCreateSucceeds` | jos-code-with-comments/kern/env.c:400-411 | env_create of such a file succeeds with a free slot, one page for the directory and two for every page of program and stack |
| `Boot.BootFreeShape` | jos-code-with-comments/kern/pmap.c:205-236 | page_init lists exactly pages 1..npages_basemem-1 and first_free..npages-1, strictly descending |
| `Boot.BootRefNumbers` | jos-code-with-comments/kern/pmap.c:222-230 | the boot-time counts in numbers: 1 for page 0 and for pages 160 up to the first free one, 0 elsewhere |
| `Boot.BootFreeCleanIff` | jos-code-with-comments/kern/pmap.c:215-235 | every listed page has count 0 if and only if base memory ends at or below page 160, the I/O hole |
| `Boot.MapPagesInv` | jos-code-with-comments/kern/pmap.c:330-346 | boot_map_region maps all n pages if and only if there is a free page for every page table that is missing; then exactly those n translations of kern_pgdir change, to consecutive frames, exactly the missing tables appear and exactly that many pages are spent |
| `Boot.MapRegionInv` | jos-code-with-comments/kern/pmap.c:330-346 | boot_map_region maps the longest prefix whose missing tables the free pages pay for and nothing else, so all of it if and only if they pay for all; when it stops short no free page is left |
| `Boot.MapRegionStopsShort` | jos-code-with-comments/kern/pmap.c:336-338 | the silent return at work: with no free page and no table the region stays unmapped |
| `Boot.AfterPageInitInv` | jos-code-with-comments/kern/pmap.c:205-236 | what page_init leaves satisfies the ledger with the boot-time counts as its base |
| `Boot.MemInitLayout` | jos-code-with-comments/kern/pmap.c:133-163 | mem_init builds, page by page over the whole address space, exactly the documented map: KERNBASE, kernel stack with unmapped guard, pages[] and envs[] windows, empty user half; for any order of the free list |
| `Boot.MemInitCompleteIff` | jos-code-with-comments/kern/pmap.c:133-163 | it does so if and only if there is a free page for each page table (66, and one more when npages >= 512); with fewer, the top of physical memory stays unmapped |
| `Boot.MemInitInv` | jos-code-with-comments/kern/pmap.c:133-163 | however far it gets, the ledger holds and cr3 is kern_pgdir |
| `Boot.MemInitGuard` | jos-code-with-comments/kern/pmap.c:154-163 | however far it gets, no kernel page is open to user stores |
| `Boot.PagesWindowIff` | jos-code-with-comments/kern/pmap.c:154 | after mem_init every element of pages[] translates, in the window at UPAGES, to the frame that holds it, if and only if npages is a multiple of 512 |
| `Boot.BootConfig` | jos-code-with-comments/kern/pmap.c:120-190 | boot establishes the system invariant from which every run starts, for any order of the free list and however many regions could be mapped |
| `PageList.ChainUnique` | jos-code-with-comments/kern/pmap.c:244-278 | the links determine the list |
| `PageList.GuardMissesOnlyTail` | jos-code-with-comments/kern/pmap.c:272 | the guard of page_free sees a set link exactly on the listed pages other than the tail |
| `PageList.DoubleFreeOfTailLoops` | jos-code-with-comments/kern/pmap.c:267-278 | after freeing the tail again no finite list is spelled out by the links |
| `PageList.PartitionPermutes` | jos-code-with-comments/kern/pmap.c:513-526 | low pages followed by high pages is a permutation of the list |
| `PageList.SelectIsStable` | jos-code-with-comments/kern/pmap.c:513-526 | within each class the old order is kept |
| `PageList.SelectMembers` | jos-code-with-comments/kern/pmap.c:513-526 | each class holds exactly the pages of that class, without new duplicates |
| `PageList.SelectNumbers` | jos-code-with-comments/kern/pmap.c:513-526 | the low class is the pages below 1024, the first four megabytes |
| `PageList.CollectFinish` | jos-code-with-comments/kern/pmap.c:523-525 | the last three assignments join the two threads into one well-formed list, also when a class is empty |
| `KernelCode.Kernel.PageAlloc` | jos-code-with-comments/kern/pmap.c:244-260 | in-place page_alloc refines the abstract allocation; an empty list gives NULL and no change |
| `KernelCode.Kernel.PageFree` | jos-code-with-comments/kern/pmap.c:266-278 | for every page: panics exactly on a referenced page or a listed one other than the tail; pushes an unlisted page; on the unreferenced tail it leaves links that spell no list |
| `KernelCode.Kernel.PageDecref` | jos-code-with-comments/kern/pmap.c:284-289 | decrements the 16-bit count and frees the page when it reaches 0 |
| `KernelCode.Kernel.PgdirWalk` | jos-code-with-comments/kern/pmap.c:296-326 | returns the entry's place, with or without create, and refines the abstract walk; NULL and no change when it fails |
| `KernelCode.Kernel.PageLookup` | jos-code-with-comments/kern/pmap.c:390-405 | changes nothing and returns the entry and the frame number in it, present or not |
| `KernelCode.Kernel.PageRemove` | jos-code-with-comments/kern/pmap.c:422-435 | refines the abstract removal, tlb_invalidate included, for present and absent entries alike |
| `KernelCode.Kernel.PageInsert` | jos-code-with-comments/kern/pmap.c:352-375 | refines the abstract insertion; -E_NO_MEM leaves the whole state unchanged |
| `KernelCode.Kernel.EnvSetupVm` | jos-code-with-comments/kern/env.c:161-195 | refines the abstract set-up; -E_NO_MEM leaves the whole state unchanged |
| `KernelCode.Kernel.EnvAlloc` | jos-code-with-comments/kern/env.c:206-257 | refines the abstract env_alloc; -E_NO_FREE_ENV and -E_NO_MEM leave the whole state unchanged |
| `KernelCode.Kernel.EnvRun` | jos-code-with-comments/kern/env.c:507-537 | refines the abstract env_run up to the return to user mode |
| `KernelCode.Kernel.Envid2Env` | jos-code-with-comments/kern/env.c:73-106 | id 0 is curenv; otherwise the live slot with that very id, subject to the permission check; -E_BAD_ENV in every other case |
| `KernelCode.Kernel.EnvFree` | jos-code-with-comments/kern/env.c:417-464 | the nested loops refine the abstract env_free, which does not panic |
| `KernelCode.Kernel.FreeUserHalf` | jos-code-with-comments/kern/env.c:434-453 | the outer loop over directory slots refines the abstract teardown |
| `KernelCode.Kernel.RegionAlloc` | jos-code-with-comments/kern/env.c:271-297 | the loop over pages refines the abstract region_alloc; a panic is reported exactly where the abstract one fails |
| `KernelCode.Kernel.CheckWalk` | jos-code-with-comments/kern/pmap.c:699-711 | the software walk computes the processor's translation for every directory and page |
| `KernelCode.Kernel.CopyIn` | jos-code-with-comments/lib/string.c:141-212 | copying byte by byte through the tables refines the abstract store of a byte string; a fault is reported exactly where that fails |
| `KernelCode.Kernel.LoadSegment` | jos-code-with-comments/kern/env.c:374-381 | refines the abstract loading of one program header |
| `KernelCode.Kernel.LoadIcode` | jos-code-with-comments/kern/env.c:329-391 | the loop over program headers, the stack page and both switches of cr3 refine the abstract load_icode |
| `KernelCode.Kernel.EnvCreate` | jos-code-with-comments/kern/env.c:400-411 | refines the abstract env_create; a panic is reported exactly where the abstract one fails |
| `KernelCode.Kernel.PageInit` | jos-code-with-comments/kern/pmap.c:205-236 | the four loops produce exactly the boot-time list and counts |
| `KernelCode.Kernel.BootMapRegion` | jos-code-with-comments/kern/pmap.c:330-346 | the loop, with its silent return when memory runs out, refines the abstract mapping and keeps the boot invariant |
| `KernelCode.Kernel.MemInitMaps` | jos-code-with-comments/kern/pmap.c:133-163 | the mapping calls of mem_init, in order, refine the abstract mem_init |
| `KernelCode.Kernel.EnvInit` | jos-code-with-comments/kern/env.c:115-128 | all slots are free with id 0 and listed in ascending order |
| `KernelCode.Kernel.LowPagesFirst` | jos-code-with-comments/kern/pmap.c:513-526 | the two-tail-pointer loop turns any well-formed list into its low pages followed by its high pages, in place, and changes nothing else |
| `Stabs.PendingRaised` | jos-code-with-comments/kern/kdebug.c:86-93 | raising the key past a hit takes that entry out of the entries still at or above the key |
| `Stabs.TurnDecreases` | jos-code-with-comments/kern/kdebug.c:68-94 | on every table, sorted or not, each turn of the search strictly lowers the pair (entries at or above the key in [l,r], r-l+1) |
| `Stabs.NarrowSane` | jos-code-with-comments/kern/kdebug.c:66-94 | on every table the search ends with the interval empty, left on an entry of the type or at the start, and right just before an entry of the type or at the end |
| `Stabs.NarrowExact` | jos-code-with-comments/kern/kdebug.c:66-94 | on a sorted region what decides is the bisection's first hit: with no entry at addr+1 left in its interval the raised key does no harm, and otherwise left ends on an entry above addr |
| `Stabs.StabBinsearch` | jos-code-with-comments/kern/kdebug.c:62-106 | left > right exactly when the region holds no entry of the type, so never when an entry contains addr; on a sorted region left is the last entry at or below addr and right just before the next entry of the type if and only if no entry at addr+1 is left in the interval of the first hit, and otherwise left is an entry above addr |
| `Stabs.HitIffOccurs` | jos-code-with-comments/kern/kdebug.c:66-94 | on a sorted region the bisection has a first hit if and only if addr occurs |
| `Stabs.NoNeighbourSuffices` | jos-code-with-comments/kern/kdebug.c:87-92 | in particular the answer is right when addr and addr+1 do not both occur |
| `Stabs.BracketUnique` | jos-code-with-comments/kern/kdebug.c:43-47 | the bracket is unique, so the contract determines the answer |
| `Stabs.NeighbourDefeats` | jos-code-with-comments/kern/kdebug.c:87-92 | entries at 10 and 11: a search for 10 answers with the entry at 11 |
| `Stabs.NeighbourSpared` | jos-code-with-comments/kern/kdebug.c:87-92 | entries at 10, 11, 20 and 30: both occur, and the search for 10 is right all the same |
| `DebugInfo.MinusOneIff` | jos-code-with-comments/kern/kdebug.c:168-172 | on a tidy table the first search answers -1, which the test for 0 lets pass, if and only if the entry of index 0 is a source file above addr |
| `DebugInfo.OneFileAbove` | jos-code-with-comments/kern/kdebug.c:168-172 | a table of one source file at 10 and a lookup of 5: the first search answers -1 |
| `DebugInfo.Locate` | jos-code-with-comments/kern/kdebug.c:168-191 | the file is the last N_SO entry at or below addr, its stretch ends before the next N_SO; inside it the function is the last N_FUN entry at or below addr; it fails exactly when no source file after index 0 starts at or below addr, and leaves the table exactly when index 0 is a source file above addr |
| `DebugInfo.FindLine` | jos-code-with-comments/kern/kdebug.c:182-218 | in absolute addresses: with a function entry f, the line of the last N_SLINE entry j of the function with stabs[f].value + stabs[j].value <= addr; without one, of the last N_SLINE entry of the file at or below addr; -1 exactly when there is no line entry |
| `DebugInfo.LineOfAnAddress` | jos-code-with-comments/kern/kdebug.c:182-218 | a concrete table, with the types as numbers: the address five bytes into a function is on its first line |
| `DebugInfo.FindFileName` | jos-code-with-comments/kern/kdebug.c:229-234 | the file name comes from the nearest N_SOL or non-zero N_SO entry at or before the line, within the file |
| `DebugInfo.CountArgs` | jos-code-with-comments/kern/kdebug.c:240-244 | counts exactly the unbroken run of N_PSYM entries after the function entry |
| `DebugInfo.DebuginfoEip` | jos-code-with-comments/kern/kdebug.c:114-247 | the whole lookup: when exactly it fails (string table unterminated, or no source file qualifies), when exactly its second search starts before the table, and otherwise the file, function, line, file name and argument count together |
| `MemoryMoves.MovedAt` | jos-code-with-comments/lib/string.c:187-205 | what a move means, byte by byte, for any overlap |
| `MemoryMoves.MoveNext` | jos-code-with-comments/lib/string.c:160-168 | a forward step extends a moved prefix unless the destination starts inside the source |
| `MemoryMoves.MovePrevious` | jos-code-with-comments/lib/string.c:150-159 | a backward step extends a moved suffix when the destination lies above the source |
| `MemoryMoves.CopyForward` | jos-code-with-comments/lib/string.c:160-168 | the upward copy, by bytes or by words, moves exactly the n bytes |
| `MemoryMoves.CopyBackward` | jos-code-with-comments/lib/string.c:150-159 | the downward copy, by bytes or by words, moves exactly the n bytes |
| `MemoryMoves.Memmove` | jos-code-with-comments/lib/string.c:141-169 | for every overlap, alignment and length memmove moves the n bytes as they were at the start and touches nothing else |
| `Numbers.PrintnumIsPaddedNumeral` | jos-code-with-comments/lib/printfmt.c:35-50 | printnum emits max(0, width - digits) pad characters and then the numeral, for every number, base, width and pad character |
| `Numbers.NumeralCanonical` | jos-code-with-comments/lib/printfmt.c:35-50 | the numeral denotes the number, has no superfluous leading zero, and is written with the characters 0-9 and a-f |
| `Numbers.ReadDigitsValue` | jos-code-with-comments/lib/string.c:260-278 | the digit loop computes the value of the digits, wrapped to 32 bits, and stops at their end |
| `Numbers.StrtolLoop` | jos-code-with-comments/lib/string.c:239-284 | strtol as a loop computes value and end position of the reference reader, for every string and base argument |
| `Numbers.DigitCharacters` | jos-code-with-comments/lib/string.c:263-275 | the digit characters by their codes: 0-9, and the letters of either case from 10 on |
| `Numbers.StrtolReads` | jos-code-with-comments/lib/string.c:239-284 | strtol with an explicit base on blanks and tabs, an optional sign, digits and any rest: the signed value of the digits in 32-bit arithmetic, and the position just behind them |
| `Numbers.StrtolReadsHex` | jos-code-with-comments/lib/string.c:255-257 | a 0x is skipped with base 16 and selects base 16 with base 0 |
| `Numbers.StrtolGuesses` | jos-code-with-comments/lib/string.c:258-261 | with base 0 a leading 0 makes the number octal, anything else decimal |
| `Numbers.StrtolInvertsPrintnum` | jos-code-with-comments/lib/string.c:239-284 | strtol with the same base consumes all that printnum prints, for every number, base 2 to 16, width, and space or zero padding; it reads the number itself if and only if that is below 2^31, and its two's-complement image otherwise |
| `Numbers.StrtolInvertsNegativeIff` | jos-code-with-comments/lib/printfmt.c:198-235 | behind a minus sign it does so if and only if no blank padding separates sign and digits |
| `PrintFmt.DecimalReadsBack` | jos-code-with-comments/lib/printfmt.c:197-205 | through the whole formatter: strtol with base 10 reads back what `%d` prints and consumes all of it, for every 32-bit int |
| `PrintFmt.HexOctalReadBack` | jos-code-with-comments/lib/printfmt.c:213-235 | the same for `%x`, `%o` and, prefix included, `%p`, for every 32-bit word read as a signed number |
| `PrintFmt.MinusPadsStrings` | jos-code-with-comments/lib/printfmt.c:114-117 | for strings the minus flag pads on the right with blanks, as its comment says |
| `PrintFmt.MinusPadsNumbersIff` | jos-code-with-comments/lib/printfmt.c:114-117 | for numbers it puts minus signs on the left; the output is the number padded on the right if and only if the width leaves nothing to pad |
| `PrintFmt.UnknownEscapeIsLiteral` | jos-code-with-comments/lib/printfmt.c:241-247 | an unrecognised escape is printed literally up to the next percent sign, although the code rewinds |
| `PrintFmt.EscapeEnds` | jos-code-with-comments/lib/printfmt.c:113-247 | an escape either ends just after a conversion character or prints a single percent sign and resumes right behind it |
| `Directives.DirectiveRead` | jos-code-with-comments/lib/printfmt.c:105-163 | a directive (flag, decimal width, decimal precision, l's, conversion), wherever it stands in a format, is read as what it says and consumes one argument |
| `Directives.PrintsUnsigned` | jos-code-with-comments/lib/printfmt.c:208-235 | %u, %o and %x print the numeral of the argument modulo 2^32 (2^64 with ll) in base 10, 8 or 16, padded on the left to the width with blanks, or with zeros for the flag 0 |
| `Directives.UnsignedReadsBack` | jos-code-with-comments/lib/string.c:239-284 | strtol in that base reads the number back, flag, width and padding included |
| `Directives.PrintsSigned` | jos-code-with-comments/lib/printfmt.c:197-205 | %d prints sign, padding and digits in this order, for every 32-bit number, and with ll for every 64-bit one |
| `Directives.PrintsPointer` | jos-code-with-comments/lib/printfmt.c:220-227 | %p prints 0x, padding and the hexadecimal numeral |
| `Directives.PrintsChar` | jos-code-with-comments/lib/printfmt.c:165-168 | %c prints the one character and %% a percent sign without taking an argument |
| `Directives.PrintsString` | jos-code-with-comments/lib/printfmt.c:181-195 | %s prints the first min(precision, length) characters padded to the width on the stated side, (null) for a null pointer, and question marks for unprintable characters with the flag # |
| `Directives.PrintsError` | jos-code-with-comments/lib/printfmt.c:170-179 | %e prints the message of the error number of either sign, or "error" and the number |
| `PrintFmt.Vprintfmt` | jos-code-with-comments/lib/printfmt.c:89-250 | terminates on every NUL-terminated format without reading past the NUL, and prints the stream that the lemmas above describe directive by directive |
| `PrintFmt.SprintBuf.Put` | jos-code-with-comments/lib/printfmt.c:268-274 | counts every character, stores it only while there is room, and never writes at or past the limit |
| `PrintFmt.Vsnprintf` | jos-code-with-comments/lib/printfmt.c:276-291 | stores exactly the first min(n-1, length) characters of the stream and a NUL, returns the full length, and writes nothing past n; -E_INVAL and no write for n < 1 |
| `PrintFmt.PrintBuf.Put` | jos-code-with-comments/lib/printf.c:26-35 | what was sent followed by what is buffered is the stream so far, and a full buffer is flushed at 255 |
| `PrintFmt.Vcprintf` | jos-code-with-comments/lib/printf.c:37-48 | the chunks passed to sys_cputs, none longer than 255, concatenate to the stream, whose length is returned |

## Left out

- Inline assembly, port I/O, devices, the GDT and IDT, `env_pop_tf`, trap and system-call handling, `user_mem_check`: hardware effects or unfinished stubs. `lcr3` and `invlpg` are steps on the modelled `cr3` and TLB.
- Detecting memory and `boot_alloc`: `npages`, `npages_basemem`, the first free page and the frames of kern_pgdir, pages[], envs[] and the stack are a `Layout` that `SaneLayout` constrains (base memory ends by the I/O hole, at most 256 MB, regions inside the boot-time pages).
- The words of pages[], envs[] and the program images are kept beside physical memory, not inside the frames that hold them. Nothing modelled writes those frames (`Isolation.RunKeepsBootFrames`), because page_insert is only allowed on pages without a boot-time use: in the kernel every page mapped below UTOP comes from page_alloc.
- The TLB caches table entries; the bits of the directory entry are taken from the directory as it is. Stores by the kernel itself (load_icode, with CR0_WP set) are not checked for the writable bit: they go to pages of region_alloc, which have it (`Protection.RegionOpen`).
- Pages of base memory between npages_basemem and the I/O hole, which page_init neither lists nor marks, count as handed out (`Boot.Unlisted`).
- Permission bits at or above bit 12 and unaligned boot mappings: `perm < 4096` and aligned addresses are required, as every call in the kernel has them.
- KernelCode.Kernel.PageInsert: only for directories of environments and addresses below UTOP, as in every call the kernel makes outside its self tests; mapping a directory, a page table or a free page as data is excluded by `DataFrame`, because it is what the roles forbid.
- PageOps.InsertInv: likewise for directories of environments.
- KernelCode.Kernel.PageRemove: requires that the page in the entry is not both listed and referenced once; a listed page has no references in any reachable state.
- Loader.LoadIcodeReads: needs segments and stack that share no virtual page and fit their rounded length; `Loader.LoadIcodeInv` covers all other images below UTOP.
- Loader.SegmentLoads: segments end at or below UTOP. Above it even one page of region_alloc breaks the invariant (`Loader.RegionPageBelowIff`).
- Loader.LoadIcodeInv: for images whose segments end at or below UTOP, for the same reason.
- Envs.EnvCreateInv: likewise.
- KernelCode.Kernel.LoadSegment: likewise.
- KernelCode.Kernel.LoadIcode: likewise.
- KernelCode.Kernel.EnvCreate: likewise; and a panic ends the run, so the state after one is not described.
- The rest of the trap frame that env_alloc fills in, `env_destroy`, and the tracing output.
- `EnvAllocOp` and `EnvRunOp` take any parent and any live environment; scheduling policy is not modelled.
- DebugInfo.DebuginfoEip: the table must be sorted for N_SO, and for N_FUN within the file, with no entry taken for its neighbour. Not modelled are the length of the function name up to its colon, and reading the table of a user program from USTABDATA; the table is a parameter.
- `memset` and `strnlen` as loops of their own, `strcpy`, `strcmp` and the other string functions: easy members. The loader's memset is a copy of zeros.
- Numbers.StrtolLoop: the value wraps in 32 bits as the machine's does, although signed overflow is undefined in C.
- PrintFmt.Vprintfmt: arguments are a sequence of typed values; a mismatch between format and argument type, overflow of width or precision beyond 32 bits, and the error number INT_MIN are not modelled.
- The self tests other than the reordering of the free list, kern/console.c, kern/monitor.c, kern/printf.c, lib/readline.c and the user programs.
