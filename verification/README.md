# A verified model of the cezOS kernel core

The repository is a small 32-bit x86 kernel. This project models its four hard parts in Dafny and
proves what they promise, for all inputs and over all runs.

1. **Memory** (`src/kernel/kmap.c`, with `kmap.h`, `mmu.h`, `memlayout.h` and `proc_init_vm`). The
   physical pages form a free list threaded through the page array; page tables live in pages taken
   from that list; the page directory maps itself; the hardware caches translations whenever it likes.
   `PageMemory` gives every operation as a function on an abstract memory, and what it keeps and
   changes. `PageLifecycle` makes it a state machine with the translation cache and proves safety over
   all runs. `KernelMemory` is the class with the arrays and the links: each in-place method is proved
   equal to its function or step, up to `InitializeMemory`, which builds the kernel's address space
   from nothing and ends in a state from which every lifecycle run is safe. `KernelMap`, `PageList`,
   `BootAlloc` and `AddressSpace` hold the boot mapping, the in-place partition of the free list, the
   boot allocator, and the self-map with the directory of a new task.
2. **64-bit arithmetic on 32-bit words** (`src/lib/arch64.c`): `BitCounts` and `Arith64`, over the
   shifts and masks that `Words` defines one bit at a time.
3. **Formatting and parsing** (`src/lib/printfmt.c`, `strtol` and the copies of `src/lib/string.c`):
   `Printf`, `Strings`, and the round trips between the two in `PrintParse`. `FormatLaws` and
   `ParseLaws` say what every text of the two grammars means without reference to how it is scanned.
4. **Console and line editor** (`src/kernel/console.c`, `src/lib/readline.c`): `Console` refines a tape
   that never scrolls, and `Readline` proves that the screen shows what was typed.

Physical page numbers stand for page addresses, words are natural numbers below 2^32 or 2^64, and
every wrap-around is written out. `MEM_ERROR_LOOP` is a `halted` result, or a precondition where the
source would have gone wrong before it. The order of paging and translation-cache events follows
sections 4.3, 4.6 and 4.10 of the Intel SDM, volume 3A.

## Where the code differs from what one expects

Each of these is stated as an exact condition, not as a remark.

- `insert_page` compares the old permissions with `=` (`src/kernel/kmap.c:274`), so re-inserting a
  mapped page with non-zero permissions keeps the old ones (`AddressSpace.PermissionsInstalledIff`, and
  `AddressSpace.PermissionsKept` for a concrete pair of calls).
- Page 0 has the address of an absent entry, so `insert_page` mistakes one for the other: it maps and
  counts page 0 exactly where another page was mapped (`AddressSpace.InsertPageZero`). The kernel keeps
  page 0 reserved (`KernelMemory.KernelMemory.BuildKernelSpace`), and the statement covers it as such.
- The rewrite of an entry executes `invlpg` before the store, so it is safe against fills exactly when
  it changes nothing (`PageLifecycle.RewriteCoherentIff`); `remove_page`, which frees before it
  invalidates, and the other paths of `insert_page` are sound (`PageLifecycle.RemoveUnderFills`,
  `PageLifecycle.InsertUnderFills`).
- A second `free_page` of the tail of the list goes undetected and makes the list endless
  (`PageList.PushLinkedIff`).
- Mappings made at boot are not counted, so removing or replacing one breaks the counts
  (`AddressSpace.RemoveStaticIff`, `AddressSpace.InsertStaticIff`).
- `boot_alloc` tests its limit after a sum that may wrap (`BootAlloc.AllocSoundIff`); no call in the
  kernel makes it wrap, the sizes being one page, eight bytes a page of the machine, and zero
  (`BootAlloc.BootServed`).
- The kernel stack is mapped with `PTE_U` alone, so user code may read it and, with write protection
  on, its window cannot be written, unlike the layout in `src/inc/memlayout.h:55` (`KernelMap.WindowsAccess`);
  the self-map of a task is writable and closed to user code, unlike the read-only window of
  `src/inc/memlayout.h:68` (`AddressSpace.TaskDirectoryTranslates`).
- The directory of a task shares the tables that exist at its creation and never learns of later ones
  (`PageLifecycle.TaskOverRuns`).
- The last page of the address space is never mapped, since the size of the remap region is rounded
  down, and `check_kern_pgdir` passes exactly up to 0xFFFF pages with an aligned boot stack
  (`KernelMap.BuiltPassesIff`). `bootstack` is declared as a pointer, so what is mapped
  is the address stored there; it is a parameter here.
- The comparison trick of the division loop is wrong for arbitrary operands
  (`Arith64.WrapComparesIff`) and right in every state the loop reaches (`Arith64.NextBit`).
- `-2^63 / -1` is the only signed division whose quotient is not the truncated one (`Arith64.DivDi3`).
- `memmove` always copies forward (`Strings.ForwardMovesIff`), and `memset` stores all four bytes of
  its int in turn (`Strings.MemsetIsC99Iff`), so the poison of a free page is the word 0x97.
- `strtol` does not saturate: the value is taken modulo 2^32, and signed overflow is taken to wrap
  (`PrintParse.PrintParse`). Blanks used as padding after a sign or a prefix end a number before it
  begins (`PrintParse.PrintParseNegativeIff`, `PrintParse.PointerParseIff`).
- The left-justify flag pads numbers with minus signs on the left
  (`PrintParse.LeftJustifiedParseIff`).
- The width of `%s` without a precision is counted from length zero (`Printf.StringWidthIff`), and a
  precision of zero is read as a padding flag (`FormatLaws.ZeroPrecision`).
- DEL erases except on an empty line, where it is inserted (`Readline.BackspaceUndoesIff`).

## Model

| member | source | states |
|---|---|---|
| `PageMemory.WithTableWalks` | src/kernel/kmap.c:295-323 | Asking for a table keeps the directory tree well formed and leaves every other directory slot and every translation outside the self-map window as it was; a missing table is the head of the free list, zeroed, with one reference. |
| `PageMemory.WithTableCounted` | src/kernel/kmap.c:309-318 | The page that becomes a table moves from the free list to the tables with exactly the one reference its directory entry stands for, so all counts stay exact. |
| `PageMemory.SetPteWalks` | src/kernel/kmap.c:255-288 | Writing one table entry changes the translation of that page and of no other, because no two directory slots share a table. |
| `PageMemory.AllocCounted` | src/kernel/kmap.c:181-199 | Taking the head of the free list changes no translation, no count and no other frame; the page itself is all zeros if asked for, and untouched if not. |
| `PageMemory.ReleaseCounted` | src/kernel/kmap.c:201-213 | Putting an unreferenced page back on the list changes no translation and no count. |
| `PageMemory.RemoveCounted` | src/kernel/kmap.c:236-258 | remove_page clears one entry and takes off one count; every other translation stands, search_page then finds nothing, and a page whose count reached zero heads the free list. All counts stay exact. |
| `PageMemory.MapHereCounted` | src/kernel/kmap.c:271-288 | Once the table is there, mapping a page changes one entry, adds one to its count unless it was already mapped there, and takes one off the count of the page it evicts, which goes to the head of the list if that was its last. |
| `PageMemory.InsertCounted` | src/kernel/kmap.c:260-289 | insert_page of a page other than 0: search_page then returns that page, every other page's translation is unchanged even when a zeroed table was allocated or an old mapping evicted, and all counts stay exact. |
| `PageMemory.Remap` | src/kernel/kmap.c:272-280 | Rewriting the entry of the page already mapped there touches no count. |
| `PageMemory.FreePageUnmapped` | src/kernel/kmap.c:159-243 | A page on the free list has count zero, no dynamic entry names it and it is no table. |
| `PageMemory.CountPositive` | src/kernel/kmap.c:236-258 | The page behind a present dynamic entry is in the pool, is referenced and is off the free list, which is what page_decref needs. |
| `PageLifecycle.StepKeepsInv` | src/kernel/kmap.c:159-323 | Every step, whether allocation, release, insertion, removal, a new task, a hardware fill or eviction, a flush or a store through a dynamic address, keeps counts exact and the translation cache coherent; the reserved pages change only by the directory of a new task. |
| `PageLifecycle.InsertKeepsInv` | src/kernel/kmap.c:260-289 | After insert_page every cached entry equals the current walk, including entries of the self-map window, although invlpg is executed only on eviction and on a rewrite. |
| `PageLifecycle.RemoveKeepsInv` | src/kernel/kmap.c:247-258 | After remove_page every cached entry equals the current walk. |
| `PageLifecycle.TableKeepsInv` | src/kernel/kmap.c:309-318 | A new page table needs no invalidation: nothing could have been cached through the absent slot. |
| `PageLifecycle.StoreTarget` | src/kernel/kmap.c:215-234 | A store through a dynamic address, cached or walked, lands in a mapped pool page: never in a table, the directory, a reserved page or a free page. |
| `PageLifecycle.OnePlace` | src/kernel/kmap.c:159-323 | Each page is in exactly one of free, held and unmapped, mapped, page table and reserved. |
| `PageLifecycle.InvIsSafe` | src/kernel/kmap.c:201-258 | No page on the free list is reachable through a dynamic entry, a cached translation of a dynamic address, or as a table. |
| `PageLifecycle.RunIsSafe` | src/kernel/kmap.c:159-323 | Over every run of all steps, with hardware fills in between: exact counts, coherent cache, no use after free, each page in exactly one place, and the reserved pages stay reserved, joined only by the directories of new tasks. |
| `PageLifecycle.RemoveUnderFills` | src/kernel/kmap.c:247-258 | remove_page frees the page before it invalidates; with arbitrary fills after the entry is cleared and again after the page is freed, the state at the end is coherent all the same. |
| `PageLifecycle.InsertUnderFills` | src/kernel/kmap.c:260-289 | With arbitrary fills in every gap of the paths that map a page anew (fetching the table, clearing an evicted entry, releasing its page, dropping its translation, storing the new entry), the counts are exact and the cache coherent afterwards. |
| `PageLifecycle.RewriteUnderFillsIff` | src/kernel/kmap.c:272-280 | For one given fill in the gap between the invalidation and the store of a rewrite: the cache is coherent afterwards exactly when that fill left the page out, or the entry did not change. |
| `PageLifecycle.RewriteCoherentIff` | src/kernel/kmap.c:272-280 | The cache is coherent after the rewrite whatever the hardware fills in between if and only if the rewrite does not change the entry, which a caller can tell beforehand. |
| `PageLifecycle.StepKeepsShared` | src/kernel/kmap.c:159-323 | No step writes a reserved frame other than the kernel directory, and no step takes a table out of that directory. |
| `PageLifecycle.TaskOverRuns` | src/kernel/proc.c:104-133 | From its creation on, over every later run, a task directory holds those words, maps itself and translates each address whose slot had a table at creation exactly as the kernel directory does at that moment, and no other address. |
| `PageLifecycle.RunKeepsOpen` | src/kernel/kmap.c:295-323 | Over every run every page table keeps all rights in its directory entry, so that the entries of the table decide. |
| `AddressSpace.InsertThenRemove` | src/kernel/kmap.c:215-289 | The round trip of a held page: inserted, it is found with one reference; removed, it is not found, heads the free list, and all other translations are what they were before both calls. |
| `AddressSpace.PermissionsInstalledIff` | src/kernel/kmap.c:271-281 | The requested permissions are installed if and only if the page was not mapped there already, or permissions is zero, or the entry had them: the comparison on line 274 is an assignment. |
| `AddressSpace.PermissionsKept` | src/kernel/kmap.c:271-281 | The failing case: a page inserted with PTE_U and then again with PTE_W at the same address keeps the entry of the first call. |
| `AddressSpace.InsertPageZero` | src/kernel/kmap.c:271-289 | Inserting page 0, reserved or not, where it is not mapped already: it is found afterwards with one more reference if and only if the address mapped another page before; at an unmapped address it is either not mapped (non-zero permissions) or mapped without being counted (zero). |
| `AddressSpace.ReservedUnmapped` | src/kernel/kmap.c:122-124 | A reserved page, as page 0 is after init_pages, is off the free list and mapped by no dynamic entry, so the above applies to it. |
| `AddressSpace.RemoveStaticIff` | src/kernel/kmap.c:236-258 | remove_page on an address of the windows mapped at boot keeps the counts if and only if nothing is mapped there, since those mappings were never counted; a count of zero wraps to 2^32 - 1. |
| `AddressSpace.InsertStaticIff` | src/kernel/kmap.c:260-289 | insert_page on such an address keeps the counts if and only if the entry names that page already. |
| `AddressSpace.InsertAccess` | src/kernel/kmap.c:260-289 | At an address where a page was newly inserted, user code may read it exactly if bit 2 of permissions is set, and it can be written exactly if bit 1 is; it walks to that page. |
| `AddressSpace.InsertOpen` | src/kernel/kmap.c:301-317 | insert_page gives every new page table all rights in its directory entry and narrows those of none. |
| `AddressSpace.SelfMap` | src/kernel/kmap.c:358-360 | For every address with a present directory entry, U_VIRTUAL_PAGE_TABLE + 4*PGNUM(va) walks to the physical address of the very word that maps va. |
| `AddressSpace.TaskDirectoryTranslates` | src/kernel/proc.c:104-133 | The directory of a new task holds the kernel directory's words, but for its self-map, which names itself, present and writable and closed to user code; it translates every other address exactly as the kernel directory does, and leaves the kernel's mappings and counts undisturbed. |
| `KernelMap.Windows` | src/inc/memlayout.h:100-116 | The windows of the layout in numbers: their page numbers, the slot of the self-map, and which addresses are dynamic. |
| `KernelMap.TablesNeededCount` | src/kernel/kmap.c:327-345 | A region takes one table for every directory slot it touches that has none; only its first slot may already have one. |
| `KernelMap.RegionStep` | src/kernel/kmap.c:336-344 | One iteration extends the mapped region by one page and takes a table only at a fresh slot, keeping everything mapped before. |
| `KernelMap.RegionMeans` | src/kernel/kmap.c:336-344 | Each entry of a mapped region names its frame, is present, and grants writing and user access exactly as permission says, or as the low bits of an unaligned address do. |
| `KernelMap.ThreeRegions` | src/kernel/kmap.c:374-387 | After the three calls in order, where the stack region spills past KERNEL_BASE_ADDRESS and is overwritten, every entry outside the self-map window is the intended one and exactly the first 66 free pages have become tables. |
| `KernelMap.WindowsTranslate` | src/kernel/kmap.c:374-387 | Every address of the pages, stack and remap windows walks to its intended physical address; all other addresses, among them the last page of the address space, are unmapped. |
| `KernelMap.PagesTranslate` | src/kernel/kmap.c:374-375 | Every byte of the page-array window walks to its place from the physical start of the array, whatever bootstack is. |
| `KernelMap.KernelEntryBits` | src/kernel/kmap.c:374-387 | The low bits of every entry in numbers: 5 in the page-array window and in that of an aligned stack, 3 in the remapped memory, and 0 elsewhere. |
| `KernelMap.WindowsAccess` | src/kernel/kmap.c:358-387 | What the hardware allows at every address of the finished map: user code may read the page array, the kernel stack and the page tables, and only remapped physical memory can be written. |
| `KernelMap.TablesBelowFourMegabytes` | src/kernel/kmap.c:369-387 | If the first 66 free pages are below 4MB, every page table of the kernel map is, inside the window that the entry directory maps. |
| `KernelMap.BuiltCounted` | src/kernel/kmap.c:327-391 | The finished map is a state of the page lifecycle: nothing mapped dynamically, 66 tables with one reference each, counts exact. |
| `KernelMap.CheckPages` | src/kernel/kmap.c:512-523 | check_va2pa finds the i-th page of the page array in its window. |
| `KernelMap.CheckRemap` | src/kernel/kmap.c:525-533 | check_va2pa finds physical page i above KERNEL_BASE_ADDRESS for every i below 0xFFFF, and nothing for page 0xFFFF. |
| `KernelMap.CheckStack` | src/kernel/kmap.c:534-541 | check_va2pa finds the expected stack page if and only if the physical address of bootstack is page aligned. |
| `KernelMap.DirectorySlots` | src/kernel/kmap.c:544-557 | The directory slots that check_kern_pgdir looks at are present, and writable above the first remap slot. |
| `KernelMap.BuiltPassesIff` | src/kernel/kmap.c:506-563 | The finished map meets what check_kern_pgdir asks if and only if pages_count <= 0xFFFF and bootstack is page aligned. |
| `PageList.DownPages` | src/kernel/kmap.c:126-156 | Pushing pages lo to hi-1 one by one makes a list of exactly those pages, highest first. |
| `PageList.PushLinkedIff` | src/kernel/kmap.c:204-209 | Making a page without successor the head leaves a list if and only if the page was not on it: a second free of the tail makes the links endless. |
| `PageList.PartitionedPages` | src/kernel/kmap.c:459-473 | The partition has the same pages, none twice, and its low pages come first. |
| `PageList.SelectMembers` | src/kernel/kmap.c:462-469 | Each side of the partition holds exactly the pages of that side, once each. |
| `PageList.SelectKeepsOrder` | src/kernel/kmap.c:462-469 | Each side keeps the order of the free list: its pages come from increasing positions. |
| `PageList.SelectCounts` | src/kernel/kmap.c:462-469 | The two sides together are as long as the list. |
| `PageList.DownLow` | src/kernel/kmap.c:126-156 | How many of the pages that init_pages frees lie below 4MB. |
| `PageList.NextChain` | src/kernel/kmap.c:462-469 | One iteration: writing through the tail pointer of one chain disturbs neither the other chain nor the part of the list still to be visited. |
| `PageList.StepPartition` | src/kernel/kmap.c:462-469 | The loop invariant of the partition is kept: the chains are what was moved, the rest is still linked. |
| `PageList.FinishPartition` | src/kernel/kmap.c:470-472 | Terminating the high chain and joining the low chain to it links the whole partitioned list, also when either chain is empty. |
| `BootAlloc.BootAllocator.Alloc` | src/kernel/kmap.c:70-100 | The address handed out, the next pointer, and halting exactly past the 4MB limit, with the 32-bit wrap of the sum and of the rounding. |
| `BootAlloc.RoundUp` | src/kernel/kmap.c:25-26 | Rounding goes to a page boundary strictly above, even from one. |
| `BootAlloc.AllocSoundIff` | src/kernel/kmap.c:89-94 | An allocation that does not halt has memory of its own if and only if its rounded end does not wrap; if it wraps, the pointer moves back and the limit test passes. |
| `BootAlloc.PointerAdvances` | src/kernel/kmap.c:70-100 | Over every sequence of served calls the pointer is page aligned, below the limit, and past all earlier allocations. |
| `BootAlloc.RegionsDisjoint` | src/kernel/kmap.c:70-100 | The regions of every sequence of served calls are page aligned, below KERNEL_BASE_ADDRESS + 4MB and pairwise disjoint. |
| `BootAlloc.PoolApart` | src/kernel/kmap.c:117-157 | No page of the pool is page 0 or meets the IO hole, the kernel image or any boot allocation. |
| `BootAlloc.BootNotNull` | src/kernel/kmap.c:77-82 | The pointer never becomes null again before the boot allocations halt, so no call starts over above the kernel image. |
| `BootAlloc.BootServed` | src/kernel/kmap.c:358-365 | If neither the directory nor the page array makes boot_alloc halt, no rounded end has wrapped. |
| `BootAlloc.BootLayout` | src/kernel/kmap.c:358-368 | Then the directory lies in a frame above base memory and below used_count, the page array is aligned and fits its 4MB window, and no page of the pool is page 0 or the directory or meets the page array, the IO hole or the kernel image. |
| `KernelMemory.KernelMemory.PushFree` | src/kernel/kmap.c:127-130 | The page becomes the head of the intrusive list, with count zero. |
| `KernelMemory.KernelMemory.FirstFreePage` | src/kernel/kmap.c:159-173 | The head is taken off and its link cleared. |
| `KernelMemory.KernelMemory.PageAlloc` | src/kernel/kmap.c:181-199 | The in-place operation has exactly the effect of Alloc on the abstract memory, with zero fill on an odd flag. |
| `KernelMemory.KernelMemory.FreePage` | src/kernel/kmap.c:201-213 | Halts exactly on a page that is referenced, or on the list but not its tail; otherwise it has the effect of Release, except on the tail, which is linked to the head and made the head. |
| `KernelMemory.KernelMemory.PageDecref` | src/kernel/kmap.c:236-243 | One reference less, wrapping below zero, and at zero the page heads the free list. |
| `KernelMemory.KernelMemory.GetPageTable` | src/kernel/kmap.c:293-323 | Returns the frame and index of the entry for va, allocating a zeroed table only if asked to, and halts exactly on an absent slot without create. |
| `KernelMemory.KernelMemory.SearchPage` | src/kernel/kmap.c:215-234 | Returns the mapped page or NULL and the place of its entry, and changes nothing. |
| `KernelMemory.KernelMemory.RemovePage` | src/kernel/kmap.c:247-258 | At every address the in-place operation is Remove on the abstract memory, and drops the cached translation exactly when a page was found; it halts exactly on an absent directory slot. |
| `KernelMemory.KernelMemory.InsertPage` | src/kernel/kmap.c:260-289 | For every page, page 0 and reserved pages included, and every address outside the self-map window, the in-place operation is Insert on the abstract memory, and drops the cached translation exactly when one of its two branches invalidates. |
| `KernelMemory.KernelMemory.InitPages` | src/kernel/kmap.c:117-157 | The free list is exactly the extended pages then the base pages, highest first, without page 0; all others are reserved with count one. |
| `KernelMemory.KernelMemory.PartitionList` | src/kernel/kmap.c:459-473 | The two-tail-pointer loop relinks the list in place into its stable partition. |
| `KernelMemory.KernelMemory.Poison` | src/kernel/kmap.c:475-486 | Exactly the free pages below 4MB are filled with the poison; no other frame changes. |
| `KernelMemory.KernelMemory.CheckPageList` | src/kernel/kmap.c:451-488 | Stable partition of the free list, low pages first, and only free low pages overwritten. |
| `KernelMemory.KernelMemory.MapMemoryRegion` | src/kernel/kmap.c:325-345 | Maps size/PAGE_SIZE pages to consecutive frames with the rights asked for; every other entry is unchanged and exactly the missing tables come off the free list. |
| `KernelMemory.KernelMemory.CheckVa2pa` | src/kernel/kmap.c:490-503 | The frame behind va, or all ones. |
| `KernelMemory.KernelMemory.CheckRange` | src/kernel/kmap.c:518-541 | Each of its address loops finds no fault if and only if every page of the range leads to its frame. |
| `KernelMemory.KernelMemory.CheckSlots` | src/kernel/kmap.c:544-561 | Its loop over the directory finds no fault if and only if the slots it names are present, and those above the first remapped one present and writable. |
| `KernelMemory.KernelMemory.CheckKernPgdir` | src/kernel/kmap.c:506-563 | On any map it reaches no error branch if and only if the page array, physical memory and the stack lead where they should and the directory slots are present and writable as asked. |
| `KernelMemory.KernelMemory.MapKernel` | src/kernel/kmap.c:374-387 | The three calls find their 66 tables among the first free pages and build the kernel map. |
| `KernelMemory.KernelMemory.BuildKernelSpace` | src/kernel/kmap.c:358-394 | From nothing to the switch of page tables: the free list, the kernel map, page 0 reserved, all tables below 4MB, the exact condition under which the check passes, and then a state from which every lifecycle run is safe. |
| `KernelMemory.KernelMemory.InitializeMemory` | src/kernel/kmap.c:347-394 | The whole of it on top of the boot allocator: it halts exactly if the boot allocations do not fit; otherwise the free list is exactly the pool, no free page meets a boot allocation, element i of the second boot allocation is found at U_PAGES + 8*i, the map is the intended one with its tables below 4MB, and check_kern_pgdir passes if and only if pages_count <= 0xFFFF and bootstack is page aligned. |
| `KernelMemory.KernelMemory.ProcInitVm` | src/kernel/proc.c:104-133 | The in-place operation builds exactly the directory of a new process that the abstract memory prescribes. |
| `KernelMemory.TwoRanges` | src/kernel/kmap.c:117-157 | After init_pages and the partition the list has every pool page once, and as many low pages in front as the two ranges have below 4MB. |
| `KernelMemory.FrameBytes` | src/lib/string.c:159-181 | A frame filled with the int c holds, as bytes, what memset leaves of it. |
| `Mmu.Pdx` | src/inc/mmu.h:27 | The shift and mask give the address divided by 4MB. |
| `Mmu.Ptx` | src/inc/mmu.h:29 | The shift and mask give the page number modulo 1024. |
| `Mmu.Pgnum` | src/inc/mmu.h:31 | The shift and mask give the address divided by the page size. |
| `Mmu.Pgoff` | src/inc/mmu.h:33 | The mask gives the address modulo the page size. |
| `Mmu.Decompose` | src/inc/mmu.h:8-38 | A linear address is its directory index, table index and offset side by side, and the first two are its page number. |
| `Mmu.PteAddr` | src/inc/mmu.h:70 | The mask leaves the frame number times the page size. |
| `Mmu.MakeEntry` | src/kernel/kmap.c:287 | An entry composed with or names the frame of pa, is present, and keeps the permission bits when pa is page aligned. |
| `BitCounts.Clzsi2` | src/lib/arch64.c:100-110 | For every non-zero word the result and the bit length add up to 32. |
| `BitCounts.Clzdi2` | src/lib/arch64.c:112-121 | For every non-zero word the result and the bit length add up to 64. |
| `BitCounts.Ctzsi2` | src/lib/arch64.c:123-133 | For every non-zero word the number of trailing zeros, counted one bit at a time. |
| `BitCounts.Ctzdi2` | src/lib/arch64.c:135-144 | The same for 64-bit words. |
| `BitCounts.Ffsdi2` | src/lib/arch64.c:198-203 | One more than the number of trailing zeros, or zero for zero. |
| `BitCounts.Popcountsi2` | src/lib/arch64.c:232-242 | The number of set bits, counted one at a time. |
| `BitCounts.Popcountdi2` | src/lib/arch64.c:244-255 | The number of set bits of a 64-bit word. |
| `BitCounts.ClzLine` | src/lib/arch64.c:105-108 | One masked line halves the remaining uncertainty: it shifts out leading zeros exactly when the top half is empty. |
| `BitCounts.CtzLine` | src/lib/arch64.c:128-131 | The same from the other end. |
| `BitCounts.PairStep` | src/lib/arch64.c:236 | Subtracting the odd bits leaves in each pair the number of its set bits, with no borrow between pairs. |
| `BitCounts.NibbleStep` | src/lib/arch64.c:237 | Adding the masked halves leaves in each nibble the number of its set bits, with no carry. |
| `BitCounts.ByteStep` | src/lib/arch64.c:238 | Folding nibbles and masking leaves in each byte the number of its set bits. |
| `Arith64.WrapComparesIff` | src/lib/arch64.c:184 | The sign-extension trick decides rem >= b if and only if the difference of the two fits a signed word; it is wrong otherwise. |
| `Arith64.Start` | src/lib/arch64.c:175-177 | With 2 <= b <= a, aligning the leading bits leaves between 1 and 63 bits to read and a first remainder below b. |
| `Arith64.NextBit` | src/lib/arch64.c:180-186 | In every state the loop reaches, the shifted remainder loses no bit, the trick equals rem >= b, and the division invariant holds with one more bit read, also for b >= 2^63. |
| `Arith64.RegisterStep` | src/lib/arch64.c:182-183 | Shifting the register yields the next numerator bit while the quotient bits enter behind it. |
| `Arith64.Iteration` | src/lib/arch64.c:180-186 | One iteration on the actual registers keeps the loop invariant. |
| `Arith64.Finish` | src/lib/arch64.c:187-188 | With no bits left, the register and the last wrap bit are the quotient. |
| `Arith64.DivModDi4` | src/lib/arch64.c:146-189 | For all 64-bit a and b != 0: a = q*b + r with r < b. |
| `Arith64.NegNegates` | src/lib/arch64.c:51-53 | Complement and increment is negation modulo 2^64, when the second operand is negative. |
| `Arith64.TruncDivides` | src/lib/arch64.c:191-230 | Truncated division as section 6.5.5 of C99 has it: quotient and remainder recombine, the remainder is smaller than the divisor and zero or of the dividend's sign. |
| `Arith64.TruncUnique` | src/lib/arch64.c:191-230 | No other pair meets these conditions. |
| `Arith64.AbsvDi2` | src/lib/arch64.c:55-60 | The magnitude of every signed word as an unsigned word, -2^63 included. |
| `Arith64.DivDi3` | src/lib/arch64.c:191-196 | The truncated quotient if and only if the operands are not -2^63 and -1, where the result is -2^63. |
| `Arith64.ModDi3` | src/lib/arch64.c:224-230 | The truncated remainder, for all operands with b != 0. |
| `Arith64.UdivDi3` | src/lib/arch64.c:257-261 | The unsigned quotient. |
| `Arith64.UmodDi3` | src/lib/arch64.c:263-269 | The unsigned remainder. |
| `Arith64.AshlDi3` | src/lib/arch64.c:62-79 | Multiplication by 2^(b mod 64) modulo 2^64. |
| `Arith64.LshrDi3` | src/lib/arch64.c:205-222 | Floor division by 2^(b mod 64). |
| `Arith64.AshrDi3` | src/lib/arch64.c:81-98 | Floor division of the signed value by 2^(b mod 64). |
| `Arith64.LeftHalves` | src/lib/arch64.c:73-77 | The two-half left shift for counts below 32. |
| `Arith64.RightHalves` | src/lib/arch64.c:216-220 | The two-half right shift for counts below 32, signed or unsigned. |
| `Arith64.ShiftByHalf` | src/lib/arch64.c:69-72 | Counts from 32 up keep one half only. |
| `Strings.Memcpy` | src/lib/string.c:183-195 | The buffer after copying cell by cell, lowest first, overlap included. |
| `Strings.Memmove` | src/lib/string.c:197-200 | The same, and a true move when the destination does not start inside the source. |
| `Strings.CopyCell` | src/lib/string.c:183-195 | Where each cell of a forward copy comes from: a destination that starts d cells inside the source repeats its first d cells. |
| `Strings.ForwardMovesIff` | src/lib/string.c:197-200 | memmove moves every buffer correctly if and only if the destination does not start inside the source. |
| `Strings.Memset` | src/lib/string.c:159-181 | The bytes of the int in turn, exactly in the given range. |
| `Strings.MemsetIsC99Iff` | src/lib/string.c:159-181 | The fill is the low byte everywhere, as section 7.21.6.1 of C99 has it, if and only if the other bytes of the int that are reached equal it. |
| `Strings.MaskWord` | src/lib/string.c:170-178 | A region filled with the int c holds c itself in every aligned word. |
| `Strings.Strtol` | src/lib/string.c:116-156 | Blanks, sign, prefix and longest run of digits; the value modulo 2^32 as a signed long, and the end pointer. |
| `Strings.ReadDigits` | src/lib/string.c:137-151 | The digit loop stops at the first non-digit of the base with the wrapped value of what it passed. |
| `Strings.WrapHorner` | src/lib/string.c:150 | Wrapping at every step is wrapping once. |
| `ParseLaws.ParseForm` | src/lib/string.c:116-156 | Blanks and tabs, a sign, a prefix for the base and digits in either case are read as the number they denote modulo 2^32, up to the first character that is no digit of the base; 0x gives base 16, a leading 0 with base 0 gives 8. |
| `ParseLaws.DigitTable` | src/lib/string.c:140-147 | The value of every character as a digit, in numbers. |
| `Printf.Sink.Putch` | src/lib/printfmt.c:270-276 | One more int sent; the bounded sink keeps the low bytes of the first of them that fit and counts all. |
| `Printf.Sink.Sprintputch` | src/lib/printfmt.c:270-276 | Always counts, and stores exactly while there is room. |
| `Printf.StoredCodes` | src/lib/printfmt.c:270-276 | A text sent as ints and stored as chars is that text again, whether its bytes were read signed or unsigned. |
| `Printf.NumberLength` | src/lib/printfmt.c:36-51 | A printed number is as long as the larger of its width and its number of digits. |
| `Printf.PrintNum` | src/lib/printfmt.c:36-51 | The recursion puts the padding once, in front, then all digits. |
| `Printf.PutString` | src/lib/printfmt.c:175-196 | What the string case puts for every width, precision, padding and alternate flag. |
| `Printf.StringWidthIff` | src/lib/printfmt.c:179-195 | A string gets exactly its width if and only if there is a precision, or it is left-justified, or there is nothing to show. |
| `Printf.ReadNumber` | src/lib/printfmt.c:128-134 | The look-ahead digit loop reads the longest run of digits and stops right after it. |
| `Printf.ReadFlags` | src/lib/printfmt.c:105-157 | All flags of an escape: padding, width, precision, stars, alternate and long flags, ending at the first other character. |
| `Printf.Convert` | src/lib/printfmt.c:159-242 | What each conversion puts for its argument, as the ints that reach putch: the whole argument of %c, signed chars of strings. |
| `Printf.Rewind` | src/lib/printfmt.c:244-249 | The rewind after an unknown escape stops right after that escape's own percent sign. |
| `Printf.PutEscape` | src/lib/printfmt.c:99-250 | One escape moves past its percent sign, stays within the format, and puts what the rest of the format calls for. |
| `Printf.Vprintfmt` | src/lib/printfmt.c:83-252 | On every terminated format it ends within bounds, having put exactly the formatted text. |
| `Printf.Vsnprintf` | src/lib/printfmt.c:278-293 | As section 7.19.6.5 of C99: the first min(len, n-1) characters and a NUL are stored, nothing else changes, the full length is returned; without buffer or room, an error. |
| `FormatLaws.Sequence` | src/lib/printfmt.c:92-251 | Anywhere in a format a conversion puts what it puts alone, given the arguments from the next one on, and the format goes on after it with the argument after those it takes. |
| `FormatLaws.TwoConversions` | src/lib/printfmt.c:92-251 | In a format of two conversions the second takes the arguments that the first has left. |
| `FormatLaws.ReadConversion` | src/lib/printfmt.c:99-157 | A padding flag, #, a width, a point and a precision, each a number or a star, and any l are read as what they say. |
| `FormatLaws.SignedLaw` | src/lib/printfmt.c:198-206 | %d with every flag, width and precision, and l or ll: the sign, padding up to the width, and the digits of the argument. |
| `FormatLaws.UnsignedLaw` | src/lib/printfmt.c:208-237 | %u and %x likewise: padding up to the width and the digits of the argument as an unsigned word in base 10 or 16. |
| `FormatLaws.PointerLaw` | src/lib/printfmt.c:222-237 | %p: 0x, padding, and the low 32 bits in base 16. |
| `FormatLaws.CharacterLaw` | src/lib/printfmt.c:159-162 | %c puts the int itself; %% and %o take no argument. |
| `FormatLaws.StringLaw` | src/lib/printfmt.c:175-196 | %s: cut at the precision, made printable by #, padded after with the flag -, before otherwise; without a precision the padding is the whole width; a null pointer reads as (null). |
| `FormatLaws.ErrorLaw` | src/lib/printfmt.c:164-173 | %e: the message for each code of either sign, or the code itself. |
| `FormatLaws.UnsignedReadsBack` | src/lib/printfmt.c:208-237 | What %u and %x put, padded with blanks or zeros to any width, is read back by strtol as the argument modulo 2^32. |
| `FormatLaws.SignedReadsBackIff` | src/lib/printfmt.c:198-206 | What %d puts for an int is read back as that int if and only if no blanks come between its sign and its digits. |
| `FormatLaws.PointerReadsBackIff` | src/lib/printfmt.c:222-237 | What %p puts is read back with base 0 if and only if no blanks follow its prefix. |
| `FormatLaws.ZeroPrecision` | src/lib/printfmt.c:114-143 | %.0s shows the whole string: the 0 is read as the padding flag. |
| `FormatLaws.DigitsAreCharacters` | src/lib/printfmt.c:50 | Printed digits are lower case. |
| `FormatLaws.LeadingDigit` | src/lib/printfmt.c:40-50 | A number other than zero is printed without leading zeros. |
| `PrintParse.PlainFormat` | src/lib/printfmt.c:92-97 | A format without percent signs is its own output. |
| `PrintParse.BrokenEscape` | src/lib/printfmt.c:244-250 | An escape that is unknown or cut short by the terminator is reproduced literally. |
| `PrintParse.SingleConversion` | src/lib/printfmt.c:92-251 | A format with one conversion puts the text around it as it is. |
| `PrintParse.StringConversion` | src/lib/printfmt.c:175-196 | A plain %s puts the string itself. |
| `PrintParse.CodeConversion` | src/lib/printfmt.c:169-170 | The nested call for an unknown error code puts its text and the number. |
| `PrintParse.ErrorConversion` | src/lib/printfmt.c:164-173 | The nested printfmt calls for error codes put what the conversion is said to put. |
| `PrintParse.DigitsRound` | src/lib/printfmt.c:40-50 | The printed digits are digits of the base and denote the number. |
| `PrintParse.LeadingZeros` | src/lib/string.c:137-151 | Leading zeros do not change the value read. |
| `PrintParse.PrintParse` | src/lib/printfmt.c:36-51 | strtol reads every printed number back modulo 2^32, in every base from 2 to 16, with every width and blank or zero padding, and stops at the end; the number itself comes back if and only if it is at most 2^31-1. |
| `PrintParse.PrintParseNegativeIff` | src/lib/printfmt.c:198-206 | A negative number comes back if and only if no blanks separate its sign from its digits. |
| `PrintParse.LeftJustifiedParseIff` | src/lib/printfmt.c:108-111 | With the flag that should pad on the right, a number is padded with minus signs on the left, and comes back if and only if there is no padding, or one minus sign that does not change the value. |
| `PrintParse.PointerParseIff` | src/lib/printfmt.c:222-237 | A printed pointer read with base 0 comes back if and only if no blanks follow its prefix. |
| `Console.Console.CgaPutc` | src/kernel/console.c:104-150 | For every character and attribute: the 2000-cell buffer stays the window of the tape, the cursor stays below CRT_SIZE, and the tape changes as for that character, tabs recursing included. |
| `Console.Console.Scroll` | src/kernel/console.c:136-144 | Rows move up by one, the last row is blank, the cursor goes up a row. |
| `Console.Console.Tab` | src/kernel/console.c:123-129 | A tab is five spaces through the recursive call. |
| `Console.Console.NextRow` | src/kernel/console.c:118-122 | A newline goes down a row and falls through to the return to the first column, possibly onto the row below the screen. |
| `Console.Console.PutText` | src/kernel/printf.c:9-14 | A whole text, character by character, refines the tape. |
| `Console.AttributeBits` | src/kernel/console.c:106-114 | The masks give white on black to a character without attribute bits and keep the attribute of an erased cell. |
| `Console.FollowRow` | src/kernel/console.c:135-144 | When the cursor leaves the screen by a row, the window moved down by one row is the old one without its top row and with a blank row below. |
| `Console.BytesMove` | src/kernel/console.c:139 | Copying the cells byte by byte, as memmove does, is copying them cell by cell. |
| `Console.FeedExtends` | src/kernel/console.c:104-150 | Over every stream the cursor stays on the screen, the window never moves up, and rows that scrolled out are never touched again. |
| `Console.BlankBeyond` | src/kernel/console.c:135-144 | Over every stream the screen is blank beyond the highest cell the cursor reached. |
| `Console.TextLands` | src/kernel/console.c:130-144 | Text of any length lands in consecutive tape cells, across rows and scrolls, and nowhere else. |
| `Console.TabMoves` | src/kernel/console.c:123-129 | A tab moves the cursor by five cells and writes blanks into them and nothing else. |
| `Console.ReturnMoves` | src/kernel/console.c:118-122 | A carriage return goes to the first of the 80 columns of its row, a newline to that of the next; neither writes. |
| `Console.GlyphWrites` | src/kernel/console.c:106-132 | A character of text is written white on black, or with the attribute it carries, and the cursor moves on by one. |
| `Console.BackspaceWrites` | src/kernel/console.c:111-117 | A backspace writes a space with its own attribute over the cell before the cursor. |
| `Console.BackspaceLands` | src/kernel/console.c:111-117 | A backspace blanks the cell before the cursor and steps back, unless the cursor is at the top left of the screen, where it does nothing. |
| `Console.BackspaceErases` | src/kernel/console.c:104-150 | A character and a backspace, even across a scroll, restore the cursor and leave one blank cell. |
| `Readline.ReadLine` | src/lib/readline.c:6-36 | The result is the fold of the keys, the buffer holds the line and its NUL, and the console tape is that of the echo. |
| `Readline.WhatYouSee` | src/lib/readline.c:14-35 | Through every key sequence, from any line so far, the cells after the prompt are exactly the line with the cursor right after it, all on the screen, nothing before it changed; at the end of the line it still stands there and the cursor is on the next row; after an error the message follows the line as it stood. |
| `Readline.FromThePrompt` | src/lib/readline.c:11-35 | The same from the prompt on, on any screen, cursor included. |
| `Readline.PromptFormat` | src/lib/readline.c:11-12 | The prompt put through the format interpreter reaches the console as it is. |
| `Readline.EditShows` | src/lib/readline.c:21-28 | One key keeps the line and the screen equal, because the line is shorter than what a scroll leaves above the cursor. |
| `Readline.BackspaceUndoesIff` | src/lib/readline.c:21-28 | A backspace takes back the printable key before it if and only if that key was taken: there was room, and it was not DEL on a non-empty line; on an empty line DEL is inserted. |
| `Readline.PlainKeys` | src/lib/readline.c:25-28 | Without editing keys the line is what was typed, cut at BUFLEN - 1 characters. |
| `Readline.PlainThen` | src/lib/readline.c:25-28 | Plain keys are added as far as 1023 characters, and the keys after them read on. |
| `Readline.EnterEnds` | src/lib/readline.c:29-34 | A newline or a carriage return ends the line with what was typed, and nothing after it is read. |
| `Readline.ErrorEnds` | src/lib/readline.c:18-20 | An error of getchar ends it without a line. |
| `Readline.ControlKeys` | src/lib/readline.c:21-28 | Backspace and DEL erase the last character; on an empty line backspace does nothing and DEL is inserted; the other control keys change nothing. |
| `Readline.LineIsText` | src/lib/readline.c:21-34 | No control character enters the line, so its text is a C string of its whole length, always shorter than BUFLEN. |
| `Readline.ErrorFormat` | src/lib/readline.c:18-20 | The error message is what the format interpreter makes of its format. |

## Left out

- `check_kern_pgdir_installed` (`src/kernel/kmap.c:409-448`): it removes a statically mapped address and clears a directory slot without invalidating, so it leaves the invariants on purpose.
- KernelMemory.KernelMemory.FirstFreePage: the list must not be empty, since the source reads through its null head before it tests it; the halt behind that test cannot be reached.
- KernelMemory.KernelMemory.InsertPage: addresses in the self-map window are left out; there the call would install a page as a page table. A count is incremented without wrapping at 2^32, which exact counts never come near.
- PageLifecycle.RunIsSafe: runs insert pool pages other than page 0 at dynamic addresses and remove dynamic addresses; what the operations do elsewhere is stated for single calls in AddressSpace.InsertPageZero, AddressSpace.InsertStaticIff and AddressSpace.RemoveStaticIff.
- PageLifecycle.TaskOverRuns: the translation cache is that of the kernel's directory; switching to the directory of a task, and mapping pages in it, are not modelled.
- KernelMemory.KernelMemory.CheckKernPgdir: at most 2^19 pages; with more, boot_alloc has halted before (BootAlloc.BootLayout).
- KernelMemory.KernelMemory.InitializeMemory: the page counts of get_memory_size are parameters, and the three calls of boot_alloc come before the directory is cleared; CMOS reads, the control registers and all messages are left out, and so is the failure of `KADDR` beyond pages_count, which the invariants rule out. That 66 low pages are free, and that used_count does not exceed pages_count, is asked of the machine.
- Physical memory is an array of frames of 1024 words reached by frame number: that the kernel reaches it through its own mapping is not modelled, page-sized fills and copies go word by word (Strings.MaskWord relates the fill to bytes), and the page array, which itself lives in reserved physical memory, is kept in arrays of its own.
- Accessed and dirty bits, large pages, permission checks of the walk, and caches of directory entries alone are not modelled; a cached translation keeps the two entries that made it.
- BootAlloc.BootAllocator.Alloc: after a halt the pointer keeps its new value, as in the source; nothing runs afterwards.
- `__divmoddi4` with b = 0 raises the exception of the machine in the source; here b != 0 is required, and so is a non-zero argument of the zero counts, whose result the source leaves undefined.
- Printf.Vprintfmt: the variable arguments are a stream of 64-bit values with the string behind each pointer; widths and precisions are unbounded, and error code -2^31, whose negation overflows in the source, is taken as its magnitude.
- Strings.Memset and Strings.Memcpy: lengths are unbounded, where the source compares an int with a size.
- Console.Console.CgaPutc: the cursor registers, the serial and the parallel port, and the probing in init_cga are left out; the cursor must start on the screen.
- Readline.ReadLine: the keys that getchar will deliver are an argument, and running out of them is the outcome Waiting; the input ring and the keyboard tables are left out.
- `strcmp`, `strncmp`, `strcat`, `strncpy`, the count returned by cprintf, `pid_to_proc`, `init_procs`, the descriptor tables, the command shell, the boot loader and the rows of `entrypgdir.c`: shallow, finite or unfinished. That the entry directory maps the first 4MB is taken as a fact.
