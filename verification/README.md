# Verified model of the RV64 kernel's memory and task core

This project models, in Dafny, the parts of the kernel whose correctness cannot be read off one
function, and proves what they promise:

- **Physical pages and Sv39 page tables.** The bitmap allocator of `pmm.cpp` and the three-level
  tree of `page_table.cpp`, built in pages taken from that allocator and walked by physical address.
  The tree refines a plain partial map from 27-bit virtual page numbers to entries, for any number of
  address spaces at once. Over every run, every page taken holds a linked table (page 0, taken for null,
  is the exception, and `unmap_page` gives no table back), tables never overlap, and software and
  hardware translate alike whenever the arguments are legal. The hardware is the walk of section 4.3.2
  of the RISC-V Privileged Architecture (version 20211203).
- **The boot address space.** `kernel_address_space.cpp` on top of both, down to what the hardware
  translates once `satp` is written.
- **The cooperative scheduler.** `task_manager.cpp`, `run_queue.cpp`, `scheduler.cpp`, `sys_exit.cpp`
  and `switch.S` as one state machine, with objects updated in place refining it over every run.
- **The structures below.** The intrusive list, the queue and the word-at-a-time bitmap.

## Files

| file | content |
|---|---|
| `word64.dfy` | 64-bit words: bitwise operators on numbers, proved bit by bit |
| `page.dfy`, `sv39.dfy` | `page.h` and `sv39.h`: masks and shifts with their arithmetic meaning |
| `bit_words.dfy`, `bitmap.dfy` | bits of an array of words; `bitmap.cpp` |
| `pmm.dfy`, `pmm_properties.dfy` | `pmm.cpp`; runs, counter, initialisation |
| `page_supply.dfy` | how many of the next allocations return a page |
| `page_tree.dfy`, `page_range.dfy` | tables in memory as values; ranges of pages |
| `page_table.dfy`, `page_table_runs.dfy` | `page_table.cpp`; every run of it |
| `sv39_walk.dfy`, `hardware_runs.dfy` | the architectural walk and `make_satp`; runs with legal arguments |
| `kernel_address_space.dfy` | `kernel_address_space.cpp` and the boot configuration |
| `list.dfy` | `list.cpp`, `queue.cpp` |
| `scheduling.dfy`, `scheduling_properties.dfy` | the scheduler as a state machine; its runs |
| `kernel.dfy`, `kernel_runs.dfy` | the same steps on task, queue and register objects; every run on them |
| `counterexamples.dfy` | inputs at which the code does not do what is expected of it |

## How words and memory are modelled

A `uint64_t` is the number it stands for. `&`, `|`, `~`, `<<` and `>>` are defined on numbers and the
lemmas of `Word64` fix every bit of their results; additions that can leave 64 bits are wrapped
explicitly. Memory that can hold page tables is a map from page addresses to 512 entries with
arbitrary stale contents. The ghost field `shape` of `AddressSpaces` records which page holds which
table; a page just returned by `alloc_page_table`, or any other zeroed table that the allocator will not
hand out (`AdoptTable`), is the root of an empty address space until `map_page` links it below an entry.

## Where the code differs from its tests and comments

The lemmas and methods of `counterexamples.dfy` give a failing input for each of these.

- **`kernel/mm/pmm.cpp:46`** passes the word number, not the page number, to `bit_mask`. The code is
  modelled as it is (`FreeMask.ByWord`) and also as lines 30 and 35 and the unit tests expect it
  (`FreeMask.ByIndex`); every allocator theorem covers both. As written, initialisation frees one page
  of every group of 64 (`FreeCountByWord`), the unit-test configuration ends with no free page instead
  of 14 (`UnitTestConfiguration`), the documented outcome of `pmm_init` holds exactly when every
  untouched page has the place that line 46 clears and no wrapped range leaves a page out
  (`InitAsDocumented`), and `free_pages()` counts one page too many exactly for the totals named by
  `CountsPastEnd` (`CounterExact`). Callers that free only what they hold are not affected
  (`RunConserves`), and boot still works (`KernelImageLeavesEnough`).
- **Null for page 0.** A pool based at address 0 can hand out page 0, which callers take for a null
  pointer. `map_page` then fails and the page is lost; `ReturnsNull`, `Grants` and `Paid` account for it.
- **Flags.** `map_page` takes any flags. Without R, W or X the page is mapped but reads as unmapped
  and cannot be unmapped; flags above bit 9 can change the address. The contracts keep the installed
  entry, and `DecodeMadePte` and `MapThenTranslate` give the exact conditions.
- **Managed ranges that wrap.** `pmm_init` rounds `base` and adds `base + size` in 64 bits: an empty range
  at the top of the address space manages 32768 pages from address 0 on, and a range that ends there
  manages none (`WrappedManagedRanges`). `ManagedExactly` gives the exact condition.
- **Device regions.** `map_device_region` rounds base and size independently, so the last bytes of a region
  that straddles a page boundary can stay unmapped; `RegionCoveredExactly` gives the exact condition,
  `RegionNotCovered` a region that fails it. The boot devices meet it.
- **Wrap-around.** `map_range` with `va + size` past the end of the address space visits no page and
  reports success (`PageCountExact`); `reserve_range` then leaves pages out exactly as `ReservedExactly`
  says, and for lists of ranges `ReservedListExactly`.
- **Translation of page 0 and of W without R.** `virt_to_phys` reports physical address 0 as unmapped
  and accepts entries the hardware rejects; `SoftwareAgreesExactly` gives the exact condition,
  and `LegalRun` shows that it is met after every run with legal flags and addresses in (0, 2^56).
- **Reschedule before start** loses the head of the queue (`RescheduleLosesExactly`). With an empty
  queue a yielding task is queued and idle runs; idle is never marked Ready again. No theorem claims
  that idle runs only when nothing is ready.

## Model

| member | source | states |
|---|---|---|
| Word64.AndBit | kernel/mm/page.h:12-14 | `&` as used by the masks is the bitwise operator: every bit of the result is the conjunction of the operands' bits |
| Word64.OrBit | kernel/arch/riscv/mm/sv39.h:35-37 | `\|` is bitwise |
| Word64.NotBit | kernel/mm/page.h:16-18 | `~` complements each of the 64 bits |
| Word64.ShlBit | kernel/arch/riscv/mm/sv39.h:40-42 | `<<` moves bits up and drops those past bit 63 |
| Word64.ShrBit | kernel/arch/riscv/mm/sv39.h:30-32 | `>>` moves bits down |
| Word64.SameBits | kernel/mm/page.h:12-22 | words with equal bits are equal, so the bit lemmas determine every operator |
| Word64.TestBit | kernel/mm/pmm.cpp:29-31 | masking with `1 << k` reads bit k |
| Page.IsPageAligned | kernel/mm/page.h:12-14 | true exactly for multiples of 4096 |
| Page.AlignDown | kernel/mm/page.h:16-18 | the greatest page base not above the address |
| Page.AlignUp | kernel/mm/page.h:20-22 | the least page base not below the address, or 0 when that would be 2^64 |
| Page.PageOffset | kernel/mm/page.h:36-38 | the address modulo 4096 |
| Page.BytesToPages | kernel/mm/page.h:32-34 | the least number of pages that hold the bytes, or 0 when rounding leaves 64 bits |
| Sv39.VpnIndex | kernel/arch/riscv/mm/sv39.h:30-32 | the index is below 512 and is the level's digit of the 27-bit virtual page number, so bits 39 and up are ignored |
| Sv39.DigitsFixVpn | kernel/arch/riscv/mm/sv39.h:30-32 | the three indices of a walk name one virtual page |
| Sv39.MakePteBit | kernel/arch/riscv/mm/sv39.h:35-37 | every bit of an entry: the flags as given, and the page address shifted down by two |
| Sv39.PteToPaBit | kernel/arch/riscv/mm/sv39.h:40-42 | every bit of a decoded address |
| Sv39.EntryInNumbers | kernel/arch/riscv/mm/sv39.h:35-42 | the entry for physical page v with flags below bit 10 is 1024 v plus the flags |
| Sv39.DecodeMadePte | kernel/arch/riscv/mm/sv39.h:35-42 | an entry decodes to the address it was made from exactly when that is a page base and no flag above bit 9 lands on a clear address bit, for all 64-bit addresses and flags |
| Sv39.MadePteFlags | kernel/arch/riscv/mm/sv39.h:35-52 | an entry is valid, or a leaf, exactly when its flags are |
| Sv39.PointerPte | kernel/arch/riscv/mm/page_table.cpp:63-69 | the entry for a new table is valid, never a leaf, and points to the table |
| BitWords.SetBitEffect | kernel/mm/pmm.cpp:33-42 | setting a bit removes exactly its position from the clear ones |
| BitWords.ClearBitEffect | kernel/lib/ds/bitmap.cpp:59-67 | clearing a bit adds exactly its position |
| Bitmaps.FirstSetBitOffset | kernel/lib/ds/bitmap.cpp:22-31 | the least set bit of the word, or 64 when there is none |
| Bitmaps.TailMask | kernel/lib/ds/bitmap.cpp:86-91 | masked tail bits read as set whatever they hold, the others are unchanged |
| Bitmaps.Bitmap.ClearAll | kernel/lib/ds/bitmap.cpp:41-46 | every bit in range is clear; whole words are cleared and no other word changes |
| Bitmaps.Bitmap.Set | kernel/lib/ds/bitmap.cpp:48-57 | sets exactly the bit, and nothing when it is out of range |
| Bitmaps.Bitmap.Clear | kernel/lib/ds/bitmap.cpp:59-67 | clears exactly the bit, and nothing when it is out of range |
| Bitmaps.Bitmap.Test | kernel/lib/ds/bitmap.cpp:69-77 | true exactly for a set bit in range |
| Bitmaps.Bitmap.FindFirstZero | kernel/lib/ds/bitmap.cpp:79-111 | the least clear bit below the bit count, or -1 exactly when all are set, for any tail bits; the two fallback guards never fire |
| PmmProperties.ScansAgree | kernel/mm/pmm.cpp:102-110 | alloc_page's scan and find_first_zero select the same index on the same words |
| Pmm.PageAllocator.constructor | kernel/mm/pmm.cpp:12-15 | before initialisation no page is managed |
| Pmm.PageAllocator.UsedIndex | kernel/mm/pmm.cpp:29-31 | true exactly when the page is not marked free |
| Pmm.PageAllocator.MarkUsedIndex | kernel/mm/pmm.cpp:33-42 | removes exactly the page from the free ones and keeps the counter equal to their number, so the guard on the decrement hides no miscount |
| Pmm.PageAllocator.MarkFreeIndex | kernel/mm/pmm.cpp:44-51 | adds exactly the page whose bit line 46 picks and keeps the counter exact |
| Pmm.PageAllocator.ReserveRange | kernel/mm/pmm.cpp:53-72 | removes exactly the managed pages between the rounded bounds, wrap-around included |
| Pmm.PageAllocator.PmmInit | kernel/mm/pmm.cpp:75-100 | for any ranges, the exact set of free pages and a counter equal to its size; when neither end of the managed range leaves 64 bits, the managed pages are the whole pages of the range, at most 32768 |
| Pmm.ManagedExactly | kernel/mm/pmm.cpp:76-91 | the number of managed pages is that of the whole pages of the range, at most 32768, if and only if neither end leaves 64 bits or both do; the base is the first whole page if and only if rounding it stays within 64 bits |
| Pmm.PageAllocator.AllocPage | kernel/mm/pmm.cpp:102-110 | takes the lowest managed free page and only it; null and no change when there is none |
| Pmm.PageAllocator.FreePage | kernel/mm/pmm.cpp:112-125 | succeeds exactly for a managed, aligned page marked used; a rejected call changes nothing |
| Pmm.PageAllocator.IsManagedPage | kernel/mm/pmm.cpp:143-151 | true exactly for the addresses base + 4096 i with i below the total |
| Pmm.PageAllocator.IsPageFree | kernel/mm/pmm.cpp:153-158 | true exactly for a managed page marked free |
| PmmProperties.CounterExact | kernel/mm/pmm.cpp:131-133 | in every state after initialisation free_pages() is the number of allocatable pages, plus one exactly when the last word's released page lies past the end |
| PmmProperties.ExhaustedExactly | kernel/mm/pmm.cpp:102-110 | alloc_page finds nothing exactly when free_pages() is 0, or 1 in that case |
| PmmProperties.ServeCall | kernel/mm/pmm.cpp:102-125 | each allocator call changes pool and holders as the run machine does, and freeing a held page succeeds |
| PmmProperties.RunConserves | kernel/mm/pmm.cpp:102-125 | over every run in which callers free what they hold, held and free pages are disjoint and together are the initially free pages |
| PmmProperties.ReservedNeverHeld | kernel/mm/pmm.cpp:97-110 | over every such run no page that a reserved range touches is held, and the next page is neither touched nor held, provided no range's rounded end leaves 64 bits |
| PmmProperties.FreedExactly | kernel/mm/pmm.cpp:112-125 | a freed page becomes free exactly when line 46 picks its own bit |
| PmmProperties.ReservedExactly | kernel/mm/pmm.cpp:53-72 | reserve_range covers exactly the touched pages if and only if rounding up stays within 64 bits or no managed page lies where the wrapped end leaves pages out |
| PmmProperties.TouchedIs | kernel/mm/pmm.cpp:53-72 | a page is touched by a range exactly when it is reserved, or left out because the rounded end wrapped |
| PmmProperties.ReservedListExactly | kernel/mm/pmm.cpp:97-99 | for a list in any order and with any overlaps, the reserved pages are the touched ones if and only if every page that one range leaves out is reserved by another |
| PmmProperties.FreeAfterInit | kernel/mm/pmm.cpp:93-99 | after initialisation a managed page is free exactly when line 46 picks its own bit and it is not reserved |
| PmmProperties.UsedExactly | kernel/mm/pmm.cpp:93-99 | with the expected mask and no wrapping range, a managed page is used exactly when some reserved range touches it |
| PmmProperties.InitAsDocumented | tests/mm/pmm_unit_tests.cpp:30-36 | "free exactly when no reserved range touches it" holds if and only if every untouched page has the place that line 46 clears and every such page that one range leaves out is reserved by another |
| PmmProperties.FreeCountByIndex | tests/mm/pmm_unit_tests.cpp:26-36 | with the expected mask, free_pages() is the total minus the size of the union of the touched page sets, if and only if no page is left out |
| PmmProperties.FreeCountByWord | kernel/mm/pmm.cpp:44-51 | as written, initialisation frees one page per started group of 64 |
| PmmProperties.UnitTestConfiguration | tests/mm/pmm_unit_tests.cpp:14-36 | the unit-test configuration has 0 free pages as written and 14 with the expected mask |
| PageSupply.TakenIs | kernel/mm/pmm.cpp:102-110 | one allocation removes the lowest allocatable page; its caller sees null exactly when none is left or page 0 is taken |
| PageSupply.TakenManyIs | kernel/mm/pmm.cpp:102-110 | k allocations take k pages, or all when there are fewer |
| PageSupply.GrantsStep | kernel/arch/riscv/mm/page_table.cpp:28-36 | k + 1 allocations all succeed exactly when the first does and k do after it |
| PageTree.StepDown | kernel/arch/riscv/mm/page_table.cpp:52-73 | in a tree an upper entry is zero or a pointer to the next table and never a leaf, so the huge-page branch is never taken |
| PageTree.WalkIsLookup | kernel/arch/riscv/mm/page_table.cpp:114-139 | the walk through memory computes the lookup in the abstract map plus the page offset, for every address |
| PageTree.AddRoot | kernel/arch/riscv/mm/page_table.cpp:28-36 | a zeroed page that holds no table keeps the tables a tree as an empty root |
| PageTree.AddRootView | kernel/arch/riscv/mm/page_table.cpp:28-36 | and changes no translation |
| PageTree.LinkTable | kernel/arch/riscv/mm/page_table.cpp:56-65 | writing the pointer to a new table keeps one path to every table |
| PageTree.LinkView | kernel/arch/riscv/mm/page_table.cpp:56-65 | and changes no translation in any address space |
| PageTree.SetLeaf | kernel/arch/riscv/mm/page_table.cpp:83-85 | writing a level-0 entry keeps the tree |
| PageTree.SetLeafView | kernel/arch/riscv/mm/page_table.cpp:83-85 | and changes the translation of that page in that address space only |
| PageTables.AddressSpaces.constructor | kernel/arch/riscv/mm/page_table.h:7-9 | the state before the first call: any memory that contains the managed pages, no tables |
| PageTables.AddressSpaces.ZeroPage | kernel/arch/riscv/mm/page_table.cpp:14-19 | all 512 entries are zero whatever the page held, no other page changes |
| PageTables.AddressSpaces.AllocPageTable | kernel/arch/riscv/mm/page_table.cpp:28-36 | a new empty table in a page that holds no other table, or null with no change to memory; no other page changes |
| PageTables.AddressSpaces.AdoptTable | tests/mm/page_table_unit_tests.cpp:36-37 | a zeroed table that holds no other table and that the allocator will not hand out, such as a test's own root, becomes the root of an empty address space |
| PageTables.AddressSpaces.InstallTable | kernel/arch/riscv/mm/page_table.cpp:57-65 | links a new table below a missing entry without changing any translation or other memory; fails exactly when the allocator gives no page |
| PageTables.AddressSpaces.MapPage | kernel/arch/riscv/mm/page_table.cpp:39-86 | succeeds exactly when root, alignment, unmapped page and available tables allow it and adds exactly one key; failure changes no translation. A rejected call changes nothing; any other takes the missing tables' number of pages, or all there are, and builds a table in each, also when it fails (with page 0 free, it takes that page and builds nothing); memory other than tables is kept |
| PageTables.AddressSpaces.MapRange | kernel/arch/riscv/mm/page_table.cpp:89-111 | maps exactly the longest mappable prefix, succeeds exactly when that is the whole range and the tables needed are available, never builds a table off the range, and takes exactly the pages for the tables of the pages it came to, the failing one included; memory other than tables is kept |
| PageTables.AddressSpaces.VirtToPhys | kernel/arch/riscv/mm/page_table.cpp:114-139 | returns the lookup in the abstract map |
| PageTables.AddressSpaces.UnmapPage | kernel/arch/riscv/mm/page_table.cpp:142-167 | succeeds exactly for a page mapped by a leaf and removes exactly one key; no memory but tables changes, and none when it fails |
| PageTables.MapThenTranslate | kernel/arch/riscv/mm/page_table.cpp:83-85 | a mapped page translates to the given address exactly under the stated condition on the flags |
| PageTables.TableTaken | kernel/arch/riscv/mm/page_table.cpp:52-65 | each table built uses up exactly one page and one of the missing tables |
| PageTables.BuiltUntil | kernel/arch/riscv/mm/page_table.cpp:57-61 | when the allocator gives no page, the call has taken every page that was left and built a table in each; with page 0 free it has taken page 0 and built none |
| PageTables.TookAfter | kernel/arch/riscv/mm/page_table.cpp:102-108 | what successive calls take adds up |
| PageRange.PageCountExact | kernel/arch/riscv/mm/page_table.cpp:99-104 | map_range visits ceil(size / 4096) pages if and only if the rounded end stays within 64 bits, and none otherwise |
| PageRange.ExtendAt | kernel/arch/riscv/mm/page_table.cpp:102-108 | mapping pages one by one adds exactly the visited page numbers and keeps the entries of all others |
| PageRange.ExtendMaps | kernel/arch/riscv/mm/page_table.cpp:102-108 | the i-th page maps to the i-th physical page |
| PageRange.NthVpnDistinct | kernel/arch/riscv/mm/page_table.cpp:102-104 | up to 2^27 consecutive pages are distinct, then they repeat |
| PageRange.NextPage | kernel/arch/riscv/mm/page_table.cpp:102-108 | after k pages the next map_page succeeds exactly when k + 1 pages were mappable from the start |
| PageRange.MappablePrefix | kernel/arch/riscv/mm/page_table.cpp:102-108 | every prefix of a mappable range is mappable |
| PageRange.NeededBound | kernel/arch/riscv/mm/page_table.cpp:89-111 | a range inside one 39-bit space needs at most one table per 1 GiB and per 2 MiB region it reaches |
| PageRange.TablesBuilt | kernel/arch/riscv/mm/page_table.cpp:89-111 | no call builds more tables than that, whether it succeeds or fails |
| PageTables.PagesTaken | kernel/arch/riscv/mm/page_table.cpp:89-111 | a call takes from the allocator one page for each table it builds, so at most one for each region it reaches, when page 0 is not free |
| PageRange.EnoughPages | kernel/arch/riscv/mm/page_table.cpp:89-111 | that many free pages suffice to map an unmapped range |
| PageTableRuns.Issue | kernel/arch/riscv/mm/page_table.cpp:28-167 | one call changes the plain maps in exactly the way its outcome says, in the address space it names, moves no table and changes no memory but tables |
| PageTableRuns.EveryRun | kernel/arch/riscv/mm/page_table.cpp:28-167 | over every run the tables form a tree, the plain maps follow the outcomes call by call, every page taken holds a table that is still there, and no memory but tables changes |
| Sv39Walk.SatpSelectsRoot | kernel/arch/riscv/mm/mmu.cpp:8-11 | for a root below 2^56 every bit of the register value: mode 8, address space identifier 0, and the page number of the root, which reads back as the root |
| Sv39Walk.MakeSatpBit | kernel/arch/riscv/mm/mmu.cpp:8-11 | every bit of the register value, for any root |
| Sv39Walk.HardwareStep | kernel/arch/riscv/mm/page_table.cpp:121-136 | the hardware follows the same upper entries as the tree |
| Sv39Walk.WalkIsHardwareLookup | kernel/arch/riscv/mm/page_table.cpp:114-139 | the architectural walk computes a lookup in the same abstract map, with the hardware's own acceptance of leaves |
| Sv39Walk.SoftwareAgreesExactly | kernel/arch/riscv/mm/page_table.cpp:114-139 | for every canonical address virt_to_phys and the hardware agree if and only if the stated condition on the page's entry holds |
| Sv39Walk.LegalFlagsAccepted | kernel/arch/riscv/mm/page_table.cpp:83-85 | with legal flags and an address below 2^56 the hardware accepts the entry and finds the address |
| Sv39Walk.HardwareMapAgrees | kernel/arch/riscv/mm/page_table.cpp:114-139 | an address space whose entries the hardware accepts is translated alike by virt_to_phys and the hardware at every canonical address |
| HardwareRuns.EffectLegal | kernel/arch/riscv/mm/page_table.cpp:28-167 | a call with legal flags and physical pages in (0, 2^56) keeps every entry of every address space acceptable to the hardware |
| HardwareRuns.TraceLegal | kernel/arch/riscv/mm/page_table.cpp:28-167 | so does every run of such calls, at every moment |
| HardwareRuns.LegalRun | kernel/arch/riscv/mm/page_table.cpp:28-167 | after every run of such calls, from any state whose entries and tables are legal, such as one without tables, virt_to_phys and the hardware agree at every canonical address of every address space |
| KernelAddressSpaces.KernelAddressSpace.MapDeviceRegion | kernel/mm/kernel_address_space.cpp:14-25 | maps from the rounded-down base for the rounded-up size; below 2^39 the mapped pages get the entries 1024 v + 0xC7, flags V, R, W, A and D, and no other page changes; a successful call makes exactly these bytes translate to themselves |
| KernelAddressSpaces.RegionCoveredExactly | kernel/mm/kernel_address_space.cpp:19-24 | every byte of the region asked for is among them if and only if base modulo 4096 plus the size is at most the rounded size |
| KernelAddressSpaces.KernelAddressSpace.Init | kernel/mm/kernel_address_space.cpp:29-56 | for any number of free pages, exactly which pages of the three regions the boot address space holds, all of them exactly with 69, and their entries in numbers, 1024 v + 0xCF for DRAM and 1024 v + 0xC7 for devices; how many pages are left; other address spaces and memory are kept. With 69 pages the hardware walk from the kernel's satp value finds exactly the boot pages below 2^38 |
| KernelAddressSpaces.Stage | kernel/mm/kernel_address_space.cpp:38-55 | a region that misses n tables is mapped completely exactly when n pages are left; otherwise it leaves no page and maps the pages whose tables were there |
| KernelAddressSpaces.DramPath | platform/qemu/memmap.h:16 | the first k pages of DRAM need one table and one more per started 512 pages, 65 in all |
| KernelAddressSpaces.DevicePaths | platform/qemu/memmap.h:18-20 | the UART needs two tables, the CLINT two of which one is shared |
| KernelAddressSpaces.DramStage | kernel/mm/kernel_address_space.cpp:38-43 | with a pages left, 512 (a - 1) pages of DRAM are mapped, at most all, and 65 pages are taken, or all |
| KernelAddressSpaces.BootStages | kernel/mm/kernel_address_space.cpp:38-55 | by the number of pages left after the root, exactly which pages of the three regions are mapped and how many pages remain; everything exactly with 68 |
| KernelAddressSpaces.IdentityRange | kernel/mm/kernel_address_space.cpp:38-55 | an identity range makes its addresses translate to themselves and changes no other |
| KernelAddressSpaces.IdentityAt | kernel/mm/kernel_address_space.cpp:38-55 | an identity range gives each of its pages the entry of its own page with the given flags and changes no other |
| KernelAddressSpaces.BootEntries | kernel/mm/kernel_address_space.cpp:38-55 | the boot entries in numbers: which pages have one, that it leads to the page itself, and that its flags are V, R, W, X, A, D for DRAM and V, R, W, A, D for devices |
| KernelAddressSpaces.BootTranslation | kernel/mm/kernel_address_space.cpp:29-56 | below 2^39 the boot address space translates the three regions to themselves and nothing else, exactly when all their pages were mapped |
| KernelAddressSpaces.BootHardware | kernel/arch/riscv/mm/mmu.cpp:8-17 | with the kernel's satp value the hardware translates the boot regions to themselves and faults everywhere else below 2^38 |
| KernelAddressSpaces.KernelImageLeavesEnough | kernel/mm/pmm_platform.cpp:8-22 | after pmm_init as written, with any kernel image of at most 110 MiB in DRAM, enough pages are left for boot |
| Lists.List.Init | kernel/lib/ds/list.cpp:5-9 | the empty sequence |
| Lists.List.IsEmpty | kernel/lib/ds/list.cpp:11-17 | true exactly for the empty sequence |
| Lists.List.PushFront | kernel/lib/ds/list.cpp:19-28 | prepends; writes only the node, the sentinel and the old front; null changes nothing |
| Lists.List.PushBack | kernel/lib/ds/list.cpp:30-38 | appends; writes only the node, the sentinel and the old back |
| Lists.List.PopFront | kernel/lib/ds/list.cpp:40-45 | removes and returns the first member, or null; the popped node keeps its links |
| Lists.List.PopBack | kernel/lib/ds/list.cpp:47-52 | removes and returns the last member, or null; the popped node keeps its links |
| Lists.List.Remove | kernel/lib/ds/list.cpp:54-57 | removes any member, writing only its two neighbours |
| Lists.List.Forward | kernel/lib/ds/list.h:13-26 | k + 1 steps along next lead to member k |
| Lists.List.Backward | kernel/lib/ds/list.h:13-26 | k + 1 steps along prev lead to member k from the back |
| Lists.List.BackwardReversesForward | kernel/lib/ds/list.cpp:19-57 | the backward walk is the reverse of the forward walk and both return to the sentinel |
| Lists.Queue.Push | kernel/lib/ds/queue.cpp:13-15 | appends |
| Lists.Queue.Pop | kernel/lib/ds/queue.cpp:17-20 | first in, first out; null when empty; the popped node keeps its links |
| TaskSystem.Hart.Store | kernel/arch/riscv/task/switch.S:26-39 | each of the fourteen registers is stored in the place of its name |
| TaskSystem.Hart.Load | kernel/arch/riscv/task/switch.S:41-54 | each of the fourteen registers is loaded from the place of its name |
| TaskSystem.ContextSwitch | kernel/arch/riscv/task/switch.S:20-56 | register by register, the first context gets the registers and the registers get the second context; switching a task to itself leaves the registers as they are |
| TaskSystem.Kernel.constructor | kernel/core/task/task_manager.cpp:11-14 | 32 distinct slots and run nodes, an empty queue, no current task |
| TaskSystem.Kernel.Push | kernel/core/sched/run_queue.cpp:10-16 | marks the task Ready and appends it; false for null |
| TaskSystem.Kernel.Next | kernel/core/sched/run_queue.cpp:28-36 | removes the head and returns the task it is part of |
| TaskSystem.Kernel.Reschedule | kernel/core/sched/scheduler.cpp:39-61 | the objects take exactly the machine's reschedule step |
| TaskSystem.Kernel.Yield | kernel/core/sched/scheduler.cpp:30-33 | a yield is a reschedule |
| TaskSystem.Kernel.Start | kernel/core/sched/scheduler.cpp:14-28 | the objects take exactly the machine's start step |
| TaskSystem.Kernel.SysExit | kernel/arch/riscv/syscall/sys_exit.cpp:17-22 | the objects take exactly the machine's exit step |
| TaskSystem.Kernel.InitScheduler | kernel/core/sched/run_queue.cpp:5-8 | empties the queue and forgets the current task |
| TaskSystem.Kernel.InitTasks | kernel/core/task/task_manager.cpp:26-38 | the objects take exactly the machine's initialisation |
| TaskSystem.Kernel.CreateKernelTask | kernel/core/task/task_manager.cpp:40-90 | null exactly without a stack or an Empty task; otherwise the first Empty task, with the next id, Ready, its entry and stack, cleared links, ra at the trampoline, sp at the stack's end rounded down to 16, and every other register 0 |
| TaskSystem.Kernel.EmptyTask | kernel/core/task/task_manager.cpp:47-54 | the search returns the task of the first Empty slot, or null when there is none |
| Scheduling.FirstEmpty | kernel/core/task/task_manager.cpp:47-54 | the first Empty slot, or 32 when there is none |
| SchedulingProperties.BootInv | kernel/core/task/task_manager.cpp:26-38 | the invariant holds after boot |
| SchedulingProperties.BootIs | kernel/core/task/task_manager.cpp:26-38 | boot clears every slot and makes the idle task the first, field by field; without a stack there is no idle task |
| SchedulingProperties.CreatedTask | kernel/core/task/task_manager.cpp:40-90 | a creation gives the first Empty slot its fields and registers one by one and changes nothing else; without a stack or an Empty slot it changes nothing |
| SchedulingProperties.PushAdds | kernel/core/sched/run_queue.cpp:10-16 | a push marks the task Ready, puts it last in the queue and changes nothing else |
| SchedulingProperties.CreatedCount | kernel/core/task/task_manager.cpp:47-58 | over every run the number of tasks is that of the creations with a stack, up to 32 |
| SchedulingProperties.ThirtyOneTasks | kernel/core/task/task_manager.cpp:10-58 | after boot a creation with a stack succeeds exactly when fewer than 31 did before |
| SchedulingProperties.AfterDispatch | kernel/core/sched/scheduler.cpp:39-61 | a dispatch keeps queue, task states, saved contexts and task table consistent |
| SchedulingProperties.StepInv | kernel/core/sched/scheduler.cpp:14-61 | every allowed step keeps the invariant |
| SchedulingProperties.RunInv | kernel/core/sched/scheduler.cpp:14-61 | the invariant holds in every reachable state: no duplicates in the queue, only Ready non-idle tasks there, a non-idle task Running exactly when current |
| SchedulingProperties.StepKeeps | kernel/core/task/task_manager.cpp:47-64 | one step keeps occupied slots, ids, entries, stacks, deaths and the registers of tasks that do not run |
| SchedulingProperties.RunKeeps | kernel/core/task/task_manager.cpp:47-64 | over every run Dead is absorbing, slots never return to Empty, and ids, entries and stacks never change |
| SchedulingProperties.TaskPlaces | kernel/core/sched/scheduler.cpp:39-61 | ids are distinct, and every pushed task is in exactly one of queue, processor and Dead |
| SchedulingProperties.ExitEnds | kernel/arch/riscv/syscall/sys_exit.cpp:17-22 | a task other than idle that exits is Dead, not queued and not current |
| SchedulingProperties.QueueAdvances | kernel/core/sched/scheduler.cpp:39-61 | a reschedule advances every waiting task by one place, other steps by none |
| SchedulingProperties.StillWaiting | kernel/core/sched/scheduler.cpp:39-61 | a task at position i is not dispatched by the first i reschedules |
| SchedulingProperties.BoundedWaiting | kernel/core/sched/scheduler.cpp:39-61 | and becomes current at exactly the (i + 1)-th, whatever mix of yields and exits |
| SchedulingProperties.YieldsRotate | kernel/core/sched/scheduler.cpp:39-61 | k yields rotate the current task and the queue by k places |
| SchedulingProperties.StepResumes | kernel/arch/riscv/task/switch.S:41-56 | a step that dispatches a waiting task gives it its own registers |
| SchedulingProperties.ResumesWithOwnRegisters | kernel/arch/riscv/task/switch.S:20-56 | across any run of other tasks a task resumes with the registers it last had, or was created with |
| SchedulingProperties.YieldPreservesRegisters | kernel/arch/riscv/task/switch.S:20-56 | a task that yields and is resumed later continues with the same registers |
| SchedulingProperties.RescheduleLosesExactly | kernel/core/sched/scheduler.cpp:41-50 | a reschedule keeps every waiting task if and only if there is a current task or nothing waits |
| KernelRuns.InvRequeuable | kernel/core/sched/scheduler.cpp:52-55 | in every reachable state the task that reschedule pushes is not in the queue |
| KernelRuns.InvSlotFree | kernel/core/task/task_manager.cpp:47-64 | in every reachable state the slot that the next task gets is not in the queue |
| KernelRuns.TakeStep | kernel/core/sched/scheduler.cpp:14-61 | the objects perform any step of a run exactly as the machine does; no method's demand on its caller fails |
| KernelRuns.Boot | kernel/core/task/task_manager.cpp:26-38 | both initialisations leave the objects in the machine's boot state: queue empty, no current task, the first task idle with its fields and registers as given, and the others Empty and cleared |
| KernelRuns.EveryRun | kernel/core/sched/scheduler.cpp:14-61 | from boot on the objects end every run in the state of the machine, with its invariant, so every theorem about runs holds of them |
| SchedulingProperties.InitialStackInside | kernel/core/task/task_manager.cpp:71-74 | the stack pointer of a created task is 16-byte aligned, and inside its stack exactly under the stated condition, which stacks of at least 16 bytes without wrap meet |
| Counterexamples.WrappedManagedRanges | kernel/mm/pmm.cpp:76-91 | an empty range manages 32768 pages; the last 16 pages of the address space are not managed |
| Counterexamples.CountedPastEnd | kernel/mm/pmm.cpp:44-51 | with 65 managed pages free_pages() is 2 and one page can be allocated; it is 1 when none is left |
| Counterexamples.FreedButUsed | kernel/mm/pmm.cpp:112-125 | freeing page 1 of a fresh pool leaves it marked used |
| Counterexamples.WrappedReserve | kernel/mm/pmm.cpp:53-72 | a range that ends at 2^64 touches a managed page and reserves none |
| Counterexamples.PageZeroIsNull | kernel/mm/pmm.cpp:102-110 | the only page of a pool based at 0 is free and looks like null |
| Counterexamples.LastPageNotVisited | kernel/arch/riscv/mm/page_table.cpp:99-104 | mapping the last page of the address space visits no page |
| Counterexamples.MappedWithoutPermission | kernel/arch/riscv/mm/page_table.cpp:83-85 | a page mapped without R, W and X reads as unmapped and is no leaf |
| Counterexamples.MappedElsewhere | kernel/arch/riscv/mm/page_table.cpp:83-85 | flag bit 10 changes the address |
| Counterexamples.WriteOnly | kernel/arch/riscv/mm/page_table.cpp:114-139 | after mapping a page with W only, virt_to_phys reports its address and the hardware faults |
| Counterexamples.PhysicalPageZero | kernel/arch/riscv/mm/page_table.cpp:114-139 | after mapping physical page 0, virt_to_phys reports it as unmapped and the hardware finds it |
| Counterexamples.RegionNotCovered | kernel/mm/kernel_address_space.cpp:19-24 | a region whose last half page is not mapped, and one from the same base that is mapped |
| Counterexamples.RescheduledTooEarly | kernel/core/sched/scheduler.cpp:41-50 | a task pushed after boot is lost by a reschedule before start |

## Left out

- UART output, timer and CLINT registers, CSR accesses and `wfi` loops: device effects; the prints in `sys_exit.cpp` are no-ops here.
- Trap entry, trap dispatch and the syscall switch: `sys_yield` returns without rescheduling and the timer path never calls the scheduler, so neither is a step of the machine.
- Permissions, accessed and dirty bits, the TLB and `sfence.vma`: the code does not compute them; only address translation is modelled.
- Linker symbols and boot assembly: the kernel image is one arbitrary reserved range.
- PageTables.AddressSpaces.MapPage, MapRange, VirtToPhys and UnmapPage: take null, a root returned by `alloc_page_table`, or a zeroed table outside the free pages adopted by `AdoptTable`, such as one on a test's stack; an address that holds no table has no meaning in the source either.
- Walks through a table that was freed or overwritten by its owner: the source gives no meaning to them.
- Tasks writing to each other's memory: `Execute` may change any register but no saved context.
- A stack that overflows into other memory: stacks are address ranges only.
- Wrap-around of the 32-bit task id: at most 32 tasks exist after one `TaskManager::init`, so it cannot happen in a run of the model.
- TaskSystem.Kernel.InitTasks: not while the idle slot is queued, where resetting its links would break the list; runs start with the only initialisation.
- TaskSystem.Kernel.Push: only for a task whose node is not in the queue: the source would link the node twice and break the list; `KernelRuns.TakeStep` shows that no run does it.
- TaskSystem.Kernel.Reschedule and Yield: only when the task they push back is not in the queue, for the same reason; `KernelRuns.InvRequeuable` shows it in every reachable state.
- TaskSystem.Kernel.CreateKernelTask: only when the first Empty slot is not in the queue, where resetting its links would break the list; `KernelRuns.InvSlotFree` shows it in every reachable state.
- TaskSystem.Kernel.Start: only with a waiting task or an idle task, where the source would otherwise dereference null.
- Bitmaps of 2^63 bits or more: `find_first_zero` could not return their indices as a `ptrdiff_t`.
- `PmmStats`, `pa_to_pfn` and `pfn_to_pa`: one-line members that would add only easy properties.
- `KERNEL_CONTAINER_OF`: an ownership map from run nodes to tasks instead of pointer arithmetic.
