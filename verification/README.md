# SyncOS in Dafny

SyncOS is an x86-64 kernel. This project models five of its parts and proves what they promise.
Code that works in place is modelled by classes and methods with loops; each method is proved equal
to a step on plain values, and the laws are proved about those steps and about every run of them.

- **Memory.** The bitmap page allocator (`Pmm.dfy`), four-level page tables as words in memory
  (`PageTables.dfy`, section 4.5 of the Intel 64 and IA-32 SDM, Volume 3A), map, unmap and address
  spaces with an ownership invariant over all table frames (`AddressSpaces.dfy`, `SpaceLaws.dfy`),
  the refinement of a flat map (`PageBlocks.dfy`, `FlatRefinement.dfy`), the life of an address space
  (`SpaceLifecycle.dfy`), bulk mapping with rollback and huge pages (`BulkMapping.dfy`), user
  allocation (`UserMemory.dfy`), access rights combined over the table levels (`AccessRights.dfy`,
  `UserRights.dfy`), and the whole manager in place over the bitmap (`Vmm.dfy`).
- **Processes.** The scheduler as steps and runs (`SchedulerModel.dfy`), what each operation does and
  which pids it gives (`SchedulerEffects.dfy`), and its intrusive lists with pointers (`Scheduler.dfy`).
- **NVMe.** The completion ring as a producer/consumer protocol driven by the phase tag
  (`NvmeRing.dfy`, section 4.6 of NVM Express 1.4).
- **ext4.** The one-block cache (`BlockCache.dfy`), the inode tables (`InodeTable.dfy`), paths and
  directories (`PathWalk.dfy`), and the driver in place (`Ext4.dfy`).
- **Text and checksum.** The formatter (`FormatModel.dfy`, `FormatParse.dfy`, `FormatText.dfy`, `Formatter.dfy`;
  section 7.21.6.5 of ISO C11), decimal parsing (`FormatParse.dfy`), and the Internet checksum
  (`Checksum.dfy`; sections 1 and 2 of RFC 1071, section 3.1 of RFC 791).

`dafny verify dfyconfig.toml` verifies everything.

## Where the code does less than one would expect

Each of these is stated as an exact condition, or with the input that shows it.

- A page given back is ignored unless `kernel_start` is page aligned (`PageRuns.AllocThenFreeRestores`).
- The boot marking loop can miss the last page of an unaligned region (`PhysicalMemory.MarksTouchedPages`).
- A 4 KiB map under a huge leaf reports success and writes into data (`MapPremises.MapTakesEffect`).
- Translation keeps bit 63, so a no-execute page reads back with it set (`MapPremises.ReadBack`).
- A process requeued while nobody else is queued stays current, READY and unqueued
  (`SchedulerLaws.RequeueKeepsAllIff`). If the next operation on it is a timer tick, it is left behind for
  good; nothing else loses a process (`SchedulerLaws.BecomesLostIff`, `LostIsReached`, `LostForever`).
- A 2 MiB or 1 GiB map laid over a linked table loses it (`MappingLaws.MapLarge`, `MappingLaws.MapGiant`).
- A bulk map of one 2 MiB block at 1 GiB aligned addresses maps the whole 1 GiB
  (`BulkMapping.OneBlockKeepsToRangeIff`).
- Processes are looked up by using the pid as a slot number, so one whose slot has another number, as
  after a slot is reused, can be neither unblocked nor terminated (`SchedulerEffects.CreatedIsFoundIff`,
  `ReusedSlotIsNotFound`), and pids repeat after 2^32 creations (`SchedulerEffects.CreateKeepsPidsIff`, `PidsCollide`).
- Writing a block while another one waits to be written back drops the waiting data
  (`CacheLaws.WriteShows`).
- A request within 4 KiB of 2^64 is rounded to fewer pages than it needs (`UserMemory.PageCountCovers`).
- Blocks overlap on the device unless the sector size divides the block size (`BlockCache.BlocksApartIff`).
- Writing an inode damages its neighbour when inodes on disk are smaller than the structure
  (`InodeTable.NeighbourKeptIff`).
- "0x" prefixes are dropped whole when they do not fit, so a truncated text need not be a prefix of the
  full one (`FormatParse.TruncationIsPrefixIff`), and the
  padding of `%c` counts only as far as it is written (`FormatParse.LengthWhateverTheSizeIff`).
- A minus sign is written before right-justified padding, so such a number does not read back, and
  neither does INT_MIN (`Decimal.PrintedReadsBackIff`).

## How the model reads the source

- Table words are naturals; `|` on disjoint bit fields is addition, and flag tests are arithmetic on
  bits. Memory is a map from frame to 512 words, and a frame never written reads as zero.
- `own` in the memory state is bookkeeping for the proofs: which frame is a table, of which space, and
  where it hangs. No operation reads it.
- Every scheduler operation is one atomic step, of any process; the look-up by pid that stands before
  unblock and terminate is a step of its own. The outcome of building an
  address space, stack and image in `process_create` is a parameter.
- The outcome of every device operation and allocation in the ext4 driver is an arbitrary function of
  time, so each law covers every pattern of failures. A failed device write leaves the device unchanged.
- Format strings and paths are the characters before their terminator. A missing or mismatched variadic
  argument reads as 0 or null.

## Model

| member | source | states |
|---|---|---|
| `PageBitmap.SetBit` | src/src/syncos/pmm.c:116-120 | or-ing the mask into its byte sets the addressed page bit of the packed bitmap and no other |
| `PageBitmap.ClearBit` | src/src/syncos/pmm.c:230-236 | and-ing the inverted mask clears the addressed page bit and no other |
| `PageRuns.FirstRunFrom` | src/src/syncos/pmm.c:180-212 | the result is a run of n free pages, and no run of n free pages starts lower; nothing only when there is none |
| `PageRuns.FreePlusUsed` | src/src/syncos/pmm.c:268-303 | free pages plus used pages is the number of managed pages, for every bitmap |
| `PageRuns.FreeManyAligned` | src/src/syncos/pmm.c:218-244 | with a page-aligned start, freeing a run clears exactly its pages |
| `PageRuns.FreeManyUnaligned` | src/src/syncos/pmm.c:226-229 | with an unaligned start, freeing an allocated run changes nothing: the absolute alignment test rejects every page |
| `PageRuns.AllocThenFreeRestores` | src/src/syncos/pmm.c:167-244 | allocate then free restores the bitmap exactly, if and only if kernel_start is page aligned |
| `PageRuns.TakeAccounted` | src/src/syncos/pmm.c:167-215 | an allocation keeps live blocks disjoint, inside the range, off the boot-reserved pages, and used bits exactly boot plus live |
| `PageRuns.DropAccounted` | src/src/syncos/pmm.c:218-244 | freeing a live block keeps the same accounts |
| `PageRuns.RunAccounted` | src/src/syncos/pmm.c:140-244 | every run of allocations and frees of live blocks, from any boot bitmap, keeps the accounts |
| `PhysicalMemory.ChooseRange` | src/src/syncos/pmm.c:34-60 | the managed range is the first of the longest usable regions at or above 1 MiB, or empty at 1 MiB when there is none |
| `PhysicalMemory.MarksTouchedPages` | src/src/syncos/pmm.c:98-121 | the boot marking loop marks exactly the pages a region touches, if and only if the region end is not carried into a further page by the offset of its start |
| `PhysicalMemory.Pmm.constructor` | src/src/syncos/pmm.c:20-81 | the managed page count is the largest that fits both the static bitmap and the region; every page starts free |
| `PhysicalMemory.Pmm.ReserveRegion` | src/src/syncos/pmm.c:84-122 | reserves exactly the stepped pages of one memory-map entry clipped to the range; usable and outside entries change nothing |
| `PhysicalMemory.Pmm.ReserveLowPages` | src/src/syncos/pmm.c:125-129 | marks the first 256 managed pages, as many as exist |
| `PhysicalMemory.Pmm.AllocPage` | src/src/syncos/pmm.c:140-164 | takes the lowest free page and marks only it; 0 exactly when none is free; counters move accordingly |
| `PhysicalMemory.Pmm.AllocPages` | src/src/syncos/pmm.c:167-215 | takes the lowest-addressed run of count free pages and marks exactly those; 0 exactly when count is 0 or no such run exists |
| `PhysicalMemory.Pmm.FreePage` | src/src/syncos/pmm.c:218-237 | clears the page of an aligned address inside the range and nothing for any other address |
| `PhysicalMemory.Pmm.FreePages` | src/src/syncos/pmm.c:240-244 | frees count consecutive pages, each under the same test |
| `PhysicalMemory.Pmm.IsPageFree` | src/src/syncos/pmm.c:247-265 | true exactly for an accepted address whose bit is clear |
| `PhysicalMemory.Pmm.FreeMemory` | src/src/syncos/pmm.c:268-284 | 4096 times the number of clear bits |
| `PhysicalMemory.Pmm.UsedMemory` | src/src/syncos/pmm.c:287-303 | 4096 times the number of set bits |
| `PageTables.EntryFields` | src/src/syncos/vmm.c:232-268 | the word written for a page keeps present, huge and all low attribute bits from the flags and the frame address, and carries bit 63 into the address when no-execute is stored |
| `PageTables.PathIsPage` | src/src/syncos/vmm.c:115-150 | two lower-half addresses use the same four table indices if and only if they lie in the same 4 KiB page |
| `MappingLaws.EnsureKeeps` | src/src/syncos/vmm.c:187-231 | creating a missing table changes no translation of any space, takes exactly one free frame, and keeps the ownership tree |
| `MappingLaws.WriteSlot1` | src/src/syncos/vmm.c:263-270 | writing a 4 KiB entry changes the translation of that page in that space and of nothing else anywhere |
| `MappingLaws.WriteSlot2` | src/src/syncos/vmm.c:234-241 | writing a 2 MiB leaf changes exactly the 512 pages below it in that space |
| `MappingLaws.MapSmall` | src/src/syncos/vmm.c:167-270 | a 4 KiB map without a huge leaf on its path: success makes exactly that page translate to phys, failure (null address or no frame left) changes no translation; only tables are taken, in every address space |
| `MappingLaws.MapLarge` | src/src/syncos/vmm.c:208-241 | a 2 MiB map where the 1 GiB branch does not fire updates exactly its 512 pages, or changes no translation; it loses a page table exactly when one was linked where the leaf goes |
| `MappingLaws.MapGiant` | src/src/syncos/vmm.c:208-221 | a 1 GiB map updates exactly the pages of its block, or changes no translation, whatever lies on its path; it loses tables exactly when a page directory was linked where the leaf goes |
| `MappingLaws.UnmapRemoves` | src/src/syncos/vmm.c:421-475 | unmap succeeds exactly on mapped pages, removes exactly the leaf found there and takes or gives no frame |
| `FlatRefinement.AnyStateIsSound` | src/src/syncos/vmm.c:333-388 | every state that meets the ownership invariant, whatever its tables hold, agrees with the flat model read off it, so a run can start from any of them |
| `FlatRefinement.StartIsSound` | src/src/syncos/vmm.c:771-788 | one space with an empty top table agrees with one empty flat map |
| `FlatRefinement.StepRefines` | src/src/syncos/vmm.c:167-540 | each 4 KiB, 2 MiB and 1 GiB map, bulk map with rollback, unmap, create, switch or delete on the tables agrees with its effect on a flat map from page to leaf with its attribute bits, and loses no table unless it lays a huge leaf over one |
| `FlatRefinement.RunRefines` | src/src/syncos/vmm.c:106-540 | over every run of these operations the page tables in memory agree with the flat model on every lower-half page of every space and the ownership invariant holds; a run that never buries a table loses none |
| `SpaceLaws.CreateKeeps` | src/src/syncos/vmm.c:771-788 | a new space translates the higher half exactly as its creator and the lower half not at all; no other space changes |
| `SpaceLaws.DeleteVisits` | src/src/syncos/vmm.c:791-833 | delete visits exactly the table frames that belong to the space, each once, and no shared higher-half table |
| `SpaceLaws.DeleteKeeps` | src/src/syncos/vmm.c:791-833 | when no table was lost before, delete gives back exactly the managed table frames of the space; every other space stays and translates as before |
| `SpaceLaws.DeleteKeepsInv` | src/src/syncos/vmm.c:791-833 | even after tables were lost under huge leaves, delete frees only tables of that space and keeps the invariant and every other space |
| `SpaceLifecycle.UserRun` | src/src/syncos/vmm.c:167-475 | any run of lower-half 4 KiB maps and unmaps, failed ones included, takes only table frames of the current space and changes no other space |
| `SpaceLifecycle.LifecycleRestores` | src/src/syncos/vmm.c:771-846 | create, switch, any such run, switch back, delete: the free frames and the tables are exactly as before, and delete frees exactly what the space took, each frame once |
| `VmFlags.HwFlagsMean` | src/src/syncos/vmm.c:402-415 | the hardware word is always present, huge exactly when asked, no-execute exactly when asked and supported |
| `VmFlags.HwRightsMean` | src/src/syncos/vmm.c:405-410 | bits 1, 2, 3, 4 and 8 of a word written with these flags are the flags 0x2, 0x4, 0x8, 0x10 and 0x100 of the caller |
| `AccessRights.NewTopLink` | src/src/syncos/vmm.c:187-199 | a table newly linked in the top table is writable, and open to user programs exactly when the address is below 2^63 |
| `AccessRights.NewLink` | src/src/syncos/vmm.c:224-258 | a new table at any level is cleared and linked present and writable, with the user bit exactly as asked; no other word changes |
| `AccessRights.LeafDecides` | src/src/syncos/vmm.c:187-268 | while the links of the lower half are open, the rights combined over the four levels are those of the leaf |
| `AccessRights.MapGivesRights` | src/src/syncos/vmm.c:391-418 | after a successful lower-half map the combined rights and the cache bits are exactly those the caller asked for, and every other page of every space keeps its rights |
| `AccessRights.BulkGivesRights` | src/src/syncos/vmm.c:478-540 | after a successful bulk map every page has exactly the rights asked for, in a 2 MiB leaf exactly when huge pages were asked for, both addresses are aligned, and the page lies in a whole block of at least 512 pages |
| `AccessRights.StepOpens` | src/src/syncos/vmm.c:167-540 | every map, bulk map with rollback, unmap, creation, switch and deletion keeps the links of all lower halves open |
| `AccessRights.RunRights` | src/src/syncos/vmm.c:106-540 | over every run the combined rights on every lower-half page of every space are those of the leaf in the flat map |
| `BulkMapping.NotCongruent` | src/src/syncos/vmm.c:207-213 | when virt and phys differ modulo 1 GiB, the 1 GiB branch fires for no step of a bulk map |
| `BulkMapping.MapSmallPagesMove` | src/src/syncos/vmm.c:526-540 | the 4 KiB loop moves the whole range, or rolls back so that every translation is as before, for every flag word |
| `BulkMapping.MapPagesOutcome` | src/src/syncos/vmm.c:478-540 | page by page and for every flag word, vmm_map_pages with 2 MiB blocks and a 4 KiB tail, or with 4 KiB pages alone, puts every leaf in place or rolls both parts back to exactly the leaves before; it loses no page table when none was linked where a block goes |
| `BulkMapping.MapPagesAllOrNothing` | src/src/syncos/vmm.c:478-540 | as addresses: the whole range moves or nothing does, it fails only for a null address or exhausted frames, and without a stored no-execute bit the range moves byte for byte |
| `BulkMapping.HugeEqualsSmall` | src/src/syncos/vmm.c:478-540 | for every flag word the 2 MiB form and the all-4 KiB form translate every address of every space alike when both succeed; a failed form leaves every translation as before |
| `BulkMapping.OneBlockKeepsToRangeIff` | src/src/syncos/vmm.c:478-496 | a call for 512 huge pages leaves the pages outside its range alone if and only if the addresses are not both 1 GiB aligned; then it lays a 1 GiB leaf |
| `MapPremises.HugeLeafSwallows` | src/src/syncos/vmm.c:244-270 | under a 2 MiB leaf a 4 KiB map reports success but stores its word into the mapped memory and changes no translation |
| `MapPremises.GiantLeafSwallows` | src/src/syncos/vmm.c:216-270 | under a 1 GiB leaf the leaf stays, as long as the mapped memory does not point back at tables |
| `MapPremises.MapTakesEffect` | src/src/syncos/vmm.c:216-270 | a successful 4 KiB map installs its leaf if and only if the page is not already under a huge leaf of either size |
| `MapPremises.ReadBack` | src/src/syncos/vmm.c:106-152 | the address read back after a map is the one mapped if and only if no no-execute bit was stored, because the address mask keeps bit 63 |
| `UserMemory.FindArea` | src/src/syncos/vmm.c:287-294 | the first area that is free and large enough, or none when no area is |
| `UserMemory.DirectMapReadsBack` | src/src/syncos/vmm.c:100-113 | phys_to_virt and virt_to_phys undo each other on every address but null, in both orders; for null exactly when the walk of address 0 gives nothing or frame 0 |
| `UserMemory.WalkedAddress` | src/src/syncos/vmm.c:115-152 | below hhdm_offset a non-zero answer is exactly the translation of the walk |
| `UserMemory.FillRunFills` | src/src/syncos/vmm.c:634-668 | filling a vacant area maps a private cleared frame per page and stops early only when at most one frame is left |
| `UserMemory.CleanupDrains` | src/src/syncos/vmm.c:637-663 | the cleanup and the freeing loop unmap page after page and give back exactly the frames mapped there |
| `UserMemory.AllocateFails` | src/src/syncos/vmm.c:603-674 | a failed vmm_allocate leaves every translation and every area as before and returns every data frame; only page-table frames stay taken, and no table is lost |
| `UserMemory.AllocateFailsWhen` | src/src/syncos/vmm.c:603-674 | it fails only for size 0, when no area fits, or with fewer than four free frames per page |
| `UserMemory.EnoughFrames` | src/src/syncos/vmm.c:634-668 | with four free frames per page, one for data and one per table level, filling never stops early |
| `UserMemory.PageCountCovers` | src/src/syncos/vmm.c:608-610 | the pages cover the request exactly when rounding it up does not wrap in 64 bits, and never by a page too much; when it wraps there are none |
| `UserMemory.AllocateSucceeds` | src/src/syncos/vmm.c:603-674 | a successful one maps distinct private frames, one per page of the first area that fits, marks that area used and changes nothing else |
| `UserRights.FillRunClears` | src/src/syncos/vmm.c:634-668 | every frame mapped by the filling loop is zero when the loop ends, and the links stay open |
| `VmFlags.OrHas` | src/src/syncos/vmm.c:650-650 | the combined flag word has a bit exactly when the request or the area has it |
| `UserRights.AllocateGivesRights` | src/src/syncos/vmm.c:652-673 | after a successful vmm_allocate every page is mapped to a cleared frame and its combined rights are those of the request and of the area together |
| `UserMemory.FreeRunFrees` | src/src/syncos/vmm.c:688-697 | freeing any lower-half range of data pages and holes unmaps exactly its pages and gives back exactly the managed frames they mapped |
| `UserMemory.ReleaseUndoes` | src/src/syncos/vmm.c:700-716 | releasing by base address undoes exactly the marking of that area |
| `UserMemory.ReleaseNothing` | src/src/syncos/vmm.c:700-716 | an address that is no area's base changes no area |
| `UserMemory.AllocateThenFree` | src/src/syncos/vmm.c:603-720 | allocate then free of the same size unmaps the range, returns exactly the data frames, restores the area list and loses no table |
| `FrameSets.FirstIsLowest` | src/src/syncos/pmm.c:140-164 | the bitmap search yields the lowest free frame address; the free set is empty exactly when it finds none |
| `FrameSets.FreeSetUpdate` | src/src/syncos/pmm.c:140-164 | changing one bit adds or removes exactly that frame of the free set |
| `FrameSets.AcceptsManaged` | src/src/syncos/pmm.c:218-237 | with an aligned start the addresses accepted back are exactly the managed frames |
| `VirtualMemory.Vmm.AllocFrame` | src/src/syncos/pmm.c:140-164 | takes the lowest free frame of the bitmap allocator, or 0 |
| `VirtualMemory.Vmm.FreeFrame` | src/src/syncos/pmm.c:218-237 | gives a managed frame back to the bitmap and ignores others |
| `VirtualMemory.Vmm.CreatePageTable` | src/src/syncos/vmm.c:155-164 | a cleared frame, or 0 with nothing changed |
| `VirtualMemory.Vmm.EnsureTableAt` | src/src/syncos/vmm.c:187-205 | uses the table an entry links to, or creates and links a cleared one with the user bit of the lower half |
| `VirtualMemory.Vmm.MapPageInternal` | src/src/syncos/vmm.c:167-270 | the tables in memory and the bitmap change exactly as the step analysed by MapSmall and MapLarge |
| `VirtualMemory.Vmm.MapOne` | src/src/syncos/vmm.c:391-418 | the flags are translated to hardware bits and the page is mapped in the current space |
| `VirtualMemory.Vmm.UnmapPage` | src/src/syncos/vmm.c:421-475 | the entry found at any of the three leaf levels is cleared, exactly as the step analysed by UnmapRemoves |
| `VirtualMemory.Vmm.UnmapRange` | src/src/syncos/vmm.c:543-549 | unmaps n blocks in order, ignoring which of them fail |
| `VirtualMemory.Vmm.MapMany` | src/src/syncos/vmm.c:478-540 | the 2 MiB loop, the 4 KiB tail, the 4 KiB loop and their rollbacks are the function analysed by MapPagesAllOrNothing |
| `VirtualMemory.Vmm.GetPhysicalAddress` | src/src/syncos/vmm.c:106-152 | the direct-map offset above hhdm_offset, the walk below it, 0 for an unmapped address |
| `VirtualMemory.Vmm.IsMappedAt` | src/src/syncos/vmm.c:557-600 | true exactly when the address is in the direct map or the walk translates it |
| `VirtualMemory.Vmm.CreateAddressSpace` | src/src/syncos/vmm.c:771-788 | the loop copies exactly the higher half of the current top table into a cleared frame |
| `VirtualMemory.Vmm.SwitchAddressSpace` | src/src/syncos/vmm.c:836-846 | the current space changes unless the root is null or already current |
| `VirtualMemory.Vmm.DeleteAddressSpace` | src/src/syncos/vmm.c:791-833 | the three nested loops give back exactly the listed table frames, bottom-up, and nothing for the current or null space |
| `VirtualMemory.Vmm.AllocateUser` | src/src/syncos/vmm.c:603-674 | state, areas and address are those of the function analysed by AllocateFails and AllocateSucceeds, cleanup included |
| `VirtualMemory.Vmm.FindFreeArea` | src/src/syncos/vmm.c:287-294 | the loop returns the first free area that is large enough |
| `VirtualMemory.Vmm.FreeUser` | src/src/syncos/vmm.c:677-720 | pages that are mapped are unmapped and given back, then the first area with that base is freed |
| `SchedulerModel.InitialInv` | src/src/syncos/process.c:137-164 | registering the idle process on a cleared table establishes the scheduler invariant |
| `SchedulerLaws.ScheduleKeeps` | src/src/syncos/process.c:68-99 | schedule_next re-establishes the invariant from any state its callers reach |
| `SchedulerLaws.TerminateKeeps` | src/src/syncos/process.c:469-510 | terminating any process, the current one included, keeps the invariant |
| `SchedulerLaws.TickKeeps` | src/src/syncos/process.c:167-198 | every timer tick keeps the invariant |
| `SchedulerLaws.StepKeeps` | src/src/syncos/process.c:167-198 | create, tick, yield, block, unblock and terminate each keep: lists duplicate-free and disjoint, queued means READY, listed exactly when BLOCKED, RUNNING means current, current in no list |
| `SchedulerLaws.RunKeeps` | src/src/syncos/process.c:68-787 | every run of these operations keeps that invariant |
| `SchedulerLaws.RequeueKeepsAllIff` | src/src/syncos/process.c:625-653 | a requeue of the current non-idle process keeps every READY process queued if and only if another process was queued; otherwise the early return leaves it READY, current and unqueued |
| `SchedulerLaws.PlainStepKeepsAll` | src/src/syncos/process.c:469-787 | every other operation keeps every READY non-idle process queued |
| `SchedulerLaws.NoProcessLost` | src/src/syncos/process.c:167-198 | in every run that requeues only while another process is queued, each non-idle READY process is in the ready queue exactly once |
| `SchedulerLaws.BecomesLostIff` | src/src/syncos/process.c:167-198 | the step that loses a process, exactly: a timer tick while it is current and READY |
| `SchedulerLaws.LostIsReached` | src/src/syncos/process.c:735-749 | create, tick, yield, tick from the start loses the only process |
| `SchedulerLaws.LostStaysLost` | src/src/syncos/process.c:68-99 | no operation short of terminating it brings back a READY process that is neither queued nor current |
| `SchedulerLaws.LostForever` | src/src/syncos/process.c:68-787 | no run does either |
| `SchedulerLaws.StepMoves` | src/src/syncos/process.c:513-568 | every operation moves a queued process forward by at least the scheduling steps it makes, or makes it current |
| `SchedulerLaws.BoundedWaiting` | src/src/syncos/process.c:68-99 | a process at position k of the ready queue is current by the (k+1)-th scheduling step, whatever other processes do in between |
| `SchedulerLaws.QuantumLasts` | src/src/syncos/process.c:167-198 | a process switched to runs for exactly its quantum of ticks, also across a wrap of its tick counter |
| `SchedulerEffects.UnblockEffect` | src/src/syncos/process.c:771-787 | true exactly for a BLOCKED process, which is then READY and last in the ready queue and out of the blocked list; nothing else changes, and false changes nothing |
| `SchedulerEffects.BlockEffect` | src/src/syncos/process.c:752-768 | for every state but RUNNING the current process ends BLOCKED at the head of the blocked list and the head of the ready queue, or idle, starts its quantum |
| `SchedulerEffects.TerminateEffect` | src/src/syncos/process.c:469-510 | a process other than idle and the current one ends TERMINATED and in no list; the others keep their fields and their order |
| `SchedulerEffects.TerminateCurrentEffect` | src/src/syncos/process.c:469-510 | the current process ends TERMINATED and in no list exactly when it is not idle, and the head of the ready queue, or idle, starts its quantum |
| `SchedulerEffects.YieldEffect` | src/src/syncos/process.c:735-749 | with nobody queued a yield only turns the current process READY; otherwise it is queued last and the old head starts its quantum |
| `SchedulerEffects.TickCharges` | src/src/syncos/process.c:171-179 | a tick with interrupts disabled does nothing; one within the quantum only advances the clock modulo 2^64 |
| `SchedulerEffects.TickSwitches` | src/src/syncos/process.c:182-193 | the tick that ends a quantum queues the process last, idle excepted, and the head of the queue starts its quantum; with nobody else queued the process stays current |
| `SchedulerEffects.TickDispatches` | src/src/syncos/process.c:194-197 | a tick while the current process is READY dispatches without queueing it |
| `SchedulerEffects.CreateEffect` | src/src/syncos/process.c:322-429 | the first reusable slot after idle gets the next pid and is READY and queued last, or left as each failure leaves it; a full table changes nothing |
| `SchedulerEffects.OnlyCreateGivesPids` | src/src/syncos/process.c:167-787 | no other operation changes a pid or brings a terminated process back |
| `SchedulerEffects.CreateKeepsPidsIff` | src/src/syncos/process.c:201-211 | a create keeps the pids of live processes different if and only if it gives none away or nobody holds the next pid |
| `SchedulerEffects.RunPidsDiffer` | src/src/syncos/process.c:201-211 | in every run that cannot reach the end of the 32-bit pids, live processes have different pids |
| `SchedulerEffects.PidsCollide` | src/src/syncos/process.c:201-211 | a run that reaches it: create, 2^32 - 2 failing creates, create leaves two live processes with pid 1 |
| `SchedulerEffects.CreatedIsFoundIff` | src/src/syncos/process.c:725-732 | the pid a create returns finds the new process if and only if its slot has that number |
| `SchedulerEffects.RunFindsAll` | src/src/syncos/process.c:725-732 | in every run without terminations and late failures every live process is found by its pid |
| `SchedulerEffects.ReusedSlotIsNotFound` | src/src/syncos/process.c:725-732 | create, terminate, create: the second process is not found by its pid 2 |
| `QueueLinks.LinkReadyKeeps` | src/src/syncos/process.c:513-532 | appending keeps the ready list well linked both ways and adds the process at its end |
| `QueueLinks.UnlinkReadyKeeps` | src/src/syncos/process.c:535-568 | removing at any position keeps the rest linked in order and clears the links of the removed process |
| `QueueLinks.UnlinkReadyAbsent` | src/src/syncos/process.c:535-568 | removing a process that is in no list changes no pointer |
| `QueueLinks.PopReadyKeeps` | src/src/syncos/process.c:76-88 | taking the head leaves the tail of the list well linked |
| `QueueLinks.LinkBlockedKeeps` | src/src/syncos/process.c:571-579 | prepending to the blocked list keeps both lists well linked, though they share the next field |
| `QueueLinks.UnlinkBlockedKeeps` | src/src/syncos/process.c:582-602 | removing from the blocked list keeps both lists well linked |
| `Scheduling.Scheduler.constructor` | src/src/syncos/process.c:137-164 | slot 0 becomes the current READY idle process, lists empty |
| `Scheduling.Scheduler.AddToReadyQueue` | src/src/syncos/process.c:513-532 | the linked list represents the old queue with the process appended, its state READY |
| `Scheduling.Scheduler.RemoveFromReadyQueue` | src/src/syncos/process.c:535-568 | the linked list represents the old queue without the process |
| `Scheduling.Scheduler.AddToBlockedQueue` | src/src/syncos/process.c:571-579 | the blocked list gets the process in front, its state BLOCKED |
| `Scheduling.Scheduler.RemoveFromBlockedQueue` | src/src/syncos/process.c:582-602 | the search loop terminates and the list represents the old one without the process |
| `Scheduling.Scheduler.ContextSwitch` | src/src/syncos/process.c:625-653 | nothing for the current process; otherwise the old one becomes READY if it was RUNNING and the new one RUNNING |
| `Scheduling.Scheduler.Schedule` | src/src/syncos/process.c:68-99 | dequeues the head or falls back to idle, keeping both linked lists well formed |
| `Scheduling.Scheduler.YieldCpu` | src/src/syncos/process.c:735-749 | requeues the current process and schedules |
| `Scheduling.Scheduler.BlockCurrent` | src/src/syncos/process.c:752-768 | the current process ends BLOCKED in the blocked list whatever state is asked for, except RUNNING, which does nothing |
| `Scheduling.Scheduler.UnblockProcess` | src/src/syncos/process.c:771-787 | moves a BLOCKED process to the end of the ready queue; false for any other |
| `Scheduling.Scheduler.TerminateProcess` | src/src/syncos/process.c:469-510 | takes the process out of its list, marks it TERMINATED and schedules if it was current; false for idle and free slots |
| `Scheduling.Scheduler.GetById` | src/src/syncos/process.c:725-732 | the process in the slot of that number if it carries that pid, and null otherwise |
| `Scheduling.Scheduler.UnblockPid` | src/src/syncos/process.c:771-787 | unblocks the process found by that pid; false when there is none |
| `Scheduling.Scheduler.TerminatePid` | src/src/syncos/process.c:469-510 | terminates the process found by that pid; false for pid 0 and when there is none |
| `Scheduling.Scheduler.TimerTick` | src/src/syncos/process.c:167-198 | charges the tick, requeues on expiry (idle excepted) and schedules, or schedules when nobody runs |
| `Scheduling.Scheduler.CreateProcess` | src/src/syncos/process.c:306-435 | the first free slot after idle is claimed; the process is enqueued, or the slot is left as each failure leaves it; the pid returned is the one taken |
| `CompletionRing.InitialInv` | src/src/core/drivers/nvme.c:443-486 | a cleared ring with phase 1 and everything at entry 0 meets the protocol invariant |
| `CompletionRing.TagTellsNew` | src/src/core/drivers/nvme.c:926-928 | the phase test holds at the head exactly when an unconsumed entry is there, and then the slot holds the next one |
| `CompletionRing.BoundNeverReached` | src/src/core/drivers/nvme.c:926-946 | the processed bound never ends the loop: it stops exactly when everything posted is consumed |
| `CompletionRing.RoomMeans` | src/src/core/drivers/nvme.c:1724-1740 | the device sees room exactly when fewer than size minus one entries await the doorbell |
| `CompletionRing.PostKeeps` | src/src/core/drivers/nvme.c:916-959 | a post by a device that respects the doorbell overwrites no unconsumed entry and keeps the invariant |
| `CompletionRing.ConsumeKeeps` | src/src/core/drivers/nvme.c:926-946 | one loop turn keeps the invariant across the wrap and the phase toggle |
| `CompletionRing.RunKeeps` | src/src/core/drivers/nvme.c:916-959 | every interleaving of posts and driver steps keeps the invariant |
| `CompletionRing.ConsumedIsPrefix` | src/src/core/drivers/nvme.c:916-959 | in every interleaving, over any number of wraps, the entries consumed are exactly a prefix of those posted, in order and once each |
| `CompletionQueue.Queue.constructor` | src/src/core/drivers/nvme.c:443-486 | set-up gives the initial protocol state |
| `CompletionQueue.Queue.ProcessCompletions` | src/src/core/drivers/nvme.c:916-959 | with the controller posting between any two loop tests, the call ends, consumes everything posted by its last test, in order, takes the last sq_head and rings the doorbell with the new head if anything was consumed |
| `BlockCache.BlocksApartIff` | src/src/syncos/fs/ext4.c:37-55 | distinct blocks use disjoint sector ranges if and only if the sector size divides the block size |
| `BlockCache.SectorsAreBlock` | src/src/syncos/fs/ext4.c:37-55 | when it divides, the sectors of a block are exactly its bytes |
| `BlockCache.WriteReaches` | src/src/syncos/fs/ext4.c:50-55 | a device write of a block changes that block and no other; a failed one changes none |
| `CacheLaws.StepFaithful` | src/src/syncos/fs/ext4.c:370-436 | each read, write or flush, with any device failures, keeps device and cache within what the plain block array allows, and a successful read returns an allowed value |
| `CacheLaws.FlushKeeps` | src/src/syncos/fs/ext4.c:417-436 | a successful flush leaves the cache clean and the device up to date |
| `CacheLaws.ReadsLastWrite` | src/src/syncos/fs/ext4.c:370-436 | in every run, whatever fails in between, a successful read of a block whose last write returned true gives that value |
| `CacheLaws.ReadsInitial` | src/src/syncos/fs/ext4.c:370-399 | a block never written reads as the device had it at mount |
| `CacheLaws.ReadSucceedsIff` | src/src/syncos/fs/ext4.c:370-399 | a read succeeds exactly when the block exists and the device operations it needs succeed: none when cached, one to read, and one before it when the cached block is dirty |
| `CacheLaws.WriteSucceedsIff` | src/src/syncos/fs/ext4.c:402-414 | a write succeeds if and only if the block exists and its one device operation succeeds; the device then holds the data there and its other blocks as before |
| `CacheLaws.FlushSucceedsIff` | src/src/syncos/fs/ext4.c:417-436 | a flush succeeds if and only if the write-back, when due, and the device flush do; every block is then on the device as it is shown |
| `CacheLaws.ReadShows` | src/src/syncos/fs/ext4.c:370-399 | reading, successful or not and whatever waits in a dirty buffer, never changes what any block reads as |
| `CacheLaws.WriteShows` | src/src/syncos/fs/ext4.c:402-414 | a successful write shows its data, and what every other block reads as stays if and only if no other block was waiting to be written back |
| `CacheLaws.FailedWriteShows` | src/src/syncos/fs/ext4.c:402-414 | a failed write leaves the device as it was, from any state |
| `InodeTable.PlaceOf` | src/src/syncos/fs/ext4.c:444-463 | group, index, block and offset arithmetic puts an inode in its slot of its group's table, without wrap-around |
| `InodeTable.LocateIff` | src/src/syncos/fs/ext4.c:444-452 | an inode is found if and only if its number is from 1 to the number of inodes in all groups |
| `InodeTable.InodeNumbered` | src/src/syncos/fs/ext4.c:444-463 | inode number group * inodes_per_group + index + 1 lies index * inode_size bytes into the table of its group |
| `InodeTable.InodesApart` | src/src/syncos/fs/ext4.c:444-463 | different inode numbers never share a byte |
| `InodeTable.NeighbourKeptIff` | src/src/syncos/fs/ext4.c:531-532 | the fixed-size copy spares the next inode of the block if and only if inodes on disk are at least sizeof(ext4_inode_t) |
| `InodeTable.ReadInodeShows` | src/src/syncos/fs/ext4.c:439-486 | from any state, read_inode gives the inode the volume shows and changes nothing it shows |
| `InodeTable.WriteInodeShows` | src/src/syncos/fs/ext4.c:489-543 | from any state, a successful write_inode sets that inode and leaves every other as it was |
| `InodeTable.WriteInodeSparesOthers` | src/src/syncos/fs/ext4.c:489-543 | a write_inode that fails, wherever it fails, leaves every other inode as it was, and on the device too when nothing was waiting to be written back |
| `InodeTable.WriteThenRead` | src/src/syncos/fs/ext4.c:439-543 | write_inode(i, x) then read_inode(j) gives x for j equal to i and the old inode otherwise |
| `InodeTable.ReadInodeSucceedsIff` | src/src/syncos/fs/ext4.c:439-486 | read_inode succeeds if and only if the number is in range, its block is on the volume, and the allocation and the device operations of the read succeed |
| `InodeTable.WriteInodeSucceedsIff` | src/src/syncos/fs/ext4.c:489-543 | write_inode succeeds if and only if, besides that, its write succeeds |
| `InodeTable.WriteInodeHolds` | src/src/syncos/fs/ext4.c:531-535 | after a successful write_inode the device holds the inode in its place |
| `InodeTable.EveryInodeWorks` | src/src/syncos/fs/ext4.c:439-543 | on a volume that holds its tables, while everything succeeds, every inode number from 1 to the last can be read and written, from any state of the cache |
| `InodeTable.ReadsTableBytes` | src/src/syncos/fs/ext4.c:460-482 | what is read are the 160 bytes from byte index * inode_size of the group's table on |
| `Paths.ComponentsSplit` | src/src/syncos/fs/ext4.c:560-584 | the components of a path joined at a slash are those of its two parts |
| `Paths.RepeatedSlashes` | src/src/syncos/fs/ext4.c:560-584 | any number of slashes between two parts gives the same components |
| `Paths.TrailingSlashes` | src/src/syncos/fs/ext4.c:560-584 | trailing slashes add no component |
| `Paths.JoinSplits` | src/src/syncos/fs/ext4.c:560-584 | splitting undoes joining for names of 1 to 255 bytes without a slash |
| `Paths.LongNameIsCut` | src/src/syncos/fs/ext4.c:571-576 | a name longer than 255 bytes is looked up by its first 255 |
| `Directories.ScanIsFirstMatch` | src/src/syncos/fs/ext4.c:633-655 | the entry scan of a block finds nothing exactly when no entry matches, and otherwise the inode of the first match |
| `DirectoryLayout.ScanFindsWritten` | src/src/syncos/fs/ext4.c:633-655 | a block written as records with any slack behind their names is scanned to the inode of the first live entry with the name |
| `DirectoryLayout.EntryReadsBack` | src/src/syncos/fs/ext4.h:277-284 | every field of a directory entry is read back from where the structure puts it |
| `DirectoryLayout.StoredExtentsAreSearched` | src/src/syncos/fs/ext4.c:608-630 | a directory inode with a leaf extent header and its extents is searched in exactly the blocks of those extents |
| `DirectoryLayout.StoredKind` | src/src/syncos/fs/ext4.c:593-598 | for an inode as stored, the directory test holds exactly when the mode is from 0x4000 to 0x4FFF, and the extent test exactly when bit 19 of the flags is set |
| `DirectoryLayout.StoredDirectBlocksAreSearched` | src/src/syncos/fs/ext4.c:657-665 | without the extent flag exactly the non-zero ones of the twelve stored direct blocks are searched, in their order |
| `DirectoryLayout.StoredHeaderDecides` | src/src/syncos/fs/ext4.c:612-617 | with the extent flag a magic number other than 0xF30A refuses the directory and an extent tree of any depth but 0 is not searched |
| `DirectoryLayout.EntersDirectBlocks` | src/src/syncos/fs/ext4.c:586-698 | a stored inode is entered exactly when its mode is of directory type, and then searched in its stored direct blocks |
| `DirectoryLayout.EntersExtents` | src/src/syncos/fs/ext4.c:586-657 | the same with its stored extents |
| `DirectoryLayout.LookUpFindsWritten` | src/src/syncos/fs/ext4.c:633-692 | over blocks of written entries the look-up gives the first live entry of that name over all of them |
| `DirectoryLayout.RootIsTwo` | src/src/syncos/fs/ext4.c:551-563 | slashes alone name inode 2, and nothing is read |
| `DirectoryLayout.PathExtends` | src/src/syncos/fs/ext4.c:565-705 | one more name is looked up in what the path before it leads to |
| `Directories.SearchIsLookUp` | src/src/syncos/fs/ext4.c:608-692 | from any state, searching the blocks of a directory changes nothing shown and, with all reads succeeding from there on, finds the first match over its blocks in order |
| `Directories.SearchSkips` | src/src/syncos/fs/ext4.c:622-692 | whatever fails, the search skips exactly the blocks it cannot read and gives the match in the first of the others that has one |
| `Directories.EnterNeeds` | src/src/syncos/fs/ext4.c:586-604 | a component is entered only when its directory's inode can be read and both allocations succeed |
| `Directories.WalkIsResolve` | src/src/syncos/fs/ext4.c:546-706 | from any state the walk changes nothing the volume shows, whatever fails, and with everything succeeding from its start on equals the fold of first-match lookups |
| `Directories.SlashesDoNotMatter` | src/src/syncos/fs/ext4.c:546-706 | leading, repeated and trailing slashes never change what is found |
| `Directories.ResolveSplits` | src/src/syncos/fs/ext4.c:565-705 | a path resolves as its last part from what its first part resolves to |
| `Ext4.Volume.constructor` | src/src/syncos/fs/ext4.c:246-339 | a mounted volume shows the device's blocks, with no cached block |
| `Ext4.Volume.WriteDevice` | src/src/syncos/fs/ext4.c:50-55 | whole sectors are written at the block's address, or nothing on failure |
| `Ext4.Volume.ReadDevice` | src/src/syncos/fs/ext4.c:42-47 | whole sectors are read from the block's address |
| `Ext4.Volume.ReadBlock` | src/src/syncos/fs/ext4.c:370-399 | range test, cache hit, write-back and device read are the step analysed by StepFaithful; the buffer gets the block |
| `Ext4.Volume.WriteBlock` | src/src/syncos/fs/ext4.c:402-414 | the buffer takes the data and stays dirty; the device's answer is the result |
| `Ext4.Volume.FlushBlocks` | src/src/syncos/fs/ext4.c:417-436 | write-back if dirty, then the device flush |
| `Ext4.Volume.ReadInode` | src/src/syncos/fs/ext4.c:439-486 | the place is computed, a block is allocated and read, and the inode is copied out; each failure returns false |
| `Ext4.Volume.WriteInode` | src/src/syncos/fs/ext4.c:489-543 | the block is read, the inode copied in at its offset, and the block written through |
| `Ext4.Volume.ScanBlock` | src/src/syncos/fs/ext4.c:633-655 | the scan loop terminates and returns the inode of the first matching entry |
| `Ext4.Volume.SearchExtents` | src/src/syncos/fs/ext4.c:617-657 | the nested extent and block loops visit the extents' blocks in order, skip unreadable ones and stop at the first match |
| `Ext4.Volume.SearchDirect` | src/src/syncos/fs/ext4.c:657-692 | the twelve direct blocks are visited in order, holes skipped |
| `Ext4.Volume.EnterDirectory` | src/src/syncos/fs/ext4.c:586-698 | non-directories and bad extent headers fail; otherwise the directory is searched by extents or direct blocks |
| `Ext4.Volume.NextComponent` | src/src/syncos/fs/ext4.c:570-578 | the component up to the next slash, cut to 255 bytes |
| `Ext4.Volume.FindInodeByPath` | src/src/syncos/fs/ext4.c:546-706 | the loops terminate and give exactly the walk over the path's components from inode 2 |
| `FormatModel.DigitsDecode` | src/src/kstd/stdio.c:91-100 | the digits decode to the number in every base from 2 to 16 |
| `FormatModel.DigitsFit` | src/src/kstd/stdio.c:87-100 | any 64-bit number fits the 64-byte digit buffer |
| `FormatModel.EmitCuts` | src/src/kstd/stdio.c:103-182 | every chunk but a brittle hex number, cut to any room, is that prefix of its full text |
| `FormatModel.LayoutFills` | src/src/kstd/stdio.c:103-182 | every number fills its room exactly, prefix or not, so the caller's capped advance lands behind it |
| `FormatText.NumberField` | src/src/kstd/stdio.c:103-182 | a number is a field of at least the width asked for: sign and prefix before the digits, blanks behind when left-justified, otherwise zeros between or blanks in front |
| `FormatText.StringField` | src/src/kstd/stdio.c:186-226 | a string is cut at the precision and padded to the width behind it, or in front of it with zeros or blanks |
| `FormatText.CharacterField` | src/src/kstd/stdio.c:452-478 | a character is padded with blanks, behind it when left-justified |
| `FormatText.DigitsAreNumeral` | src/src/kstd/stdio.c:83-100 | digits are below the base, in the letter case asked for, without leading zeros, and decode to the number |
| `FormatText.RoomForAll` | src/src/kstd/stdio.c:229-540 | with room for the whole text the whole text is written, brittle hex numbers included |
| `FormatModel.OutIsPrefix` | src/src/kstd/stdio.c:229-540 | without a brittle hex number the bounded text is the prefix of the full text |
| `FormatModel.PrefixesIff` | src/src/kstd/stdio.c:103-182 | the text for a smaller size is a prefix of the text for a larger one, for every two sizes, if and only if no chunk is a prefixed hex number other than zero without zero padding behind the prefix |
| `FormatModel.ReturnsFullLengthIff` | src/src/kstd/stdio.c:452-478 | the return value is the full length at every size if and only if no character chunk carries padding |
| `FormatParse.FormatDecidesChunks` | src/src/kstd/stdio.c:240-534 | a format yields a brittle hex number or a padded character exactly when one of its directives asks for it |
| `FormatParse.TruncationIsPrefixIff` | src/src/kstd/stdio.c:229-540 | truncation gives prefixes at every two sizes if and only if no %p and no '#' hex directive prints a number other than zero without zero padding behind its prefix |
| `FormatParse.HashHexIsCutBadly` | src/src/kstd/stdio.c:162-166 | the input that shows it: "%#x" of 10 gives "a" in one character and "0xa" in three |
| `FormatParse.LengthWhateverTheSizeIff` | src/src/kstd/stdio.c:229-540 | the return value is the untruncated length whatever the size if and only if no %c has a width above one |
| `FormatParse.PercentD` | src/src/kstd/stdio.c:357-388 | "%d" is the plain signed decimal of its argument |
| `FormatText.DirectiveReadsBack` | src/src/kstd/stdio.c:260-347 | flags, width, precision and length letters are read as they are spelled, stars from the arguments, wherever the directive stands |
| `FormatText.DirectiveShows` | src/src/kstd/stdio.c:356-533 | wherever a directive stands, its text is the signed decimal, the decimal, octal or hex numeral of the argument modulo its width, the string, the character, or itself behind a percent sign, in its field; it takes its arguments and the rest of the format follows |
| `FormatText.LiteralShows` | src/src/kstd/stdio.c:239-257 | any other character stands for itself, two percent signs for one, and the terminator ends the text |
| `FormatText.CountIsStored` | src/src/kstd/stdio.c:503-519 | %n behind plain text stores its length in the width its length letters ask for, whatever the room |
| `Formatter.ConvertDigits` | src/src/kstd/stdio.c:87-100 | the loop fills the 64-byte buffer with the digits in reverse and never overflows it |
| `Formatter.WriteNum` | src/src/kstd/stdio.c:81-183 | at most room characters are written, exactly the bounded layout, and the full length is returned |
| `Formatter.WriteString` | src/src/kstd/stdio.c:186-226 | at most room characters are written, the prefix of the padded text, and the full length is returned |
| `Formatter.WriteCharacter` | src/src/kstd/stdio.c:452-478 | padding and character as far as they fit; padding counts only as far as written |
| `Formatter.ReadDirective` | src/src/kstd/stdio.c:260-347 | flags, width, precision and length modifier as the loops read them |
| `Formatter.AppendNumber` | src/src/kstd/stdio.c:532-533 | after the capped advance the buffer holds the text so far and the counter its length |
| `Formatter.AppendConversion` | src/src/kstd/stdio.c:356-533 | each conversion puts out exactly its chunks and takes its argument; %n stores the count so far, cut to the width its length modifier names |
| `Formatter.FormatLoop` | src/src/kstd/stdio.c:239-534 | the whole loop puts out exactly the chunks the format parses into |
| `Formatter.Vsnprintf` | src/src/kstd/stdio.c:229-540 | nothing at or past size is written, the text is NUL-terminated, text, stored counts and return value are those of the parsed chunks; -1 and no write for null or zero size |
| `Decimal.ComputeAtoi` | src/src/kstd/string.c:185-209 | the loops compute blanks, one sign and digits; overflow of int is the only way not to return |
| `Decimal.AtoiReads` | src/src/kstd/string.c:185-209 | blanks, tabs and newlines, an optional sign, zeros, the digits of n and a non-digit read back as n with that sign, or overflow |
| `Decimal.NonNegativeReadsBack` | src/src/kstd/stdio.c:81-183 | a non-negative int printed under any width and flags reads back as itself |
| `Decimal.PrintedReadsBackIff` | src/src/kstd/stdio.c:357-388 | printing an int and parsing it gives it back if and only if it is not INT_MIN and, when negative, no blanks separate sign and digits |
| `Decimal.PercentDReadsBackIff` | src/src/kstd/string.c:185-209 | atoi of what "%d" puts into enough room gives the int back if and only if it is not INT_MIN |
| `InternetChecksum.FoldIsModulo` | src/src/syncos/net/net.c:118-120 | the fold loop is reduction modulo 65535, with zero only for zero |
| `InternetChecksum.SumBound` | src/src/syncos/net/net.c:107-116 | the sum is at most 65535 per word, so 32 bits hold it for any 16-bit length |
| `InternetChecksum.SumIsWeighted` | src/src/syncos/net/net.c:107-116 | the sum counts bytes at even positions once and at odd positions 256 times, an odd last byte included |
| `InternetChecksum.ChecksumIs` | src/src/syncos/net/net.c:106-123 | the checksum of any buffer in closed form: 65535 for zeros, otherwise the complement of that sum modulo 65535 |
| `InternetChecksum.SumWithWord` | src/src/syncos/net/net.c:269-270 | storing a word in a zeroed field adds exactly that word to the sum |
| `InternetChecksum.StoredChecksumVerifies` | src/src/syncos/net/net.c:106-123 | storing the checksum in its zeroed field makes recomputation give 0 |
| `InternetChecksum.VerifiesIff` | src/src/syncos/net/net.c:106-123 | a buffer verifies exactly when its word sum is a positive multiple of 65535 |
| `InternetChecksum.CalculateChecksum` | src/src/syncos/net/net.c:106-123 | both loops terminate, no 32-bit step overflows, and the result is the complement of the folded sum |
| `InternetChecksum.SealHeader` | src/src/syncos/net/net.c:269-270 | the sealed IPv4 header recomputes to 0 and no other byte changes |

## Left out

- CR3 writes, TLB flushes, page faults, CPUID and context-switch assembly: hardware effects.
- `vmm_map_physical`, kernel areas in `vmm_allocate`, and addresses at or above `hhdm_offset`: lookup takes the direct map there, so the flat map does not cover them.
- Virtual and physical range arithmetic near 2^64: ranges are lower-half, and bulk ranges are assumed not to wrap.
- Calls before `pmm_init`, and memory-map entries whose end exceeds 64 bits.
- `process_execute`, ELF loading, stacks, and freeing the resources of a terminated process.
- Priorities, statistics and process listing: easy members only.
- `nvme_wait_for_completion`, reads, writes and identify: they bypass or reset the ring discipline.
- TCP handling, HTTP and the TCP checksum in net.c.
- Mounting's superblock reading, unmounting, `ext4_open` and the device wrappers; concurrent callers, since these functions take no lock.
- sata.c, pci.c, e1000.c, serial.c, pic.c, gdt.c, idt.c, isr.c, keyboard.c, mouse.c, timer.c, irq.c, spinlock.c, elf.c: register programming, or easier members.
- All logging and debug dumps.
- MappingLaws.MapLarge: no 1 GiB leaf on the path, because map_page_internal does not test for huge leaves before it descends.
- MappingLaws.MapSmall: only where no huge leaf is on the path; MapPremises.MapTakesEffect says what happens there.
- MapPremises.MapTakesEffect: under a huge leaf, the mapped memory must not itself be a table or, under a 1 GiB leaf, hold words that point at tables; the map would then overwrite tables.
- BulkMapping.MapPagesOutcome: no step of the 2 MiB loop may be 1 GiB aligned on both sides; BulkMapping.OneBlockKeepsToRangeIff says what happens to a single block that is.
- AccessRights.MapGivesRights: the links of lower halves must be open to start with, as those the manager writes are; a boot loader's links may be narrower, and then the rights are narrower.
- BulkMapping.HugeEqualsSmall: does not say that the two forms succeed together, because they need different numbers of table frames.
- SchedulerLaws.StepKeeps: the idle process is assumed never to call process_block.
- CompletionRing.ConsumedIsPrefix: a ring of 2 to 65536 entries and a device that respects the head doorbell.
- CompletionQueue.Queue.ProcessCompletions: a post between the last loop test and the doorbell write counts as coming after the call.
- InodeTable.WriteInodeShows: inode size at least 160 and dividing the block size, tables of different groups disjoint, a group's table below 4 GiB.
- Directories.WalkIsResolve: bytes behind the end of a directory block or inode read as zero, where the source would read past its buffer; the equality with the lookup is for walks in which every read and allocation succeeds.
- FormatText.DirectiveShows: a width given as digits is not 0, star arguments are ints, and a percent sign does not end a directive with flags or width.
- Formatter.AppendConversion: the counts `%n` stores are returned as pairs of argument and value; that the pointer may alias the buffer is not modelled.
- Formatter.Vsnprintf: widths, precisions and lengths are unbounded, so int overflow of them is not modelled; the magnitude of INT64_MIN is taken as 2^63.
- Decimal.ComputeAtoi: int overflow, undefined in C, is modelled as no result.
- FlatRefinement.StartIsSound: an empty top table; FlatRefinement.AnyStateIsSound covers the boot loader's tables that vmm_init keeps.
- UserMemory.AllocateFailsWhen: one way only; how many table frames an allocation needs between none and three per page depends on the tables that already exist.
