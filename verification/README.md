# ZenithOS, modelled and proved

This project models the memory-management, scheduling, loading and file-lookup core of the ZenithOS
x86_64 kernel in Dafny and proves what that core is for. `dafny verify dfyconfig.toml` checks all of it.

Code that changes things in place is imperative here too: the bitmap is a byte array, the page allocator,
the address spaces, the heap, the area table, the scheduler, its tasks and mutexes and the ramfs nodes are
objects whose methods are proved against a value (a set of free frames, a snapshot of all page tables, a
list of blocks, an abstract scheduler state, a directory tree). The theorems are about those values.

| file | what it holds |
|---|---|
| `Bitmap.dfy`, `Pmm.dfy` | packed bitmap; page allocator with hint and counters; `pmm_init` |
| `PageBits.dfy` | page-table words and their fields |
| `PageTree.dfy` | four-level tables as a value, the ownership tree, what each kind of write does to every address |
| `PageTable.dfy` | the allocating walk and `page_table_map`, `map_user`, `unmap`, `translate`, `create` |
| `AddressSpaceRuns.dfy` | coherence, isolation and user access of address spaces over any run of those calls |
| `Vma.dfy`, `DemandPaging.dfy` | area table; page-fault handling |
| `HeapBlocks.dfy`, `HeapLinks.dfy`, `HeapPages.dfy`, `Heap.dfy` | the block list as a value; headers and live bytes; the frames under the heap; `kmalloc`, `kfree`, `krealloc` |
| `SchedulerModel.dfy`, `SchedulerInvariant.dfy`, `SchedulerRuns.dfy` | scheduler and mutexes as a step system, its invariant, theorems over runs |
| `SchedulerCalls.dfy` | what each call does to the state; sleeping, slices and mutex lines over runs |
| `MutexWindow.dfy` | timer ticks in the window of `mutex_lock` |
| `TaskQueue.dfy`, `Scheduler.dfy` | intrusive lists; the scheduler over linked tasks, refining the step system |
| `Elf.dfy`, `ProcessLoading.dfy`, `ProcessExec.dfy` | the flat ELF loader into the kernel heap, the page-wise one, and `process_exec` with their agreement |
| `Path.dfy`, `RamfsModel.dfy`, `Ramfs.dfy` | path splitting, directory trees, ramfs and `vfs_lookup` |
| `Line.dfy` | `draw_line` |
| `Options.dfy` | a value or none |

Some promises turn out not to hold as one would state them, and are proved in their exact form.

- `ProcessExec.Exec` with the example `ProcessExec.ClashHappens`, reached by `ProcessExec.ClashReached`: a
  successful `process_exec` leaves the kernel heap valid, and the kernel and the process reading the same file,
  if and only if no loaded page is a committed heap page that the process's root shares with the kernel. Nothing
  in the code checks the addresses of segments; `ProcessExec.LowNeverClashes` and
  `ProcessExec.CreatedRootSeesHeap` say when the condition holds and when it is just about addresses.
- `HeapPages.CommitFrame` with the example `HeapPages.LossHappens`: growing the heap loses a frame if and only
  if one was free and the page could not be mapped.
- `Heaps.Heap.Kmalloc`: the block is as large as asked if and only if the size plus 15 does not wrap.
- `MutexWindow.WindowResume` with the run `MutexWindow.WindowReached`: whatever number of timer ticks falls
  between mutex.c:51 and mutex.c:53, the waiter is resumed the right way if and only if its slice does not end
  at one of them; with mutex.c:48-53 as one step it always is.
- `DemandPaging.FilledSeenBy` with the example `DemandPaging.HandledNotCured`: a handled fault helps a process
  if and only if it shared the slot with the kernel or had the page before.
- `SchedulerCalls.SleepsLongEnough`, `WakesInTime` and `SleptAsAsked`: sleep(n) lasts exactly n ticks, at least one,
  unless the counter plus n wraps, and exactly when it then lasts otherwise is stated.
- `Pmms.RegionExact`: the pages attributed to a region are those with a byte of it, except that the last one is
  missed if and only if the region starts so far inside a page that it reaches into one page more than its
  length alone fills.
- `Vmas.CoversIffNoWrap` with `Vmas.WrappingAccepted`: an area covers the addresses it was asked for if and
  only if its end does not wrap, and a wrapping request is accepted.
- `Pmms.Pmm.AllocPageInterrupted`: a tick between the last test and the set lets two tasks get the same page.
- `RamfsModel.PathAdded` with the example `RamfsModel.RefusalChanges`: adding a node also changes the error
  code of paths that go through it to an over-long component.

Modelling decisions. Physical memory is a map from frame to 512 entries for tables and to 4096 bytes for
data, reached through a fixed HHDM; the frames behind the heap's pages hold the heap's bytes by their virtual
address. The bootloader's tables are assumed to be a tree of frames that are not free, with the low address
bits of large pages clear. One processor; sections under the scheduler's and the mutex's guard are atomic; the
timer interrupt and the exit path of the interrupt entry are one step. The page allocator, the page tables, the
area table, the heap and the ramfs take no lock although kernel tasks are preempted: apart from
`AllocPageInterrupted`, the results about them are for calls that run to their end before another one starts.
The idle task exists, a task is added once, `scheduler_unblock` is called on tasks of the blocked queue or by
the mutex hand-off, and only kernel tasks are scheduled. Only live pointers are freed. Both ELF loaders need
file contents inside the file and ends that do not wrap, also when rounded up to a page; the flat one, file
contents that end inside the image; `process_exec`, no page claimed twice. The agreement of the loaders is for
page-aligned segments with no more file than memory. Whether the heap serves a new ramfs node is a parameter of
the operations that ask for it.

## Model

| member | source | states |
|---|---|---|
| Bitmaps.Bitmap.Init | kernel/src/mm/bitmap.c:6-17 | all of the first n bits become set, whatever the buffer held |
| Bitmaps.Bitmap.Set | kernel/src/mm/bitmap.c:19-25 | exactly this bit leaves the set of clear bits |
| Bitmaps.Bitmap.Clear | kernel/src/mm/bitmap.c:27-33 | exactly this bit becomes clear, and none past the end |
| Bitmaps.Bitmap.Test | kernel/src/mm/bitmap.c:35-41 | true exactly for bits that are not clear, so also past the end |
| Pmms.Pmm.MarkUsed | kernel/src/mm/pmm.c:57-69 | exactly this page stops being free; exact counters and a sound hint stay so |
| Pmms.Pmm.MarkFree | kernel/src/mm/pmm.c:71-86 | exactly this page becomes free unless it is page 0 or too high; counters and hint stay right |
| Pmms.Pmm.ReserveRegion | kernel/src/mm/pmm.c:88-100 | takes exactly the pages of the region's page interval |
| Pmms.Pmm.UnreserveRegion | kernel/src/mm/pmm.c:102-114 | releases exactly the existing non-zero pages of the interval |
| Pmms.Pmm.SeekNextFree | kernel/src/mm/pmm.c:156-162 | the hint moves to the next free page and skips none |
| Pmms.Pmm.AllocPage | kernel/src/mm/pmm.c:206-236 | under the invariant: the lowest free page, NULL exactly when none is free, and the invariant and accounting are kept; from any hint: what the two passes find |
| Pmms.Pmm.FindFree | kernel/src/mm/pmm.c:208-221 | the search alone: from any hint what the two passes find, under the invariant the lowest free page, found exactly when one is free |
| Pmms.Pmm.AllocPageInterrupted | kernel/src/mm/pmm.c:218-231 | another call between the last bitmap_test and the bitmap_set gets the very same page |
| Pmms.Pmm.SecondPassEmpty | kernel/src/mm/pmm.c:213-233 | below the hint nothing is free, and if the counter is positive the first pass finds a page |
| Pmms.Pmm.FreePage | kernel/src/mm/pmm.c:238-241 | exactly that page becomes free and the invariant is kept |
| Pmms.Pmm.Conservation | kernel/src/mm/pmm.c:57-86 | free pages plus used pages is the number of usable pages, in every valid state |
| Pmms.Pmm.MarkUsable | kernel/src/mm/pmm.c:132-154 | the free pages are exactly the non-zero pages of usable regions |
| Pmms.Pmm.ReserveKind | kernel/src/mm/pmm.c:116-130 | takes exactly the pages of the regions of one kind |
| Pmms.Pmm.Init | kernel/src/mm/pmm.c:258-350 | succeeds exactly when the pages fit the bitmap; then a page is free iff it is non-zero, usable and in no reserved interval, and all counters are exact; on an aligned map iff it has a byte of usable memory and none of the kernel or of a reserved region |
| Pmms.UsableFits | kernel/src/mm/pmm.c:258-300 | on a map whose usable regions do not wrap, the derived page count cuts off no usable page |
| Pmms.TotalPagesTight | kernel/src/mm/pmm.c:271-300 | the derived page count is the least that covers every usable region |
| Pmms.RegionExact | kernel/src/mm/pmm.c:36-100 | in bytes, for any base and any length that does not wrap: a page is attributed to the region iff a byte of it lies there, except exactly the last page of a region that overhangs |
| Pmms.RegionAligned | kernel/src/mm/pmm.c:36-100 | from a page-aligned base: iff a byte of the region lies in the page |
| Pmms.RegionCovers | kernel/src/mm/pmm.c:36-100 | every byte of a region is in an attributed page iff it does not overhang |
| Pmms.InitInBytes | kernel/src/mm/pmm.c:258-350 | on an aligned map: the pages that init frees are the non-zero ones with a byte of usable memory and no byte of the kernel or of a reserved region |
| PageBits.DecodeTable | kernel/src/vmm/page_table.c:101-101 | the word for a lower table decodes to present, writable, not user, that frame |
| PageBits.DecodeLeaf | kernel/src/vmm/page_table.c:528-530 | the leaf word has the frame asked for if and only if the flags set no address bit outside it |
| PageBits.DecodeUserLeaf | kernel/src/vmm/page_table.c:580-580 | the user leaf word decodes to that frame and those flags |
| PageBits.UserLeafOpen | kernel/src/vmm/page_table.c:580-580 | the user leaf is the physical word as passed, made present and user, and writable iff that was asked for or bit 1 of the word was set; the other fields stay |
| PageBits.UserEntry | kernel/src/vmm/page_table.c:545-580 | as an entry: present, user, writable iff asked for (or bit 1 of the word), and the frame of the physical address |
| PageBits.MapEntry | kernel/src/vmm/page_table.c:528-530 | as an entry: present, not large, writable and user iff bits 1 and 2 of the flags are set, and the frame of the physical address if the flags set no address bit |
| PageBits.WordsInMemory | kernel/src/vmm/page_table.h:9-18 | the words for page 5 bit by bit, and one word decoded bit by bit |
| PageBits.DecodeSetUser | kernel/src/vmm/page_table.c:559-578 | OR with the user bit changes the user field only |
| PageBits.DecodeInjective | kernel/src/vmm/page_table.h:9-18 | a word is determined by its decoded fields |
| PageBits.FrameNumberOfPage | kernel/src/vmm/page_table.c:101-101 | every 40-bit page number survives being written into the address field of a word and read back |
| PageBits.WordsOfFrame | kernel/src/vmm/page_table.c:101-580 | the three words that the code builds for a frame of the allocator decode to the entries that the model writes |
| PageBits.EntrySetUser | kernel/src/vmm/page_table.c:559-578 | setting the user bit of a word sets the user field of its entry and nothing else |
| PageTrees.SamePage | kernel/src/vmm/page_table.h:21-24 | two addresses have the same four indices iff they agree on bits 12 to 47 |
| PageTrees.ReachUnique | kernel/src/vmm/page_table.c:224-377 | two walks end in one last-level table only with equal upper indices and a shared PML4 slot |
| PageTrees.WriteLeaf | kernel/src/vmm/page_table.c:504-536 | a last-level write keeps the tree and changes exactly that page, for exactly the roots that share its slot |
| PageTrees.LinkFresh | kernel/src/vmm/page_table.c:34-105 | linking a zeroed table into an absent entry changes no translation of any root and keeps the tree |
| PageTrees.SetUser | kernel/src/vmm/page_table.c:559-578 | opening an upper entry to user mode changes no translation and no walk |
| PageTrees.CopyRoot | kernel/src/vmm/page_table.c:395-427 | a copied root translates as the kernel does, shares exactly the present slots, and nobody else notices |
| PageTrees.SharedWithKernel | kernel/src/vmm/page_table.c:395-427 | a slot that two roots share is shared with the kernel |
| PageTrees.EnsureStepKeeps | kernel/src/vmm/page_table.c:34-105 | one level down: the tree stands, nothing is remapped, at most one frame is taken, the child hangs below the entry |
| PageTrees.UppersTransitive | kernel/src/vmm/page_table.c:34-583 | keeping every present upper entry, but for being opened to user mode, composes |
| PageTables.ReadWalkIsLookup | kernel/src/vmm/page_table.c:224-377 | the walk without create finds an entry exactly where the tables map the address, and that entry is the mapping |
| PageTables.WalkThenWrite | kernel/src/vmm/page_table.c:504-536 | a creating walk followed by the write changes exactly one page |
| PageTables.OpenPath | kernel/src/vmm/page_table.c:559-578 | the three upper entries end user-accessible with every translation unchanged |
| PageTables.UserLeaf | kernel/src/vmm/page_table.c:538-583 | after the user leaf is written every level of the path is present and user |
| PageTables.AddressSpaces.EnsureNextTable | kernel/src/vmm/page_table.c:34-105 | returns the existing child, or links a fresh zeroed frame taken from the free ones, or changes nothing |
| PageTables.AddressSpaces.PageWalk | kernel/src/vmm/page_table.c:224-377 | a read walk changes nothing and returns the pure walk; a creating walk remaps nothing, succeeds exactly when no large page is in the way and the frames suffice for the missing tables, and takes exactly those frames, or all there are |
| PageTables.AddressSpaces.Map | kernel/src/vmm/page_table.c:504-536 | for any words: succeeds exactly when there is room; success maps exactly the addresses that agree on bits 12 to 47, for the roots that share the slot, to the decoded word, which is writable and user as bits 1 and 2 of the flags say; failure changes no translation |
| PageTables.AddressSpaces.MapPage | kernel/src/vmm/page_table.c:585-599 | the same with the writable flag alone: a kernel page on that frame, writable iff asked for |
| PageTables.AddressSpaces.OpenToUser | kernel/src/vmm/page_table.c:559-578 | sets the user bit on the three upper levels, with every translation and the free frames unchanged |
| PageTables.AddressSpaces.MapUser | kernel/src/vmm/page_table.c:538-583 | as Map on any root and for any physical address word; on success every level of the path is present and user, and the page is writable for user mode iff that was asked for or bit 1 of the word is set |
| PageTables.AddressSpaces.Unmap | kernel/src/vmm/page_table.c:601-636 | succeeds exactly on a 4 KiB mapping, removes exactly that page, and otherwise changes nothing |
| PageTables.AddressSpaces.Translate | kernel/src/vmm/page_table.c:638-670 | an address in the frames of the mapping at the offset that va has in its page, at 4 KiB, 2 MiB and 1 GiB; 0 if there is none; and no change |
| PageTables.LeafAligned | kernel/src/vmm/page_table.c:638-670 | a 2 MiB or 1 GiB mapping starts at a multiple of its size, so that the OR of base and offset is their sum |
| PageTables.AddressSpaces.Create | kernel/src/vmm/page_table.c:395-427 | a fresh root that translates as the kernel and shares exactly its present slots; NULL only without frames |
| AddressSpaceRuns.RunEvolves | kernel/src/vmm/page_table.c:395-636 | in every run the tables stay a tree, roots and their present slots survive, and no two roots start to share |
| AddressSpaceRuns.Coherence | kernel/src/vmm/page_table.c:395-427 | in every later state of every run a process root and the kernel translate all addresses of a shared slot alike |
| AddressSpaceRuns.StaysPrivate | kernel/src/vmm/page_table.c:395-427 | a slot not shared at some point is never shared later |
| AddressSpaceRuns.IsolatedMapUser | kernel/src/vmm/page_table.c:538-583 | at any point of any run, map_user in a private slot changes that process's page and no other translation of any root |
| AddressSpaceRuns.IsolatedSlot | kernel/src/vmm/page_table.c:504-636 | in a private slot no call but the process's own map_user changes a translation |
| AddressSpaceRuns.CoherentSinceCreation | kernel/src/vmm/page_table.c:395-427 | a root made at any point of a run shares with the kernel, in every later state, exactly the slots the kernel had then, and translates them alike |
| AddressSpaceRuns.AccessByPath | kernel/src/vmm/page_table.c:538-583 | reading or writing over all four levels needs a leaf that lets user mode do it, and the path that map_user opens lets it read |
| AddressSpaceRuns.AccessGranted | kernel/src/vmm/page_table.c:504-583 | over any run a page that user mode can read (or write), at all four levels, had a leaf that let it at the start, or a call asked for that on this very page, with the bits for it, under that root or one sharing the slot |
| AddressSpaceRuns.AccessPrivate | kernel/src/vmm/page_table.c:538-583 | in a private slot user mode reads a page only after the process's own successful map_user of it, and writes one only after such a call with writable (or bit 1 in the physical word) |
| AddressSpaceRuns.AccessKept | kernel/src/vmm/page_table.c:504-636 | one call that leaves the leaf alone takes no access away, because it keeps all fields of present upper entries but for opening them to user mode |
| AddressSpaceRuns.AccessStays | kernel/src/vmm/page_table.c:395-636 | over any run a process keeps its access to a page in a private slot, for reading or writing, until it maps that page anew |
| AddressSpaceRuns.StepMap | kernel/src/vmm/page_table.c:504-536 | a call of page_table_map is a step of a run |
| AddressSpaceRuns.StepMapUser | kernel/src/vmm/page_table.c:538-583 | a call of page_table_map_user is a step of a run, with an open path on success |
| AddressSpaceRuns.StepUnmap | kernel/src/vmm/page_table.c:601-636 | a call of page_table_unmap is a step of a run |
| AddressSpaceRuns.StepCreate | kernel/src/vmm/page_table.c:395-427 | a successful page_table_create is a step of a run that records which slots the new root shares and that it translates as the kernel; a failed one changes nothing |
| Vmas.CollidesIffShared | kernel/src/vmm/vma/vma.c:22-55 | non-empty areas that collide share an address, and areas that share an address collide |
| Vmas.CoversIffNoWrap | kernel/src/vmm/vma/vma.c:22-55 | an area keeps start and flags, contains no address outside the request, and all of those inside iff its end does not wrap |
| Vmas.WrappingAccepted | kernel/src/vmm/vma/vma.c:22-67 | every wrapping request is accepted on the empty table, and vma_find then finds nothing at its start |
| Vmas.VmaTable.Create | kernel/src/vmm/vma/vma.c:22-55 | appends exactly when there is room and no area collides; no address is ever in two areas |
| Vmas.VmaTable.Find | kernel/src/vmm/vma/vma.c:57-67 | the one area that contains the address, or none does |
| Vmas.VmaTable.Destroy | kernel/src/vmm/vma/vma.c:107-129 | removes the first area with that start and keeps the others in order |
| Vmas.WithoutAt | kernel/src/vmm/vma/vma.c:107-129 | areas before the removed one stay, those after it move up by one |
| Vmas.VmaTable.Resize | kernel/src/vmm/vma/vma.c:131-164 | succeeds exactly when the area exists and its new extent collides with no other, empty ones included; then only its end changes, and unambiguity is kept |
| Vmas.ResizedAt | kernel/src/vmm/vma/vma.c:131-164 | a resize keeps the start, the flags and every other area, and the area then contains exactly the new range if it does not wrap |
| DemandPaging.HandlePageFault | kernel/src/vmm/demand_paging.c:10-79 | a fault that the areas allow is filled exactly when one frame more than the missing tables is free and no large page is in the way; then the page maps, for the kernel only, to a frame that was free and is all zero, every other frame taken is a new table, and no other translation, root, sharing or data changes; a refused fault changes no translation and no used frame, and takes only tables |
| DemandPaging.AfterMap | kernel/src/vmm/demand_paging.c:61-78 | both outcomes of the map call, with the data frame given back on failure, are outcomes of a fill |
| DemandPaging.FilledSeenBy | kernel/src/vmm/demand_paging.c:61-78 | after a filled fault a root sees the page iff it is the kernel root, shared the slot with it before the fault, or had the page already: a fault in a private slot of a process is not cured |
| DemandPaging.FilledAccess | kernel/src/vmm/demand_paging.c:61-66 | under every root that sees it the new page is writable and closed to user mode |
| DemandPaging.HandledNotCured | kernel/src/vmm/demand_paging.c:61-78 | a state in which every fault is handled and the process still does not see the page |
| HeapBlocks.AllocateKeeps | kernel/src/mm/heap.c:55-78 | taking a block keeps the tiling and maximal coalescing, and adds exactly one live block, inside the free one |
| HeapBlocks.AllocateCarves | kernel/src/mm/heap.c:55-78 | the block is cut to the size whenever a header fits behind it, the rest of it is one free block up to its old end, and every other block stays |
| HeapBlocks.LiveDetermines | kernel/src/mm/heap.c:22-152 | a gapless list without free neighbours is determined by its live blocks, so that what kmalloc, kfree and growth say about these fixes the whole list |
| HeapBlocks.ReleaseKeeps | kernel/src/mm/heap.c:430-444 | freeing keeps the tiling and maximal coalescing, and exactly that block stops being live |
| HeapBlocks.ExpandKeeps | kernel/src/mm/heap.c:232-283 | growth by a page keeps both, changes no live block and enlarges the free tail as stated |
| HeapBlocks.CoalesceIdle | kernel/src/mm/heap.c:139-152 | on a maximally coalesced list the coalescing pass changes nothing |
| HeapBlocks.Disjoint | kernel/src/mm/heap.c:22-37 | no address belongs to two blocks |
| Heaps.Heap.FindFreeBlock | kernel/src/mm/heap.c:39-53 | the first block that is free and large enough, or NULL if there is none |
| Heaps.Heap.SplitBlock | kernel/src/mm/heap.c:55-78 | the links spell the split list and no live byte changes |
| Heaps.Heap.MergeWithNext | kernel/src/mm/heap.c:80-107 | the links spell the merged list and no live byte changes |
| Heaps.Heap.MergeWithPrevious | kernel/src/mm/heap.c:109-137 | the same towards the previous block |
| Heaps.Heap.Coalesce | kernel/src/mm/heap.c:139-152 | the links spell the list coalesced from the head; live blocks and bytes are untouched |
| HeapPages.CommitFrame | kernel/src/mm/heap.c:176-193 | succeeds exactly when there is room; then the address maps to a frame that was free and is no page table; every frame that left the free set is a new table or that frame, except that one is lost iff the map failed and a frame was free; no other address of any root is remapped, and roots, their slots and the absence of sharing are kept |
| HeapPages.LossHappens | kernel/src/mm/heap.c:176-193 | a heap of 512 backed pages that fill one page table, with one free frame: committing page 512 loses the frame, and nothing else can happen |
| HeapPages.PagesBackedNext | kernel/src/mm/heap.c:176-193 | committing the next page keeps every committed page mapped to its own writable frame, and adds one |
| HeapPages.HeapAccess | kernel/src/mm/heap.c:176-193 | every heap page is mapped to its frame, writable and closed to user mode |
| HeapPages.GrewMore | kernel/src/mm/heap.c:220-230 | the account of frames taken, tables added and frames lost, and the claim that only the new heap pages are remapped under any root, compose over any number of pages |
| Heaps.Heap.CommitPage | kernel/src/mm/heap.c:176-193 | the heap's own pages stay backed, with the account of the frames; no address but the new page is remapped under any root |
| Heaps.Heap.Expand | kernel/src/mm/heap.c:232-283 | succeeds exactly when there is room: one more page at the end of the list, backed by its own frame, the account of the frames, no other address remapped under any root, and the heap's area resized if that is allowed; otherwise nothing changed in the list and the heap is stuck |
| Heaps.Heap.ResizeArea | kernel/src/mm/heap.c:274-277 | the heap's area gets the committed size exactly when it then collides with no other |
| Heaps.Heap.Grow | kernel/src/mm/heap.c:220-230 | for any size: exactly the pages needed to reach it are added, or as many as could be and the heap is stuck, with the account of the frames and nothing but the new pages remapped |
| Heaps.Heap.Kmalloc | kernel/src/mm/heap.c:342-370 | for any size word: a 16-aligned block, disjoint from all live ones, which keep their bytes; at least as large as asked iff the size plus 15 does not wrap, and at most a header larger than the aligned size, the rest of a larger fit staying free up to its end and every other block as it was; it is the first fit after the least number of added pages that makes one, at most PagesFor of the aligned size; terminates; NULL for a non-zero size only when still nothing fits and a frame could not be obtained or mapped; the frames taken are new tables and backing frames, except the one that a final failed attempt loses; only the new heap pages are remapped, under any root |
| HeapLinks.AlignWraps | kernel/src/mm/heap.c:156-160 | rounding a size word up to 16 gives a multiple at least as large iff the addition does not wrap, and 0 otherwise |
| HeapLinks.NotYet | kernel/src/mm/heap.c:342-370 | while no block fits, fewer pages than PagesFor(size) have been added |
| Heaps.Heap.Kfree | kernel/src/mm/heap.c:430-444 | exactly the freed block stops being live, merged with free neighbours; all other live bytes and both invariants are kept |
| Heaps.Heap.Krealloc | kernel/src/mm/heap.c:397-428 | a block that is large enough stays; otherwise the result holds the old contents, every other live byte is kept, and NULL, only when growth was impossible, leaves the old block as it was; the same size condition, account of frames and limit on remapping as kmalloc |
| Heaps.Heap.CopyIn | kernel/src/lib/memory.c:3-12 | inside a live block exactly the target range takes the source bytes |
| Heaps.Heap.ZeroFill | kernel/src/lib/memory.c:14-24 | inside a live block exactly the target range becomes zero |
| SchedulerInvariant.StepInv | kernel/src/scheduler/scheduler.c:203-669 | every step keeps: queues duplicate-free and holding exactly the tasks whose state names them, mutexes consistent, ready tasks resumable the way they were suspended, slice below 10 |
| SchedulerInvariant.InitialInv | kernel/src/scheduler/scheduler.c:181-201 | the state after scheduler_init satisfies the invariant |
| SchedulerInvariant.UnlockInv | kernel/src/sync/mutex.c:57-92 | the direct hand-off keeps the invariant |
| SchedulerInvariant.TickInv | kernel/src/scheduler/scheduler.c:387-669 | a whole timer interrupt keeps the invariant |
| SchedulerInvariant.RetryOwns | kernel/src/sync/mutex.c:15-55 | a task that is running again inside mutex_lock owns the mutex |
| SchedulerRuns.RunInv | kernel/src/scheduler/scheduler.c:203-669 | the invariant holds in every state of every run |
| SchedulerRuns.OnePlace | kernel/src/scheduler/queue.c:3-55 | no task is in two lists, although all lists share the next field |
| SchedulerRuns.SomePlace | kernel/src/scheduler/scheduler.c:203-453 | a task is in a list iff it is ready, blocked or sleeping; running iff current |
| SchedulerRuns.TerminatedForever | kernel/src/scheduler/task.c:78-98 | a terminated task never runs again |
| SchedulerRuns.SwitchOutRecorded | kernel/src/scheduler/scheduler.c:260-331 | the history of how tasks lose the processor is recorded by every step as it happens |
| SchedulerRuns.ResumeMatches | kernel/src/scheduler/scheduler.c:556-641 | in every run a ready task is resumed by the interrupt's frame iff it last lost the processor to a tick, and by its context iff to its own call |
| MutexWindow.WindowResume | kernel/src/sync/mutex.c:48-53 | any number of ticks inside the window stop the waiter exactly when its slice ends at one of them with a task ready or waking; the hand-off resumes it by context either way, which is right if and only if the slice does not end there |
| MutexWindow.AlikeTicks | kernel/src/sync/mutex.c:48-53 | the waiter in the window and the same task had it gone on running lose the processor at the same tick |
| MutexWindow.WindowReached | kernel/src/sync/mutex.c:48-53 | a run from the initial state to a state where one tick in the window loses the frame |
| SchedulerRuns.OwnerStays | kernel/src/sync/mutex.c:15-92 | no step but the owner's own unlock ends ownership |
| SchedulerRuns.OwnerStaysUntilUnlock | kernel/src/sync/mutex.c:15-92 | the same over any run |
| SchedulerRuns.LockReturns | kernel/src/sync/mutex.c:15-55 | mutex_lock returns only to the owner; otherwise the caller is blocked in the wait queue; after a hand-off it returns at once |
| SchedulerRuns.NoBarging | kernel/src/sync/mutex.c:15-55 | a newcomer joins the end of a non-empty wait queue and the owner does not change |
| SchedulerRuns.GrantsFollowArrivals | kernel/src/sync/mutex.c:57-92 | over every run the hand-offs are a prefix of the arrivals |
| SchedulerRuns.SleeperStep | kernel/src/scheduler/scheduler.c:387-429 | a sleeper leaves the sleep queue at a due tick and at no other step, and is then ready or running |
| SchedulerRuns.SleepsUntilDue | kernel/src/scheduler/scheduler.c:387-429 | over every run: not before the first due tick |
| SchedulerRuns.WokenWhenDue | kernel/src/scheduler/scheduler.c:387-429 | over every run: at the first due tick |
| SchedulerRuns.StepNearer | kernel/src/scheduler/scheduler.c:224-669 | whatever any task does, a ready task keeps or lowers its budget of ticks, and every tick lowers it |
| SchedulerRuns.WaitingBound | kernel/src/scheduler/scheduler.c:521-669 | with a task running, the task at position k of the ready queue is dispatched within 10*(k+1) ticks, whatever the tasks do |
| SchedulerCalls.YieldEffect | kernel/src/scheduler/scheduler.c:260-331 | the caller goes to the end of the ready queue, to be resumed by context; the head runs with a new slice; nothing else changes |
| SchedulerCalls.SleepEffect | kernel/src/scheduler/scheduler.c:407-424 | the caller joins the sleep queue, off the processor, with a wake-up time of ticks + n iff that does not wrap, and 2^64 less otherwise |
| SchedulerCalls.BlockEffect | kernel/src/scheduler/scheduler.c:338-358 | the caller joins the blocked queue, blocked and off the processor |
| SchedulerCalls.ExitEffect | kernel/src/scheduler/task.c:78-98 | the caller is terminated, off the processor and in no queue |
| SchedulerCalls.UnblockEffect | kernel/src/scheduler/scheduler.c:360-380 | a blocked task leaves its queue and is ready at the tail, to be resumed by context; any other is left alone |
| SchedulerCalls.AddEffect | kernel/src/scheduler/scheduler.c:203-222 | the new task is ready at the tail, to be started by context |
| SchedulerCalls.IrqEffect | kernel/src/scheduler/scheduler.c:556-574 | another interrupt only notes the frame and mode of the running task |
| SchedulerCalls.TickEffect | kernel/src/scheduler/scheduler.c:521-669 | a tick takes the processor away iff it is the tenth of the slice and a task is ready or wakes; then head in, interrupted task to the tail, resumable by that frame |
| SchedulerCalls.IdleEffect | kernel/src/scheduler/scheduler.c:234-331 | with no task on the processor a tick only wakes sleepers, and the idle loop's yield runs the head of the ready queue |
| SchedulerCalls.LockEffect | kernel/src/sync/mutex.c:15-55 | the owner goes on; on a free mutex the caller becomes the owner and goes on; otherwise it is blocked at the end of the line; no other mutex changes |
| SchedulerCalls.UnlockEffect | kernel/src/sync/mutex.c:57-92 | with nobody waiting the mutex is unlocked and has no owner; otherwise the first of the line owns it, is ready at the tail, and the line loses its head; a caller that is not the owner changes nothing; no other mutex changes |
| SchedulerCalls.ClockCounts | kernel/src/hal/pit.c:29-35 | over any run the clock counts the ticks modulo 2^64 |
| SchedulerCalls.SleepsLongEnough | kernel/src/scheduler/scheduler.c:387-429 | over any run a task that calls sleep(n) stays asleep while fewer than SleptTicks ticks have come |
| SchedulerCalls.WakesInTime | kernel/src/scheduler/scheduler.c:387-429 | and is ready or running right after the last of them |
| SchedulerCalls.SleptAsAsked | kernel/src/scheduler/scheduler.c:407-424 | SleptTicks is max(n, 1) in exactly the stated cases, among them whenever ticks + max(n, 1) does not wrap |
| SchedulerCalls.FullSlice | kernel/src/scheduler/scheduler.c:521-669 | over any run ten ticks lie between coming on the processor and losing it to a tick, and another task is then ready |
| SchedulerCalls.NextLockTakes | kernel/src/sync/mutex.c:15-92 | over any run, after the owner's unlock with nobody waiting the next mutex_lock returns to its caller at once, as owner |
| SchedulerCalls.WaiterServed | kernel/src/sync/mutex.c:48-92 | over any run the waiter at position k moves up with every unlock by an owner and is handed the mutex by unlock number k + 1 |
| SchedulerModel.DueMembers | kernel/src/scheduler/scheduler.c:387-405 | the sweep moves exactly the sleepers whose time has come and duplicates none |
| SchedulerModel.DueInOrder | kernel/src/scheduler/scheduler.c:387-405 | the sweep keeps the order of the sleepers |
| SchedulerModel.RemoveMembers | kernel/src/scheduler/queue.c:29-55 | removal takes out exactly the task and keeps the list duplicate-free |
| TaskQueues.Push | kernel/src/scheduler/queue.c:3-27 | the links spell the old list with the task at its end |
| TaskQueues.RemoveFrom | kernel/src/scheduler/queue.c:29-55 | the links spell the old list without the task, whose own link is cleared |
| Schedulers.Scheduler.ResetResumeState | kernel/src/scheduler/scheduler.c:116-125 | the task will resume by context, with no frame; nothing else changes |
| Schedulers.Scheduler.SwitchTo | kernel/src/scheduler/scheduler.c:136-179 | refines the dispatch of that task: current, running, new slice |
| Schedulers.Scheduler.AddTask | kernel/src/scheduler/scheduler.c:203-222 | refines DoAdd and keeps the invariant |
| Schedulers.Scheduler.Schedule | kernel/src/scheduler/scheduler.c:234-258 | refines Dispatch: the head of the ready queue, or idle |
| Schedulers.Scheduler.Yield | kernel/src/scheduler/scheduler.c:260-331 | refines Yield over the linked queues |
| Schedulers.Scheduler.Block | kernel/src/scheduler/scheduler.c:338-358 | refines DoBlock and keeps the invariant |
| Schedulers.Scheduler.Unblock | kernel/src/scheduler/scheduler.c:360-380 | refines DoUnblock on any task that is not waiting in a mutex queue: a blocked one becomes ready, any other is left alone; the invariant is kept |
| Schedulers.Scheduler.Sleep | kernel/src/scheduler/scheduler.c:407-424 | refines DoSleep and keeps the invariant |
| Schedulers.Scheduler.Exit | kernel/src/scheduler/task.c:78-98 | refines DoExit and keeps the invariant |
| Schedulers.Scheduler.CheckSleepingTasks | kernel/src/scheduler/scheduler.c:387-405 | the loop that removes while it iterates is the sweep: later sleepers stay in order, due ones join the ready queue in order |
| Schedulers.Scheduler.PopReady | kernel/src/scheduler/scheduler.c:436-453 | takes the head, clears its link and leaves the tail |
| Schedulers.Scheduler.SaveInterruptContext | kernel/src/scheduler/scheduler.c:556-574 | refines Save: the running kernel task, and only it, gets the frame and interrupt mode |
| Schedulers.Scheduler.SwitchInInterrupt | kernel/src/scheduler/scheduler.c:576-669 | refines Preempt: the interrupted task to the tail, the head takes over |
| Schedulers.Scheduler.TimerInterrupt | kernel/src/hal/pit.c:29-35 | refines DoTick and keeps the invariant |
| Schedulers.Scheduler.Lock | kernel/src/sync/mutex.c:15-55 | refines DoLock and keeps the invariant |
| Schedulers.Scheduler.Retry | kernel/src/sync/mutex.c:22-54 | refines the next turn of the loop |
| Schedulers.Scheduler.Unlock | kernel/src/sync/mutex.c:57-92 | refines DoUnlock: hand-off to the first waiter, or release |
| Elfs.Scan | kernel/src/elf/elf_loader.c:56-85 | the tightest interval around the loaded segments |
| Elfs.AcceptedExactly | kernel/src/elf/elf.c:8-38 | exactly the version 1 headers of 64-bit little-endian x86-64 executables pass, in the numbers of the gABI |
| Elfs.CopyBytes | kernel/src/lib/memory.c:3-12 | exactly the target range takes the source bytes |
| Elfs.ZeroBytes | kernel/src/lib/memory.c:14-24 | exactly the target range becomes zero |
| Elfs.PlaceSegments | kernel/src/elf/elf_loader.c:108-132 | every image byte ends as the byte of the last segment that writes it, file bytes then zeros, overlaps included; the rest of the block, and everything outside it, is left |
| Elfs.LoadImage | kernel/src/elf/elf_loader.c:41-134 | EINVAL exactly for a bad header; ENOMEM only when the heap cannot grow or the image has no bytes, and always in the latter case; otherwise the tightest image with every byte from its last writer, in one new live heap block; no other live byte changes, and the heap grows with the account of its frames |
| Elfs.FlatHolds | kernel/src/elf/elf_loader.c:108-132 | without overlaps the image holds every segment whole |
| Elfs.SaneFits | kernel/src/elf/elf_loader.c:56-132 | page-aligned segments with no more file than memory and no wrap meet what both loaders rely on |
| ProcessLoading.FillPage | kernel/src/process/process_loader.c:49-84 | the page holds its part of the segment, file bytes then zeros, and bytes past both file and memory are left |
| ProcessLoading.MapSegmentPage | kernel/src/process/process_loader.c:28-89 | exactly when there is room, the page is mapped for user mode to a frame that was free, is no page table and holds it, and only that page is remapped, for the root and those that share the slot; otherwise the frame is given back and nothing is remapped |
| ProcessLoading.MapSegment | kernel/src/process/process_loader.c:9-93 | on success all pages are backed, each by its own frame; always: the frames taken are those and new page tables, exactly the loaded pages may be remapped, and only for the root and those that share the slot |
| ProcessLoading.MapSegments | kernel/src/process/process_exec.c:25-41 | the same for all segments: no frame serves two pages, the frames taken are exactly those and new page tables, and every page loaded is open to user mode and writable iff bit 1 of its segment's flags is set, in every outcome |
| ProcessExec.SeesSegment | kernel/src/process/process_loader.c:24-89 | through the page tables the process reads byte j of the segment j bytes after the start of its first page, which for a page-aligned segment is its own address |
| ProcessExec.BackedAgrees | kernel/src/process/process_exec.c:25-45 | while the heap's pages are backed: for every byte of every segment the process's view through its tables, the kernel's view of the flat image through its own, and the file agree |
| ProcessExec.ReadsHeap | kernel/src/mm/heap.c:176-193 | while its pages are backed the kernel reads every heap byte at its address through its own tables |
| ProcessExec.HeapKept | kernel/src/process/process_loader.c:38-43 | without a clash loading keeps every heap page on its frame |
| ProcessExec.HeapBroken | kernel/src/process/process_loader.c:38-43 | with a clash a heap page maps to a user page of the process |
| ProcessExec.PagesDisjointBytes | kernel/src/elf/elf_loader.c:108-132 | page-disjoint segments never overlap in the flat image |
| ProcessExec.DisjointRangesOwnPages | kernel/src/process/process_loader.c:24-36 | segments below 2^48 with disjoint page ranges claim no page twice |
| ProcessExec.Load | kernel/src/process/process_exec.c:16-41 | the two loaders in turn: the heap stays valid iff no loaded page clashes with it, the loaders then agree on success, and every frame is accounted for |
| ProcessExec.Exec | kernel/src/process/process_exec.c:11-75 | every outcome: the heap stays valid iff no loaded page is a committed heap page in a slot shared with the process's root; live heap bytes are kept; every loaded page is open to user mode, and writable iff its segment's flags say so; only new heap pages and loaded pages are remapped, the latter only for the process and roots that share the slot; no used frame is written; every frame taken is a new table, backs one new heap page or one loaded page, or is the one a failed heap page loses. Success on a valid heap: process, kernel and file agree on every byte, the entry is mapped, the process is set up. ENOMEM after the image was placed: its block stays live and the process is unchanged, so nothing refers to it |
| ProcessExec.Enter | kernel/src/process/process_exec.c:43-68 | the image and entry are recorded, EINVAL exactly when the entry is not mapped, otherwise the registers are set; no table changes |
| ProcessExec.LowNeverClashes | kernel/src/process/process_exec.c:25-41 | a file below 2^47 clashes with no heap page |
| ProcessExec.CreatedRootSeesHeap | kernel/src/vmm/page_table.c:395-427 | a root made after heap_init shares the heap's slot, so for it a clash is just a loaded page that is a heap page |
| ProcessExec.ClashHappens | kernel/src/process/process_exec.c:25-45 | a one-page file at the heap's start, which both loaders accept: once loaded, the heap is no longer valid and the kernel and the process read different bytes |
| ProcessExec.ClashReached | kernel/src/process/process_loader.c:28-89 | loading that file with one free frame ends in such a state |
| Paths.SplitAtSlash | kernel/src/fs/path.c:3-32 | the text before and after any slash splits on its own |
| Paths.ExtraSlashes | kernel/src/fs/path.c:8-11 | doubled, leading and trailing slashes never matter |
| Paths.SplitJoin | kernel/src/fs/path.c:3-32 | splitting the '/'-join of components gives them back |
| Paths.NextComponent | kernel/src/fs/path.c:3-32 | 0 exactly at the end, -1 exactly for a component of more than 63 characters, otherwise the next component and the cursor after it |
| RamfsModel.WalkIsFold | kernel/src/fs/vfs.c:83-134 | without over-long components the lookup is the fold of directory lookup |
| RamfsModel.WalkTooLong | kernel/src/fs/vfs.c:83-134 | with one, EINVAL iff everything before it resolves, else ENOENT |
| RamfsModel.PathUnique | kernel/src/fs/ramfs.c:98-221 | no node has two paths |
| RamfsModel.AddedWellFormed | kernel/src/fs/ramfs.c:98-221 | adding keeps parents, distinct names, childless files and the limit of 64 |
| RamfsModel.AddedNode | kernel/src/fs/ramfs.c:98-221 | the new node has the kind, name and directory asked for and is empty and the last child; no other node changes |
| RamfsModel.AddsInside | kernel/src/fs/ramfs.c:98-221 | names can be added below the new node iff it is a directory |
| RamfsModel.ResolveAdded | kernel/src/fs/ramfs.c:98-221 | exactly the component lists spelling directory plus name change meaning, from none to the new node |
| RamfsModel.PathAdded | kernel/src/fs/ramfs.c:98-221 | in terms of paths: exactly parent plus name finds the new node, and the only other change is the error code of paths through it to an over-long component |
| RamfsModel.MkdirThenCreate | kernel/src/fs/ramfs.c:98-221 | after mkdir and create inside, the two paths find the directory and the file, and found nothing before |
| RamfsModel.RefusalChanges | kernel/src/fs/vfs.c:83-134 | a concrete path that does not spell the new node and whose error code changes |
| Ramfses.Ramfs.constructor | kernel/src/fs/ramfs.c:32-64 | an empty root directory |
| Ramfses.Ramfs.Lookup | kernel/src/fs/ramfs.c:66-96 | the first child of that name, or none |
| Ramfses.Ramfs.Add | kernel/src/fs/ramfs.c:98-221 | which status, exactly; on success the tree with the one node added, else the tree unchanged |
| Ramfses.Ramfs.Mkdir | kernel/src/fs/ramfs.c:98-161 | succeeds iff the name may be added and the heap serves it; then the new node is a directory in which every name can be added next |
| Ramfses.Ramfs.Create | kernel/src/fs/ramfs.c:163-221 | the same for a file, below which nothing can be added |
| Ramfses.VfsLookup | kernel/src/fs/vfs.c:83-134 | the walk over the split path, with ENOENT before anything is mounted |
| Lines.DrawLine | kernel/src/graphics/graphics.c:34-69 | max(dx, dy)+1 pixels from start to end, the longer axis advancing every time, each within half a unit of the ideal line, and a bound on 2*err |
| Lines.StepKeeps | kernel/src/graphics/graphics.c:58-67 | every pass advances the longer axis and keeps the deviation bound |
| Lines.AtEnd | kernel/src/graphics/graphics.c:55-56 | the loop is at the end point exactly after max(dx, dy) passes, and never past it |
| Lines.DoubledError | kernel/src/graphics/graphics.c:58-58 | 2*err is at most three times the longer side less twice the shorter |

## Left out

- User tasks in the scheduler (first entry, resume by hardware frame, CR3 and RSP0): only kernel tasks are scheduled.
- Hardware: GDT, IDT, TSS, PIC, PIT and APIC programming, port I/O, assembly context switching, TLB invalidation.
- Spinlocks and memory ordering between processors: guards are atomic sections on one processor.
- GUI, fonts, terminal, mouse, keyboard, logging and dump functions.
- ramfs_read and ramfs_write, file descriptors, the process list, process_exec_file.
- Null-pointer arguments of the C functions, and checks of the HHDM address for null.
- kcalloc, heap_init's own mapping of the first page (the heap starts with one committed page and its area), and heap statistics.
- page_table_init: the boot tables are a constructor argument that has to be a tree.
- The scheduler's pending task and preemption request are local to the interrupt step that sets and consumes them.
- Reading ELF header fields out of the file's bytes: headers are given as records.
- Schedulers.Scheduler.Unblock: not called on a task that waits in a mutex queue, which the code would make ready while it is still queued there.
- Elfs.PlaceSegments: segments whose end wraps or whose file contents reach past the buffer, for which the code writes outside it, are excluded.
- Elfs.LoadImage: excludes the same segments, and images of more than 2^64 - 16 bytes, for which kmalloc returns a smaller block.
- ProcessLoading.MapSegments: segments that claim a page twice, where the later one replaces the earlier one's page, are excluded.
- ProcessExec.Exec: excludes what LoadImage and MapSegments exclude; the file is a value, so that a file kept in a heap page which loading remaps is not followed any further; the eight code bytes that are printed are not read.
- Lines.DrawLine: clipping and colour are the framebuffer's; coordinates are unbounded integers, so the claim is for end points whose doubled error fits an int.
- Ramfses.Ramfs.Add: names of 64 or more characters, which overflow the name field, are excluded.
