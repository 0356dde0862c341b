# The memory manager of a 64-bit teaching kernel, verified

This project models the memory manager of a small x86-64 kernel (written in C) and proves what it keeps and what it
promises. Four layers are modelled as mutable state, in the form the kernel gives them, and two smaller parts beside
them:

| file | what it models |
|---|---|
| `Bits.dfy`, `Paging.dfy` | the C operators `<< >> & \|` on unbounded naturals, and on top of them the address, index and entry macros and 64-bit rounding |
| `FreeList.dfy` | the free list as a sequence of nodes of 1 or 512 frames, and what allocation, release, split and merge do to it |
| `PhysicalMemory.dfy` (module `Frames`) | the table of page descriptors with the doubly linked free list threaded through it, and the contents of the frames |
| `Boot.dfy` | setting the list up from the memory map and forming the first huge nodes |
| `Tree.dfy`, `PageTables.dfy` | four-level page tables stored in the frames the allocator hands out, with reference counts |
| `KernelMap.dfy`, `KernelSpace.dfy` | the kernel's own address space: its root table in boot memory and the static mappings of `mem_init`, and what it then shows at every address |
| `VmaSpec.dfy`, `VmaList.dfy` | the list of virtual memory areas of an environment, in a fixed pool of 128 nodes |
| `VmaCalls.dfy` | what the two area system calls and the loading of a program do to that list, as functions on its contents |
| `Views.dfy`, `Kernel.dfy` | demand paging, program loading and the two area system calls, which tie the layers together |
| `Budget.dfy` | what operations on one address space cost in free frames, and what they leave alone |
| `ProgramView.dfy` | what a loaded program reads: its file where its headers say so, zeros everywhere else it may go |
| `Startup.dfy` | memory set-up, the kernel's page tables, one environment with its program, any run of it, and its teardown |
| `EnvTable.dfy` | the table of environments and their identifiers |
| `LibString.dfy`, `Printfmt.dfy` | `memmove`, `strtol`, and number printing into a bounded buffer |

## How to read it

State that the kernel updates in place is a class with the same fields and ghost fields for its abstract value. Frame
numbers and positions in a pool serve as pointers, with `NIL` (-1) for the null pointer.

* `Frames.PhysicalMemory.Valid` says that the descriptors thread exactly the nodes of the ghost list `free` in both
  directions, and that these nodes and the allocated blocks `owned` tile physical memory. Every method of the class
  keeps it and states the new list with the functions of `FreeList.dfy`, about which the theorems are proved.
* `PageTables.PageTables.Valid` adds a ghost tree: which regions of which address space have a table and which have an
  entry. It says that memory holds this tree word for word, that no frame serves as two tables or as a table and a page,
  and that the reference count of every frame equals the number of places of all trees that refer to it, where the
  reference an address space holds on its own root table counts as one and static mappings and the kernel's root table
  are not counted. `Tree.Leaves()` is the flat view: a map from a region (a 4 KiB or 2 MiB page of one address space) to
  frame and permissions.
* `VmaList.VmaList.Valid` says that the list is a doubly linked chain of distinct nodes, and that the areas up to the first
  unused node, all that a lookup can see, are page-aligned, sorted and pairwise disjoint. `Contents()` is what all its
  nodes hold, used or not, in the order of the list: unused nodes keep stale bounds, on which the insertion depends. Every
  method gives the new contents as a function of the old ones.
* `Kernel.Env` joins the two. `Coherent` says that every page of the address space lies inside an area that a lookup finds
  and has that area's permissions. `View` is what the program sees: permissions and 4096 bytes for each mapped page.

Where the code does not do what its comments promise, the model follows the code, and the exact condition is proved,
together with an input at which it shows:

* `merge_after_free` forms a huge page only when the frame just freed is the aligned base and the list then reads base,
  base + 1, ..., base + 511 (`Frames.RunIsLinkedInOrder`). Frames given back in ascending order never merge
  (`FreeList.ReleaseUpNeverMerges`), so a block can be free as a whole and yet serve no huge allocation
  (`FreeList.FreeBlockNotMerged`).
* The three tests of `page_free` catch a page that is on the list and a page with references, but not a frame inside a
  huge block: after a merge its descriptor looks like that of an allocated page (`Frames.MergedFramesLookAllocated`).
  Giving back a page that passes them keeps the invariant exactly when it is an allocated block
  (`Frames.ReleaseIsSoundIff`, `Frames.PhysicalMemory.PageFree`); a second release of an upper frame of a merged block lets
  two allocations overlap (`FreeList.DoubleFreeOverlaps`).
* Inserting a page where it is already mapped, and nowhere else, is the identity on the free list exactly when giving it
  back would not merge it; otherwise 511 frames are lost (`FreeList.ReinsertionRestores`, `FreeList.ReinsertionLosesFrames`).
* A range found by `vma_get_vmem` is accepted by `vma_insert` at a visible place exactly when no area starts where it ends
  (`VmaSpec.PlacementFitsUnlessExact`). On such an exact fit the call succeeds, without granting anything, exactly when the
  walk of `vma_insert` accepts some place behind the visible areas, and otherwise it fails (`VmaSpec.RejectedIff`,
  `VmaCalls.CreateFailsIff`, `VmaCalls.ExactFitGrantsNothing`). As long as no exact fit has hidden a node, that is whether
  some unused node but the last ends at or before the place (`VmaSpec.TakesHiddenTidy`); a hidden node can block it, so
  that the same call fails the second time (`VmaCalls.ExactFitIsHidden`). Tables and areas stay coherent after
  `sys_vma_create` exactly when no such area was populated.
* `sys_vma_destroy` strictly inside an area is exact interval subtraction exactly when the last node of the list is unused,
  no other area starts at the end of the split one, and a page boundary lies in the range; otherwise the rear part is lost
  as well (`VmaCalls.DestroyMeaning`, `VmaCalls.SplitLosesTail`, `VmaCalls.OneByteLosesTail`).
* The rear part that a split keeps has lost its place in the file, as a null file address is passed for it: its pages read
  as zeros from then on (`ProgramView.RearPartReadsZero`).
* With no area at all `vma_get_vmem` does not test the size: the new range ends in user space exactly when there is an
  area or the size fits (`VmaSpec.EndsInUserSpace`).
* What `%d` and `%p` print is read back by `strtol` exactly when no blanks stand between the sign or prefix and the
  digits (`Printfmt.SignedBlanksAreNotRead`, `Printfmt.PointerBlanksAreNotRead`).

## Model

| member | source | states |
|---|---|---|
| `Paging.FrameAddressRoundTrip` | kern/pmap.h:80-91 | `pa2page` inverts `page2pa`, computed with shifts, for every frame |
| `Paging.IndicesAreFields` | inc/x86-64/paging.h:37-46 | the four shift-and-mask index macros are the four nine-bit digits of the 36-bit page number |
| `Paging.IndicesInjective` | inc/x86-64/paging.h:42-46 | addresses that agree in all four indices lie in the same page |
| `Paging.EntryRoundTrip` | inc/x86-64/paging.h:48-49 | an entry made by OR-ing address, permissions and the present bit gives back frame, permissions and flags under `PAGE_ADDR` and the flag tests |
| `Paging.EntryRights` | inc/x86-64/paging.h:48-49 | an entry has the write, user and no-execute bits of the permissions it was made of |
| `Paging.LowBitsArePerm` | inc/x86-64/paging.h:48-49 | permissions in the low twelve bits never reach into the address field |
| `Paging.RoundUpIsCeiling` | inc/types.h:28-40 | `ROUNDUP` is the least page boundary at or above its argument exactly when its addition does not wrap at 2^64, and 0 otherwise |
| `FreeList.CoveredExactlyOnce` | kern/pmap.c:939-959 | under the partition invariant every frame is covered by exactly one block, which is either on the list at one place or allocated |
| `FreeList.AllocateConserves` | kern/pmap.c:402-469 | an allocation takes exactly the frames it returns out of the weighted free total, a split loses none, and it fails only when no node that could serve it is left |
| `FreeList.ServedBySize` | kern/pmap.c:402-423 | an allocation is served by the first node of the wanted size if there is one; exactly that node leaves the list, so a small request leaves every huge node alone and a huge one every small node |
| `FreeList.ServedBySplit` | kern/pmap.c:414-457 | only when there is none does a small request take a huge node apart, namely the first: it gets the first frame, and the other 511 stand in front of the list in descending order; a huge request fails |
| `FreeList.ReleaseConserves` | kern/pmap.c:475-510 | a release adds exactly the frames of the block to the free total, whether or not it merges |
| `FreeList.ReleaseMeaning` | kern/pmap.c:475-510 | the list after a release: the block in front, or one huge node exactly when the block is the base of an aligned run whose other 511 frames follow it in ascending order |
| `FreeList.AllocateKeepsPartition` | kern/pmap.c:402-469 | after a successful allocation free nodes and allocated blocks still tile memory without overlap |
| `FreeList.ReleaseKeepsPartition` | kern/pmap.c:475-510 | the same after a release, merged or not |
| `FreeList.SplitKeepsPartition` | kern/pmap.c:425-457 | exchanging a free huge node for its first frame, allocated, and its other 511 frames, free, keeps the tiling |
| `FreeList.MergeKeepsPartition` | kern/lab1.c:157-180 | exchanging 512 small free nodes of an aligned run for one huge node keeps the tiling |
| `FreeList.MergeAnywhereKeepsPartition` | kern/lab1.c:47-73 | the same when the frames of the block are scattered over the list, as at boot |
| `FreeList.AllocateManyTakesHead` | kern/pmap.c:425-457 | with only huge nodes free, 512 small allocations take the first one apart, base first and then from the top down |
| `FreeList.SplitThenMergeRestores` | kern/lab1.c:123-181 | taking a huge node apart with 512 small allocations and releasing the frames in descending order restores the free list exactly |
| `FreeList.ReinsertionRestores` | kern/pmap.c:727-753 | releasing a block and taking its node off again restores the list exactly when the release does not merge, and costs 511 frames when it does |
| `FreeList.ReinsertionLosesFrames` | kern/pmap.c:727-753 | the loss at work: re-inserting the base of any block, with its other frames at the head of the list, takes the whole block off the list |
| `FreeList.ReleaseUpNeverMerges` | kern/lab1.c:123-181 | frames of a block given back in ascending order end up on the list one by one, whatever else is on it |
| `FreeList.FreeBlockNotMerged` | kern/lab1.c:123-181 | after such releases all 512 frames of any block are free and a huge allocation still fails |
| `FreeList.DoubleFreeOverlaps` | kern/pmap.c:475-510 | when a block has been taken apart and given back, which merges it, giving back one of its upper frames once more lets the next two allocations overlap |
| `FreeList.WeightIsCoverage` | kern/pmap.c:939-959 | the weighted length of the list is the number of frames it covers |
| `FreeList.FreeAndOwned` | kern/pmap.c:939-959 | when only single frames are allocated, the free total and the number of allocated blocks make up all of memory |
| `Frames.PhysicalMemory.constructor` | kern/pmap.c:171-179 | before `page_init` the list is empty and every frame counts as allocated, with no references |
| `Frames.PhysicalMemory.Unlink` | kern/pmap.c:735-751 | taking a descriptor out of the doubly linked list removes exactly that node and keeps both link directions inverse |
| `Frames.PhysicalMemory.Push` | kern/pmap.c:495-503 | linking a descriptor in front of the list adds exactly that node and keeps both link directions inverse |
| `Frames.PhysicalMemory.DeleteFromFree` | kern/lab1.c:83-118 | the first node of the wanted size leaves the list; without one nothing changes |
| `Frames.PhysicalMemory.CheckRun` | kern/lab1.c:139-155 | the neighbour test over 512 descriptors decides whether each is available and preceded by its neighbour |
| `Frames.PhysicalMemory.HugeStart` | kern/lab1.c:123-136 | stepping back in 32-bit arithmetic finds the aligned base of the block |
| `Frames.RunIsLinkedInOrder` | kern/lab1.c:139-155 | the neighbour test succeeds exactly when the list starts with the 512 frames of the block in ascending order, which includes that the frame just pushed is the base; this needs only that the list is well linked and huge nodes are aligned |
| `Frames.PhysicalMemory.MergeAfterFree` | kern/lab1.c:123-181 | a huge node replaces the run at the head of the list exactly in that case, and otherwise the list is unchanged |
| `Frames.PhysicalMemory.SplitHead` | kern/pmap.c:425-457 | a huge head node is replaced by its 511 upper frames in descending order, and its base is handed out as a small page |
| `Frames.PhysicalMemory.Clear` | kern/pmap.c:459-466 | zero-filling sets every word and byte of the block, 1 or 512 frames, and no other |
| `Frames.PhysicalMemory.PageAlloc` | kern/pmap.c:402-469 | keeps the whole invariant; says which node is handed out and what the list is afterwards, in terms of the list before: the first node of the wanted size, or the first huge node taken apart when a small page is wanted and only huge ones are left; fails exactly when there is neither; clears exactly that block when asked to, and leaves all allocated blocks and all counts untouched |
| `Frames.SmallAllocation` | kern/pmap.c:402-469 | a small allocation fails only on an empty list and lowers the free total by one |
| `Frames.Served` | kern/pmap.c:402-457 | the same for the list part alone |
| `Frames.PhysicalMemory.PageFree` | kern/pmap.c:475-510 | panics exactly on a page that is on the list or has references and then changes nothing; otherwise the block is in front of the old list, or merged with the 511 frames that follow it exactly when these complete its aligned run in ascending order; the list is well linked in any case, and the invariant is kept exactly when the page was an allocated block |
| `Frames.PhysicalMemory.PageDecref` | kern/pmap.c:516-520 | exactly one count drops by one, and the block is released exactly with its last reference |
| `Frames.ListedIffAvailable` | kern/pmap.c:475-490 | a frame is available exactly when it is on the list, and has a successor link exactly when it is on the list and not last |
| `Frames.ReleaseIsSoundIff` | kern/pmap.c:475-510 | giving back a frame that is not on the list keeps the tiling of memory exactly when it is an allocated block of the size its descriptor says |
| `Frames.MergedFramesLookAllocated` | kern/lab1.c:157-180 | after a merge each of the 511 upper frames passes the tests of `page_free` |
| `Boot.FillFreeList` | kern/pmap.c:355-379 | the list then holds exactly the frames of the free entries other than frame 0, the start-up code of the other processors, the range of the kernel and the header of its program file, in descending order |
| `Boot.UsableMeans` | kern/pmap.c:361-377 | which frames these are, in terms of the memory map and the layout |
| `Boot.ScanStep` | kern/lab1.c:25-47 | the start flag with its carried-over state completes a candidate exactly at the last frame of an aligned block that lies in the entry and is available as a whole |
| `Boot.MergeBlock` | kern/lab1.c:47-73 | unlinks the 511 upper frames wherever they are in the list and makes the base a huge node |
| `Boot.InitialMerge` | kern/lab1.c:6-78 | huge nodes are formed for exactly the aligned blocks that are available as a whole and lie in one free entry |
| `Boot.PageInit` | kern/pmap.c:326-383 | after boot the list covers a frame if and only if it lies in a free entry and is none of the reserved ones (frame 0, the start-up code of the other processors, the range of the kernel, the header of its program file); its weighted length is their number; it holds a huge node for exactly the aligned blocks of 512 such frames that lie wholly in one free entry; and it is in descending order of addresses |
| `Tree.LeafUnique` | kern/pmap.c:634-682 | an address lies in at most one leaf, 4 KiB or 2 MiB |
| `Tree.TablesInjective` | kern/pmap.c:584-609 | no frame is the table of two regions |
| `Tree.AddTableSound` | kern/pmap.c:584-609 | linking a fresh frame as a table keeps the tree well formed, unaliased and inside allocated blocks |
| `Tree.AddLeafSound` | kern/pmap.c:709-759 | so does mapping a page |
| `Tree.RemoveLeafSound` | kern/pmap.c:808-828 | so does unmapping one |
| `Tree.RemoveTableSound` | kern/env.c:444-473 | so does giving up a table below which nothing is left |
| `PageTables.HardwareSeesFlatView` | kern/pmap.c:634-682 | the processor's four-level walk over the words in memory (AMD64 Architecture Programmer's Manual, volume 2, sections 5.3 and 5.6) finds for every address exactly the leaf of the flat view, with its frame and flags, and what it allows there, writing, user access and execution, is what the permissions of the mapping say, because no table on the way takes anything away |
| `PageTables.PageTables.NewRoot` | kern/env.c:114-145 | a new root table holds one reference to its own frame and maps nothing; it fails exactly without a free frame, and no other block is allocated |
| `PageTables.PageTables.AdoptRoot` | kern/pmap.c:152-153 | a cleared frame of boot memory becomes a root table that maps nothing and that nothing counts |
| `PageTables.PageTables.EntryInTable` | kern/pmap.c:584-609 | with `create` it fails only without a free frame; what it adds is an empty table with count 1, and the flat view and all other counts stay |
| `PageTables.PageTables.NewTable` | kern/pmap.c:591-606 | links a cleared frame with count 1 into an empty slot |
| `PageTables.PageTables.PageWalk` | kern/pmap.c:634-682 | a lookup changes nothing and finds the cell of the leaf if there is one; a creating walk returns the cell at the right level, or fails only out of memory, having added at most empty tables on the path |
| `PageTables.PageTables.PageLookup` | kern/pmap.c:772-791 | reads the flat view and changes nothing |
| `PageTables.PageTables.PageInsert` | kern/pmap.c:709-759 | it fails exactly when fewer frames are free than tables are missing on the path; on success the flat view changes at one key only, the one block released is the one whose last reference that replaces, exactly the missing tables were added, and the page is in use; on failure every translation and every earlier count is unchanged, only empty tables on the path were added, and the page can be inserted by a later call; the counts stay exact and nothing leaks either way |
| `PageTables.PageTables.MapAt` | kern/pmap.c:722-758 | the second half of it, at the cell the walk has found: displaces what is there, and writes and counts the new entry |
| `PageTables.PageTables.WriteEntry` | kern/pmap.c:755-758 | one count rises by one and one cell is written, and memory again holds the tree |
| `PageTables.PageTables.Displace` | kern/pmap.c:727-753 | clears the target, releases exactly a block whose last reference that was, and takes the page itself back off the free list in case that freed it, leaving the list as it was |
| `PageTables.PageTables.PageRemove` | kern/pmap.c:808-828 | deletes exactly one key of the flat view, lowers exactly one count, and releases the block exactly with its last reference, so that no block is left allocated without use; without a mapping nothing changes |
| `PageTables.PageTables.BootMapRegion` | kern/pmap.c:533-543 | the flat view afterwards is the old one overridden with va + k to pa + k for every page of the range; no count of an existing block changes; it succeeds exactly when there is a free frame for each page table that was missing, and takes exactly those |
| `PageTables.PageTables.MapStatic` | kern/pmap.c:538-541 | one step of it, which takes a frame for exactly the missing tables on the path |
| `PageTables.LinearMapAt` | kern/pmap.c:533-543 | what the linear map has at every region: page k of the range goes to frame k, everything else is as before |
| `PageTables.VpnInjective` | kern/pmap.c:533-543 | different pages of a range no longer than the address space have different entries |
| `PageTables.PageTables.EnvFreePageTables` | kern/env.c:444-473 | the recursive teardown removes exactly the subtree, lowers each count by the references in it, releases exactly the blocks that reach 0, and terminates on depth |
| `PageTables.PageTables.FreeSlot` | kern/env.c:452-469 | one slot of it: a page entry is cleared, a table is torn down, an absent entry is skipped |
| `PageTables.PageTables.FreePage` | kern/env.c:465-468 | a page loses one reference and its entry is cleared |
| `PageTables.PageTables.FreeTable` | kern/env.c:471-472 | a table under which nothing is left is given up |
| `PageTables.PageTables.FreeAddressSpace` | kern/env.c:490-493 | everything of this address space and nothing of any other is gone, the reference counts of all frames are exact again, and no block is left allocated without use |
| `KernelMap.MapAll` | kern/pmap.c:549-578 | a list of static mappings, one after the other: where ranges overlap the later one counts, and it succeeds exactly when there is a free frame for each table still missing |
| `KernelSpace.MemInit` | kern/pmap.c:122-312 | the kernel's address space is built exactly when there is a free frame for each of its page tables; those frames and no others are used, and its tables are exactly those; the flat view is then given address by address: the page descriptors at 0x7F80_0000_0000, the environments at 0x7F00_0000_0000, readable by programs, list i of areas in its place from 0x7E80_0000_0000 on, the stack below 0xFFFF_FF00_0000_0000, the first 4 GiB of memory behind the kernel's base, the segments of its image above that, each at its own frames with its own flags, and nothing else |
| `KernelSpace.LastDecides` | kern/pmap.c:533-543 | of several mappings that cover a page the last one decides what is there |
| `KernelSpace.CoversIff` | kern/pmap.c:533-543 | a range in one half of the address space covers the pages it holds and no others |
| `KernelSpace.TablesAreShown` | kern/pmap.c:217-245 | page j of `pages`, `envs` and each list of areas is at its fixed address, writable and not executable, and of `envs` readable by programs |
| `KernelSpace.ImageIsShown` | kern/pmap.c:549-578 | physical memory, the segments of the image and the stack: where they overlap, the first 4 GiB come first, then the later segment |
| `KernelSpace.NothingElseIsShown` | kern/pmap.c:1142-1146 | no other address is mapped, in particular none in the gap below the stack |
| `KernelMap.KernelSeesMemory` | kern/pmap.c:310 | in the end page p above the kernel's base is physical frame p, writable, for the first 4 GiB, whatever was mapped there before |
| `KernelMap.GapHasTables` | kern/pmap.c:263-269 | the pages of the gap below the kernel stack share their tables with the stack, so reserving them needs no frame |
| `KernelMap.ReservePages` | kern/pmap.c:266-269 | walking over pages that have their tables changes nothing |
| `KernelMap.TablesForBound` | kern/pmap.c:533-543 | n pages in a row need at most n/512 + n/512^2 + n/512^3 + 6 tables: 2058 for 4 GiB |
| `KernelMap.KernelTablesBound` | kern/pmap.c:122-312 | the sum of these bounds over all mappings of the kernel is enough |
| `VmaSpec.FindUnique` | kern/vma.c:43-63 | an area that covers an address is the one a lookup must find |
| `VmaSpec.InsertMeaning` | kern/vma.c:80-151 | an area put into a gap leaves the areas sorted and disjoint and grants exactly its own range in addition |
| `VmaSpec.FitsAtOnePlace` | kern/vma.c:122-138 | a range fits at no more than one place of a sorted list |
| `VmaSpec.RemoveMeaning` | kern/syscall.c:156-160 | removing an area takes away exactly its range |
| `VmaSpec.ShrinkMeaning` | kern/syscall.c:164-172 | moving the bounds of an area inwards takes away exactly what lies outside the new bounds |
| `VmaSpec.PlacementSoundAndComplete` | kern/vma.c:153-185 | a range found is vacant and, next to existing areas, in user space; with an unused node left, -1 means that no vacant range of that size exists in user space |
| `VmaSpec.PlacementIsFirstFit` | kern/vma.c:157-185 | which place is found: address 0 without areas, else the top of the gap before the first area if large enough, else the bottom of the first gap that is, where the one behind the last area ends with user space and needs a node left |
| `VmaSpec.PlacementFitsUnlessExact` | kern/vma.c:110-138 | the insertion accepts a range the search found exactly when no area starts where it ends |
| `VmaSpec.FitsIffApart` | kern/vma.c:110-138 | a range fits exactly when every area ends at or before its start or begins strictly behind its end |
| `VmaSpec.EndsInUserSpace` | kern/vma.c:157-185 | a range found ends in user space exactly when there is an area or the size fits: an empty list is not tested |
| `VmaSpec.PlaceMeaning` | kern/vma.c:110-150 | the walk of the insertion, whatever stale bounds it meets in unused nodes, makes the area visible at the one place where it fits, and leaves the visible areas alone when it fits nowhere |
| `VmaSpec.NewAreaHolds` | kern/vma.c:86-107 | the area made: from the page boundary at or below the start to the first at or above the end, with the bounds, permissions and file range asked for |
| `VmaSpec.UnusedKeepsLength` | kern/vma.c:8-36 | giving up an area leaves the other nodes in order and, at the end, a node without address and use that keeps its length and all else |
| `VmaSpec.RejectedIff` | kern/vma.c:110-150 | whatever stale bounds and hidden nodes the list holds, the insertion returns NULL exactly when the range fits nowhere among the visible areas and the walk accepts no place behind them |
| `VmaSpec.TakesHiddenTidy` | kern/vma.c:110-150 | while all used nodes are in front, it accepts such a place exactly when some unused node but the last ends at or before the start of the range |
| `VmaSpec.TidyAfter` | kern/vma.c:110-150 | used nodes stay in front of unused ones exactly when the range fits or is rejected |
| `VmaList.VmaList.constructor` | kern/env.c:168-188 | all 128 nodes are unused, with zero bounds, and linked in pool order, in both directions |
| `VmaList.VmaList.Lookup` | kern/vma.c:43-63 | returns the node of the covering area if there is one: the early exit at the first unused node misses none |
| `VmaList.VmaList.GetLast` | kern/vma.c:293-303 | returns the last node of the chain |
| `VmaList.VmaList.GetVmem` | kern/vma.c:157-185 | returns the first-fit place, or -1, for every list |
| `VmaList.VmaList.Insert` | kern/vma.c:80-151 | the contents of the list afterwards, used and unused nodes in order, are a function of the contents before, and so is whether NULL is returned; without an unused node at the end nothing changes; the chain and the order of the visible areas are kept |
| `VmaList.VmaList.Place` | kern/vma.c:110-150 | the node taken from the end goes to the first place the walk accepts, in both link directions, or is lost when there is none |
| `VmaList.VmaList.MakeUnused` | kern/vma.c:8-36 | the node moves to the end with its length, its area disappears, all others and their order stay |
| `VmaList.VmaList.Shrink` | kern/syscall.c:164-179 | only the bounds of one area change |
| `VmaCalls.InsertionMeaning` | kern/vma.c:80-151 | any insertion keeps the areas in order, keeps all of them, and grants exactly the new range in addition, or nothing |
| `VmaCalls.CreateMeaning` | kern/syscall.c:97-125 | a creation takes a page-aligned range of vacant user space, and exactly that range is granted in addition, unless the call failed or met an exact fit, when nothing is |
| `VmaCalls.CreateFailsIff` | kern/syscall.c:97-117 | for every list: it fails exactly when the last node is in use, or there is no vacant range of that size, or on an exact fit for which the walk accepts no place behind the visible areas |
| `VmaCalls.CreateSucceedsIff` | kern/syscall.c:97-117 | the same from the other side, for sizes that include none: the last node is free, a place is found, and the range keeps apart from all areas there or the walk accepts a place behind them |
| `VmaCalls.ExactFitGrantsNothing` | kern/vma.c:161-162 | an exact fit grants nothing, and the call succeeds exactly when the walk accepts a place behind the visible areas |
| `VmaCalls.ExactFitIsHidden` | kern/vma.c:161-162 | with page 1 in use and one more page asked for twice: the first call creates an area that no lookup sees, the second fails and loses a node, and an unused node is left that is not the last |
| `VmaCalls.CutMeaning` | kern/syscall.c:156-185 | whole, front, rear and middle case: the granted permissions are the old ones minus exactly the range, and minus the rear part in exactly the case where it is lost |
| `VmaCalls.TailFits` | kern/syscall.c:173-184 | the rear part of a split area fits behind the shrunk front exactly when the two do not overlap and no other area starts where it ends |
| `VmaCalls.DestroyMeaning` | kern/syscall.c:131-190 | the same for the call, with its page-rounded range, also when no page boundary lies in it; outside all areas and past the end of the area nothing changes |
| `VmaCalls.DestroySubtracts` | kern/syscall.c:131-190 | the same address by address, in terms of the page boundaries and the bounds of the area: what is granted afterwards at every address |
| `VmaCalls.SplitLosesTail` | kern/syscall.c:173-184 | giving up page 2 of pages 1 to 3 with page 4 in use takes page 3 along |
| `VmaCalls.OneByteLosesTail` | kern/syscall.c:147-184 | giving up one byte of page 2 of pages 1 to 3 takes page 3 along |
| `VmaCalls.LoadedWhole` | kern/env.c:364-406 | segments, stack and test pages that do not touch are all accepted into a new list, and a lookup sees every one of them |
| `Views.WindowIsExact` | kern/idt.c:299-336 | the two clipped windows line up under the 64-bit wrapping offset: what is copied is exactly the part of the page that has file contents, from its place in the file |
| `Budget.LowIsUser` | kern/env.c:444-460 | an address space with small pages only and tables in user space only is one the teardown is made for |
| `Budget.PageSpent` | kern/pmap.c:709-759 | allocating and mapping a page takes one frame and one for each missing table, less what comes back for a page it displaces |
| `Budget.PageClean` | kern/pmap.c:709-759 | and leaves no block allocated without use and no other address space changed |
| `Budget.SpentShort` | kern/vma.c:198-205 | if at some point of a sequence of pages the next one cannot be paid for, the frames free at the start were fewer than the whole costs |
| `Kernel.Env.MapFresh` | kern/vma.c:198-205 | a fresh zero page replaces what was mapped at one address and nothing else changes in the program's view; it fails exactly when fewer frames are free than the page and the missing tables take, and otherwise takes those, less a page that comes back |
| `Kernel.Env.CopyIn` | kern/idt.c:299-341 | the page then holds the file byte at each address below both file size and memory size, and zero elsewhere (System V gABI, chapter 5, program header); no other page changes |
| `Kernel.Env.PageFaultLoadPage` | kern/idt.c:282-347 | a fault in an area sets one page of the view to the area's permissions and prescribed contents; it panics exactly when fewer frames are free than the page and its missing tables take; outside all areas and on a panic the view is unchanged; coherence is kept |
| `Kernel.Env.PageFaultHandler` | kern/idt.c:239-279 | which faults resume, which end the environment and which stop the kernel, with the exact condition for running out of memory; only a resumed fault changes the view |
| `Kernel.Env.MapPopulate` | kern/vma.c:193-208 | the view afterwards has zero pages over the whole range and is otherwise the old one; as many free frames as there are pages and missing tables are enough, and where nothing was mapped before they are also needed |
| `Kernel.Env.FaultSequence` | kern/idt.c:282-347 | any sequence of faults at pages of areas leaves the view that `FaultAll` gives and keeps coherence; as many free frames as there are faults and missing tables are enough, and for different pages not yet mapped they are also needed |
| `Kernel.PopulateAt` | kern/vma.c:193-208 | what the view holds at every page after populating |
| `Kernel.FaultAllAt` | kern/idt.c:282-347 | what it holds at every page after any sequence of faults, whatever their order and repetition |
| `Kernel.LazyEqualsEager` | kern/syscall.c:114-122 | faulting in the pages of an anonymous area in any order gives the same view as populating it at once; with the two methods above, whose results these views are, lazy and eager population agree |
| `Kernel.SegmentReconstructed` | kern/idt.c:299-342 | once all pages of a program segment have been faulted in, every address reads the file byte at its place in the segment, or zero |
| `ProgramView.SegmentReads` | kern/env.c:367-375 | from the program header to the byte a program reads: when a segment finds room among the areas loaded before it, every address of its pages reads the file byte at its place in the segment, and zero behind the file part and around the segment, writable and accessible to the program, whatever else is loaded and in whatever order pages are faulted in |
| `ProgramView.ProgramReads` | kern/env.c:364-406 | the same for all segments of a program whose segments lie apart, and for its stack and two more pages, which read as zeros, the first of them read-only |
| `ProgramView.LoadAndFault` | kern/env.c:318-409 | loading such a program into a new environment and faulting in any of its pages leaves a view in which they read so, and keeps coherence |
| `ProgramView.CreatedReads` | kern/syscall.c:97-125 | every page of a new anonymous area that is faulted in reads as zeros with the permissions asked for |
| `ProgramView.RearPartReadsZero` | kern/syscall.c:173-184 | when the middle of an area is given up and the rear part is kept, pages of that part that are faulted in afterwards read as zeros, also where the area was filled from a program file |
| `Kernel.Env.UnmapPages` | kern/vma.c:216-229 | exactly the pages from the start of the range up to its end, computed modulo 2^64, are unmapped, and no block is left allocated without use |
| `Kernel.Env.CreateArea` | kern/syscall.c:97-117 | the contents of the list are those of the creation function, and it returns the new node exactly when that succeeds |
| `Kernel.Env.SysVmaCreate` | kern/syscall.c:97-125 | the same for the call, with the view it leaves; it fails exactly when the creation does, in a coherent state it panics exactly when a populated area needs more frames than are free, and after a call on a coherent state the state is coherent if and only if the call did not populate an exact fit |
| `Kernel.Env.CutArea` | kern/syscall.c:156-185 | with lengths computed modulo 2^64 the contents of the list are those of the cut function in all four cases |
| `Kernel.Env.SplitArea` | kern/syscall.c:173-184 | the middle case |
| `Kernel.Env.SysVmaDestroy` | kern/syscall.c:131-190 | panics exactly when no area covers the address or the rounded range passes the end of its area, and then changes nothing; otherwise subtracts the page-rounded range from the areas, unmaps exactly its pages, and a coherent state stays coherent if and only if no mapped page lies in a lost rear part |
| `Kernel.Env.Handle` | kern/syscall.c:193-211 | one call or fault: the contents of the list are those of the event function, it ends the run exactly when that says so or memory has run out, for which the exact condition is given, a harmless event keeps coherence, and nothing leaks |
| `Kernel.Env.Run` | kern/syscall.c:193-211 | over any sequence of creations, destructions and faults the whole invariant holds (exact counts, partition, tables in memory, sorted areas) and the list is what the calls make of it; coherence holds as long as no call has populated an exact fit or lost a rear part, both of which are conditions on the list before the call; no block leaks and no other address space changes; why the run ended is given |
| `Kernel.Env.LoadSegment` | kern/env.c:367-375 | adds the area of a program segment, from which the fault handler fills its pages; accepted exactly when the insertion function says so; coherence is kept |
| `Kernel.Env.LoadIcode` | kern/env.c:318-409 | the areas of a program in their order; it panics exactly when a segment is rejected or no frame is free; coherence is kept |
| `Startup.BootKernel` | kern/pmap.c:122-312 | physical memory and the kernel's address space come up exactly when there is a usable frame for each of the kernel's page tables, and apart from those only frames that are never handed out are allocated |
| `Startup.BringUp` | kern/env.c:418-442 | an environment with its program comes up exactly when there are two frames more and no segment is rejected; one page is wasted |
| `Startup.BootAndRun` | kern/pmap.c:122-312 | from the memory map to a running program: the environment comes up exactly when there is a usable frame for each page table of the kernel and two more and no segment is rejected, and then every run keeps all invariants and coherence as `Run` says |
| `Startup.BootRunAndFree` | kern/env.c:478-499 | no leak: whatever a program did, unless memory ran out, tearing down its address space leaves exactly the usable frames minus the kernel's page tables and the page that loading wasted, and of the page tables exactly the kernel's |
| `ProgramView.ApartSegmentsSucceed` | kern/env.c:364-406 | a program of at most 125 segments whose areas do not touch is accepted into a new list, and a lookup sees all of it |
| `EnvTable.ClearLow10` | kern/env.c:218 | the mask of the generation clears exactly the ten index bits of a 32-bit word |
| `EnvTable.IdClosedForm` | kern/env.c:217-221 | the n-th identifier of a slot in closed form: steps of 4096 that start over before the sign bit |
| `EnvTable.IdNamesSlot` | inc/env.h:29-32 | every identifier is positive, and `ENVX` gives back its slot |
| `EnvTable.IdsRepeat` | kern/env.c:217-221 | two identifiers are equal if and only if they belong to one slot and are a multiple of 2^19 - 1 issues apart |
| `EnvTable.IdsDistinctInWindow` | kern/env.c:217-221 | any 2^19 - 1 identifiers in a row are pairwise distinct |
| `EnvTable.Environments.EnvInit` | kern/env.c:82-102 | all slots are on the free list in array order |
| `EnvTable.Environments.EnvAlloc` | kern/env.c:198-258 | which error is returned when; on success the head of the list leaves it and gets the next identifier, and nothing else changes; the list holds exactly the free slots, each once |
| `EnvTable.Environments.EnvRelease` | kern/env.c:495-498 | the slot returns to the head of the list and keeps its identifier |
| `EnvTable.Environments.EnvRun` | kern/env.c:564-571 | the new environment runs, a running former one becomes runnable, nothing else changes |
| `EnvTable.Environments.Envid2Env` | kern/env.c:36-73 | succeeds if and only if some live environment holds the identifier and the caller may have it, finds the only one, and rejects every identifier that one of the last 2^19 - 2 earlier users of a slot held |
| `LibString.Memmove` | lib/string.c:135-162 | after the call the target holds the original source bytes and nothing else has changed, for every overlap and on all four paths (ISO C11, section 7.24.2.2) |
| `LibString.MovsUp` | lib/string.c:153-158 | an ascending move in units of 1 or 4 bytes is a copy when the target does not start inside the source |
| `LibString.MovsDown` | lib/string.c:143-150 | a descending one is a copy when the source starts below the target |
| `LibString.Strtol` | lib/string.c:227-271 | returns the value, reduced to 64 bits, of the longest run of digits after blanks, sign and base prefix, and the end of that run (ISO C11, section 7.22.1.4, except that without digits the end is behind blanks, sign and prefix and not at the start) |
| `LibString.NumberReads` | lib/string.c:227-271 | what is read, in terms of the characters: blanks and tabs, a plus or minus sign, a prefix that goes with the base asked for, and digits of either case give the value of the digits, negated after a minus sign, up to the first character that is no digit of the base |
| `LibString.ReadDigits` | lib/string.c:249-267 | the wrapping accumulation gives the value of the digits modulo 2^64 |
| `Printfmt.SprintBuf.Put` | lib/printfmt.c:261-272 | the buffer holds a prefix of the text and counts all of it |
| `Printfmt.Printnum` | lib/printfmt.c:39-53 | emits the padded numeral, the padding from within the innermost call |
| `Printfmt.Vprintfmt` | lib/printfmt.c:198-234 | the text of each numeric conversion |
| `Printfmt.Vsnprintf` | lib/printfmt.c:274-288 | stores as much as fits and a zero byte, writes nothing behind it, and returns the length of the whole text; a missing buffer is an error |
| `Printfmt.DigitsDenote` | lib/printfmt.c:39-53 | the digits printed denote the number, in every base from 2 to 16 |
| `Printfmt.NumeralRoundTrip` | lib/string.c:227-271 | `strtol` reads a numeral padded with '0' or ' ' to its end and returns the number if and only if it is below 2^63 |
| `Printfmt.UnsignedRoundTrip` | lib/printfmt.c:208-235 | what `%u`, `%o` and `%x` print is read back in the base of the conversion, as the number itself if and only if it is below 2^63 |
| `Printfmt.UnsignedExample` | lib/printfmt.c:229-235 | 255 in base 16 is printed as ff |
| `Printfmt.TextLayout` | lib/printfmt.c:198-235 | the text of each conversion: sign or prefix, then padding up to the width, then digits of the base in lower case |
| `Printfmt.DigitsAreFew` | lib/printfmt.c:39-53 | a number is printed with as few digits as its size allows |
| `Printfmt.DigitsAreLowercase` | lib/printfmt.c:52-53 | each digit printed is one of the first `base` characters of 0123456789abcdef, and zero is a single 0 |
| `Printfmt.SignedRoundTrip` | lib/printfmt.c:198-206 | what `%d` prints is read back if and only if no blanks stand between sign and digits |
| `Printfmt.PointerRoundTrip` | lib/printfmt.c:220-227 | what `%p` prints is read back, also with the base left open, if and only if no blanks stand between prefix and digits |
| `Printfmt.SignedBlanksAreNotRead` | lib/printfmt.c:198-206 | -5 in a field of width three, padded with blanks, is read back as zero |
| `Printfmt.PointerBlanksAreNotRead` | lib/printfmt.c:220-227 | and so is address 5 |

## Left out

- Frames.PhysicalMemory.constructor: physical memory is a multiple of 2 MiB and at most 2 GiB, because `merge_after_free` and `initial_merge` keep physical addresses in a 32-bit `int`.
- Frames.PhysicalMemory.Clear: the contents of a frame are kept twice, as 512 words where it holds a table and as 4096 bytes where it is mapped, so the model does not show a program writing into a frame that is also a table; that tables and mapped pages never share a frame is proved instead.
- Frames.PhysicalMemory.CheckRun: the neighbour test applied to a null `previous` link computes an address from the null pointer; the model takes it that this is never the address of the page below.
- PageTables.PageTables.PageInsert: requires an allocated page that is not a table (the walk could hand a free one out as a table before it is mapped), no mixing of 4 KiB and 2 MiB pages in one 2 MiB region, `PAGE_HUGE` in the permissions of a huge page, a count that does not overflow 16 bits, permissions in the low twelve bits, and for the re-insertion of a sole mapping that its release does not merge; `FreeList.ReinsertionRestores` states what happens otherwise.
- PageTables.PageTables.PageWalk: a walk that creates a 4 KiB entry below an existing 2 MiB leaf is outside the precondition; the original would take the huge page for a table.
- PageTables.PageTables.BootMapRegion: where the walk runs out of memory the original dereferences a null pointer; the model stops there and returns false. The range must not wrap at 2^64 or hold a counted or 2 MiB mapping, and the physical range must lie below 2^48.
- PageTables.PageTables.NewRoot: the entries above `USER_TOP` that the original copies from the kernel's root table, and the self-map of the root table, are not part of the tree; shared kernel tables and the self-map break the tree shape.
- KernelSpace.MemInit: the self-map of the root table and the checks between the mappings are left out, and `boot_alloc` is: where it has put the tables, the kernel's base, and the size of the structures are parameters. A mapping that cannot be made stops the model where the original follows a null pointer. What the address space shows at each address is stated for a kernel base in the upper half of the canonical addresses; where it is below, `KernelMap.MapAll` still says that later mappings count.
- Frames.PhysicalMemory.PageFree: the merge test is proved for lists that are well linked; what further calls do to a list in which two nodes overlap is not modelled.
- Startup.BootRunAndFree: the slot of the environment is not given back, and the run is followed by the teardown in every case, where the original tears down on a fault outside all areas or on request.
- PageTables.PageTables.FreeAddressSpace: is stated for address spaces of 4 KiB pages below the slot of the kernel, with no tables shared with another address space. `KERNEL_VMA` is not defined in the repository's headers, so that slot is a parameter.
- VmaList.VmaList.Insert: at least two nodes must be in the list, as the original follows the `prev` link of the last one; the range must end in user space.
- VmaList.VmaList.MakeUnused: is stated for `env == curenv`, the only way it is called.
- Kernel.Env.SysVmaCreate: a size that rounding wraps to zero, and, with no area at all, a size beyond user space, are outside the precondition; for the second the original grants an area past user space (`VmaSpec.EndsInUserSpace`). Permissions have no bits above the low twelve.
- Kernel.Env.SysVmaDestroy: ranges that wrap at 2^64 are outside the precondition.
- Kernel.Env.UnmapPages: the reclamation of empty tables in the second loop of `vma_unmap` is not modelled; it reuses its outer loop counter and need not terminate.
- Kernel.Env.CopyIn: the file lies in kernel memory, which is a function from addresses to bytes, and the copy goes to the frame and not through the tables.
- Kernel.Env.Run: does not go on where the kernel panics or ends the environment, or where a call finds a list of one node; coherence is not claimed after a creation that ran out of memory on the way, all other invariants are. Sizes are at most that of user space.
- Kernel.Env.LoadIcode: program headers that are not loadable, which the original zeroes in the kernel's address space, the magic number and the entry point are not modelled; segments end in user space and their file addresses do not wrap.
- Boot.PageInit: the free entries of the memory map are page-aligned, sorted and disjoint; where the kernel and the header of its program file lie is a parameter, as `KERNEL_LMA` is not defined in the repository's headers.
- EnvTable.Environments.EnvAlloc: the results of the two set-up routines are parameters, and saved registers are not modelled.
- EnvTable.Environments.Envid2Env: with `checkperm` there must be a current environment, as the original follows `curenv`.
- Printfmt.Vprintfmt: a format is one numeric conversion; strings, characters, errors and the parsing of flags are not modelled.
- Panics are results of the methods that can reach them.
- Leaves of 1 GiB, the accessed and dirty bits, the TLB and its flushes, and page-table accesses by the processor while the kernel runs.
- `user_mem_check`, which follows the user address it is to check, and `region_alloc`.
- `memset`, `memcmp` and the string functions without a loop worth a theorem.
- Interrupts, descriptor tables, context switches, console, monitor, system-call stubs and the self-tests of the kernel.
