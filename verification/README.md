# SupernovaOS: a verified model of its memory manager, rings, lock, formatter and loaders

The project models the parts of SupernovaOS that carry an invariant or a protocol, and proves
them. The first four parts are the layers of one memory manager.

- **Block lists and page runs** (`CORE/src/mm/pmm.c`, `vmm_alloc`, `vmm_free` and their helpers in
  `CORE/src/mm/vmm.c`). `Layouts.dfy` gives the meaning: a list of typed address ranges, its typed
  address map, its canonical form, insertion with merging, first fit, carving and retyping.
  `BlockNodes.dfy`, `ListSteps.dfy`, `SlabSteps.dfy` and `AllocatorState.dfy` describe the node
  memory: doubly linked lists threaded through slab pages that the allocator takes from itself;
  `NodeCounts.dfy` counts their nodes.
  `Vmm.dfy` holds the mutable allocator; every method is proved against the pure meaning.
  `AllocatorTheorems.dfy` says what the contracts mean together.
- **Page tables and demand paging** (`virtual_mapping`, `search_page_entry`, `INT0E`,
  `vmm_uncommit`, `virtual_alloc`). `PageTables.dfy` is four-level paging (section 4.5 of volume 3A
  of the Intel 64 and IA-32 Architectures Software Developer's Manual) as the code walks and
  writes it. `FrameOwnership.dfy` and `AddressSpace.dfy` state who holds a frame; `DemandPaging.dfy`
  holds the mutable kernel side; `AddressSpaceTheorems.dfy` says what its contracts mean together;
  `KernelRuns.dfy` has the start of the kernel and the results over whole runs.
- **The in-band heap** (`heap_alloc`, `heap_free`, `expand_heap`): `HeapBlocks.dfy` (the blocks),
  `HeapPages.dfy` (the pages under them, from and to the kernel), `Heap.dfy` (the mutable heap),
  `HeapRuns.dfy` (how a process starts its heap, and whole runs with the page faults in them).
- **Rings**: `CycleBits.dfy` (rings whose entries carry the bit of their lap), `XhciRing.dfy` (the
  rings of `CORE/src/driver/xhci`, sections 4.9.2 to 4.9.4 of the xHCI specification) and
  `NvmeQueue.dfy` (the queue pair of `CORE/src/driver/nvme/nvme.c`, section 4.2.4 of the NVM Express
  Base Specification).
- **The reentrant lock** (`CORE/src/async/async.c`) as interleaved memory accesses of many cores:
  `ReentrantLock.dfy`.
- **The printf engine** (`CORE/src/std/sprintf.c`): `FormatText.dfy` (the text), `FormatMeaning.dfy`
  (what a reader sees in it), `FormatSpecs.dfy` (conversion specifications as they are written) and
  `Sprintf.dfy` (the engine).
- **The boot loader's NTFS run lists and memory map** (`EFI/src/ntfs.c`, `EFI/src/main.c`):
  `RunList.dfy`, `BootMemoryMap.dfy`.

Conventions. A pointer to a list node is the physical address of the node, and a page table is
known by the address of its page; the code reaches both by setting the high bits of the linear
window in them, which adds a constant below 512 GiB, where the window ends. Words are natural
numbers, and 16-, 56- and 64-bit wrap-around is written out where the code can reach it. Ghost
fields hold the list contents, the owner of each node, the home of each table, the block chain of
the heap and the history of a ring; `Valid`, `Running` and `Inv` tie them to the real fields. The
mutable classes keep tables and words in fields of type `map` and `seq`, the rings and buffers in
arrays. What hardware does (the xHCI and NVMe controllers) is a method of its own beside the
driver's.

Where code and comments disagree the code is followed: the final NUL counts towards the result of
the formatter and is not forced into a full buffer, `%p` prints upper-case digits without a prefix,
and octal numbers of 22 digits do not fit the conversion buffer.

Where the code would run on into something the model does not follow (address 0 taken for a page,
the kernel's growth code run in user mode, the link of a freed node), the method stops with an
outcome of its own, and the contract says exactly when that happens. A run ends there.

What an access to an address may do is read off the words of every level of its walk
(`PageTables.RightsAt`): it needs the write and the user bit of all of them.

The invariants can be met: `KernelRuns.Boot` takes the page tables of the boot loader, sets up the
allocator from the firmware's memory regions, adds a process and has the invariant of demand paging;
`KernelRuns.Run` keeps it over every sequence of faults, requests and heap growth, up to the first
that does not return. `HeapRuns.StartHeap` makes the heap of a process on such a kernel
(`HeapRuns.BootHeap` on one that has just started), and `HeapRuns.RunHeap` keeps it.

Results that are exact conditions rather than plain promises: `Layouts.InsertCanonicalIff` and
`PageAllocator.Vmm.SetupMemory` (an empty block), `AllocatorTheorems.AllocationFailsIff` (an aligned
address that wraps), `PageAllocator.Vmm.AllocNode` and `DemandPaging.Kernel.PageFault` (pages run
out), `PageAllocator.Vmm.RetypeRun` (list nodes run out), `AddressSpaceTheorems.StraysIff` and
`AddressSpaceTheorems.RunServed` (a request over several blocks), `Heap.RoundRequestIff`
(the last seven request sizes wrap to zero), `Heap.GrewInUserIff` (a user request that fills the last
block), `FormatText.DigitsFitIff` (octal), `Sprintf.TerminatedIff` (a clipped buffer has no NUL),
`ReentrantLock.StepKeepsInv` and `ReentrantLock.DropsIff` (a nesting depth of a multiple of 65536,
which `ReentrantLock.BoundIsTight` reaches), `XhciRing.OverrunHidesNext` (255 outstanding entries).

## Model

| member | source | states |
|---|---|---|
| Layouts.InsertCovers | CORE/src/mm/pmm.c:32-67 | inserting a range gives exactly the old typed address map plus the range, in every merge case |
| Layouts.InsertCanonical | CORE/src/mm/pmm.c:32-67 | a nonempty range apart from a canonical list leaves it sorted, disjoint and maximally coalesced, three-way merge included |
| Layouts.InsertCanonicalIff | CORE/src/mm/pmm.c:32-67 | inserting keeps the canonical form if and only if the range is nonempty or touches a block |
| Layouts.CanonicalUnique | CORE/src/mm/pmm.c:4-67 | a canonical list is determined by its typed address map |
| Layouts.ReleaseOrderIrrelevant | CORE/src/mm/pmm.c:32-67 | inserting disjoint ranges in any order gives the same list |
| Layouts.RemoveCovers | CORE/src/mm/vmm.c:318-341 | carving a run takes exactly it out of the typed address map |
| Layouts.RemoveThenInsert | CORE/src/mm/vmm.c:318-341 | giving back exactly the carved run restores the identical blocks |
| Layouts.ShrinkThenInsert | CORE/src/mm/vmm.c:320-331 | shrinking a block and inserting its right part is removal of the run between |
| Layouts.FirstFitSound | CORE/src/mm/vmm.c:233-260 | the run found is aligned, not below the address asked for, inside one block of the wanted type |
| Layouts.FirstFitLowest | CORE/src/mm/vmm.c:233-260 | no suitable run lies below the one found |
| Layouts.FirstFitFailsIff | CORE/src/mm/vmm.c:233-260 | the search fails exactly when the address map holds no suitable run at all |
| Layouts.RetypeMeaning | CORE/src/mm/vmm.c:279-315 | delete, left, middle, right reinsertion changes the type of exactly the run and leaves a canonical list |
| PageAllocator.Vmm.constructor | CORE/src/mm/vmm.c:25-27 | empty lists, no slab page |
| PageAllocator.Vmm.Merge | CORE/src/mm/pmm.c:4-19 | merges exactly when the types agree and the source starts in or at the end of the destination, to the joined range |
| PageAllocator.Vmm.FreeNode | CORE/src/mm/vmm.c:156-163 | the node is free again, the count of its slab page one higher, nothing else changed |
| PageAllocator.Vmm.DeleteLink | CORE/src/mm/pmm.c:20-31 | exactly the block leaves its list, PREV and NEXT stay inverse, the node is freed |
| PageAllocator.Vmm.MergeNext | CORE/src/mm/pmm.c:42-44 | the right neighbour is absorbed if it now touches |
| PageAllocator.Vmm.InsertLink | CORE/src/mm/pmm.c:32-67 | the pointer walk computes the pure insertion on the list, keeps it well linked, touches no other list |
| PageAllocator.Vmm.FindFreeNode | CORE/src/mm/vmm.c:105-130 | the search always ends at a free slot of the first slab page that counts one |
| PageAllocator.Vmm.AllocNode | CORE/src/mm/vmm.c:103-155 | a fresh zeroed node owned by nobody; slab counts stay exact; at most the lowest free page became a slab page; starved exactly if a slab page is needed and no page is free |
| PageAllocator.Vmm.RefillSlab | CORE/src/mm/vmm.c:137-153 | the refill by the allocator itself keeps the invariant while VALD of the chosen node is still clear, at recursion depth one |
| PageAllocator.Vmm.VmmAlloc | CORE/src/mm/vmm.c:219-357 | answers and leaves behind what first fit and carving say, for every count, alignment and address, rounded in 64 bits; with alignment 0 from address 0 no node is taken and no slab page added |
| PageAllocator.Vmm.CarveAt | CORE/src/mm/vmm.c:318-341 | the free list becomes the old one without the run, in all three cases |
| PageAllocator.Vmm.AddBlock | CORE/src/mm/vmm.c:212-218 | a block is added to a list by insertion, its node possibly costing the lowest free page; starved exactly if the node needs a slab page and no page is free |
| PageAllocator.Vmm.VmmFree | CORE/src/mm/vmm.c:212-218 | the run is inserted as free memory; starved exactly if its node is |
| PageAllocator.Vmm.AllocPhysical | CORE/src/mm/vmm.c:358-363 | physical allocation from address 0, 0 on failure |
| PageAllocator.Vmm.FreePhysical | CORE/src/mm/vmm.c:364-367 | the run joins the physical free list; starved exactly if its node is |
| PageAllocator.Vmm.RetypeRun | CORE/src/mm/vmm.c:279-315 | the list of a process becomes the retyped layout, other process lists stay; starved exactly if no page is free and the retyping needs more nodes than are spare |
| PageAllocator.Vmm.SetupMemory | CORE/src/mm/vmm.c:164-193 | afterwards exactly the usable memory above 1M is free or slab pages, and the allocator's invariant holds; a first region of one page, and only that, leaves an empty block in the list |
| PageAllocator.Vmm.CreateAddressSpace | CORE/src/proc/proc.c:12-17 | a new process has one free block over [0x1000, 0x800000000000); no other list changes but the physical one; starved exactly if the node is |
| NodeCounts.SpareCount | CORE/src/mm/vmm.c:105-163 | node conservation: the nodes not held, 127 per slab page less those held, are at least those that the header of the last page counts, and just those if and only if the earlier headers count none |
| AllocatorState.NodeRoomIff | CORE/src/mm/vmm.c:103-155 | so a node can be allocated exactly if such a spare node is left or a page is free |
| NodeCounts.RetypeLengths | CORE/src/mm/vmm.c:279-315 | how many blocks the list holds before the run and before the right part go in, neighbours that merge counted, which gives the nodes a retyping needs besides the one it frees: none, one or two |
| AllocatorTheorems.AllocationIsLowestFit | CORE/src/mm/vmm.c:318-363 | a served allocation returns the lowest aligned run of free pages and takes exactly it, and slab pages, out of free memory |
| AllocatorTheorems.AllocationFailsIff | CORE/src/mm/vmm.c:221-356 | it fails exactly when no such run of free pages exists; a request whose aligned address wraps, with a block that ends high enough, is misplaced instead |
| AllocatorTheorems.MisplacedExample | CORE/src/mm/vmm.c:238-246 | one page asked for above 2^63 with alignment 63 is misplaced whatever is free, at address 0, which is not free |
| AllocatorTheorems.SmallAlignPlaced | CORE/src/mm/vmm.c:241-242 | alignments up to a page are never misplaced |
| AllocatorTheorems.FreeingAddsExactly | CORE/src/mm/vmm.c:212-218 | freeing adds exactly the range to free memory, new slab pages apart |
| AllocatorTheorems.AllocatedAddable | CORE/src/mm/vmm.c:318-366 | a run just allocated may be freed: it touches no free memory and no slab page |
| AllocatorTheorems.AllocThenFreeRestores | CORE/src/mm/vmm.c:318-366 | freeing what was just allocated restores the identical block sequence when no slab page was added |
| AllocatorTheorems.FreeingsAdd | CORE/src/mm/vmm.c:212-218 | freeing many runs adds exactly them, apart from the pages that became slab pages on the way |
| AllocatorTheorems.FreeingOrderIrrelevant | CORE/src/mm/vmm.c:212-218 | in whatever order runs are freed, the same addresses are free or in slab pages, and the list is the same if the slab pages are |
| PageTables.LeafWordFields | CORE/src/mm/vmm.c:368-375 | a leaf word carries presence, size bit, page base and exactly the asked-for attributes |
| PageTables.TableWordFields | CORE/src/mm/vmm.c:401-403 | the word of a pointer carries presence and the base of its table, no size bit, and allows user and write access |
| PageTables.WalkEnds | CORE/src/mm/vmm.c:67-102 | the entry a walk ends at belongs to the path of the address |
| PageTables.SetEntryTranslate | CORE/src/mm/vmm.c:448-453 | writing a leaf changes the translation of exactly the addresses that share the entry, and what an access may do there becomes what the leaf and every pointer above it allow together |
| PageTables.AddTableTranslate | CORE/src/mm/vmm.c:436-443 | linking in a zeroed table changes no translation and no access |
| PageTables.PagesDistinct | CORE/src/mm/vmm.c:454-455 | pages of a run that does not wrap are different entries |
| FrameOwnership.AddTableStep | CORE/src/mm/vmm.c:436-443 | a table made of a free page keeps the tables a tree and every walk as it was |
| FrameOwnership.MapDone | CORE/src/mm/vmm.c:392-456 | tables and leaf together map one page and nothing else; accesses to it are those that the leaf and the pointers found above it allow, all other accesses are as before |
| FrameOwnership.RunMappedMeaning | CORE/src/mm/vmm.c:382-457 | address va + y of the run translates to base + y, every other address as before |
| FrameOwnership.LeafBaseIs | CORE/src/mm/vmm.c:386-391 | the physical address of a run is rounded down to its page size |
| FrameOwnership.FrameGivenBack | CORE/src/mm/vmm.c:207 | freeing a frame makes exactly that frame no longer held, slab growth included |
| FrameOwnership.HeldUnchanged | CORE/src/mm/vmm.c:137-147 | node allocations change no frame from held to free or back |
| DemandPaging.Kernel.NextTable | CORE/src/mm/vmm.c:398-405 | the child table on the path, made of a free page if missing, with no effect on any translation or access and a pointer that rules nothing out; starved exactly if it is missing and no page is free |
| DemandPaging.Kernel.MapPage | CORE/src/mm/vmm.c:392-456 | one page of any of the three sizes is mapped; what an access to it may do, by the words of every level of the walk, is the attribute asked for as far as the pointers already there allow, and is unchanged elsewhere; it costs exactly the missing tables and is starved exactly if fewer pages are free |
| DemandPaging.Kernel.VirtualMapping | CORE/src/mm/vmm.c:382-457 | every page of the run up to the first that lacks its tables is mapped to its frame, with the accesses asked for as far as the pointers already there allow; every other address translates and is accessible as before |
| DemandPaging.Kernel.SearchPageEntry | CORE/src/mm/vmm.c:67-102 | finds exactly the entry that decides the address, or none |
| DemandPaging.Kernel.PhysicalAddress | CORE/src/mm/vmm.c:458-467 | the translation of a mapped address, for all page sizes; the offset of an address of the linear window |
| DemandPaging.Kernel.MapFreshPage | CORE/src/mm/vmm.c:473-480 | a free frame backs the page, an access may do there what was asked for, at every level of the walk, and the invariant of ownership and access holds again; starved exactly if fewer pages are free than the frame and the missing tables |
| DemandPaging.Kernel.InCommittedBlock | CORE/src/mm/vmm.c:48-57 | true exactly if a committed block holds the address |
| DemandPaging.Kernel.PageFault | CORE/src/mm/vmm.c:30-62 | the linear window and committed user pages are served unless fewer pages are free than frame and missing tables; a served address may be written, and used in user mode exactly outside the linear window, by the words of every level; everything else panics and changes nothing |
| AddressSpace.PageGuarded | CORE/src/mm/vmm.c:473-480 | mapping a private page keeps the invariant of access: pointers above private pages rule nothing out, user pages are open to user code and writable, kernel pages writable and closed to it, and the linear window translates to its offsets |
| AddressSpace.LinearGuarded | CORE/src/mm/vmm.c:33-41 | so does mapping a 2M page of the linear window |
| DemandPaging.Kernel.Access | CORE/src/mm/vmm.c:30-62 | an access to a private page does nothing if the page is mapped and is a fault otherwise |
| DemandPaging.Kernel.UncommitPage | CORE/src/mm/vmm.c:198-209 | the page is unmapped and exactly its frame freed; an unmapped page is skipped; starved exactly if the page is mapped and no node can be allocated |
| DemandPaging.Kernel.Uncommit | CORE/src/mm/vmm.c:194-211 | exactly the pages of the run are unmapped and exactly their frames freed; starved exactly if some page of it is mapped and no node can be allocated at the start |
| DemandPaging.Kernel.TypedAlloc | CORE/src/mm/vmm.c:219-357 | answer, retyped run and unmapped pages of every typed request, up to the turn of the loop after which it would read the link of a node it has freed, or in which it runs out of nodes; the invariant of the address space holds again, unless nodes run out |
| DemandPaging.Kernel.ServeFrom | CORE/src/mm/vmm.c:233-351 | the turns of the loop: a block that has the type asked for is kept and the next one serves the rest, from its first page; the cursor moves by pages instead of bytes |
| DemandPaging.Kernel.ServeTurn | CORE/src/mm/vmm.c:269-316 | one turn: the run in the block is retyped, its pages unmapped if the request asks for it; out of nodes exactly if freeing the first frame or the retyping is |
| DemandPaging.Kernel.VirtualAlloc | CORE/src/mm/vmm.c:620-645 | requests that end above user space fail and change nothing, in 64-bit arithmetic; the rest are typed allocations |
| AddressSpace.FrameMappedKeepsInv | CORE/src/mm/vmm.c:43-58 | backing a committed page with a free frame keeps frame ownership and the rest of the invariant |
| AddressSpace.LinearMappedKeepsInv | CORE/src/mm/vmm.c:33-41 | so does mapping a 2M page of the linear window |
| AddressSpace.ClearDone | CORE/src/mm/vmm.c:207-208 | so does freeing the frame of a page and clearing its entry |
| AddressSpace.RetypedPartition | CORE/src/mm/vmm.c:279-315 | a retyping inside one block keeps the blocks a partition of user space |
| AddressSpace.RetypedCommitted | CORE/src/mm/vmm.c:269-316 | after a typed request user pages are still mapped in committed blocks only |
| AddressSpace.LinearFaultMeaning | CORE/src/mm/vmm.c:33-41 | a served linear fault maps the address to its offset in the window, writable and closed to user code |
| AddressSpace.UserFaultMeaning | CORE/src/mm/vmm.c:43-58 | a served user fault backs the page with the lowest free frame, writable and open to user code, and changes no other page |
| AddressSpaceTheorems.OneUsePerFrame | CORE/src/mm/vmm.c:43-58 | free memory, slab pages, tables and mapped pages are different frames; no two pages share one; user pages are committed |
| AddressSpaceTheorems.NewSpaceInv | CORE/src/proc/proc.c:12-17 | a new process starts with the invariant |
| AddressSpaceTheorems.RetypeBack | CORE/src/mm/vmm.c:279-315 | retyping a run back to its old type restores the identical blocks |
| AddressSpaceTheorems.TypedServed | CORE/src/mm/vmm.c:253-316 | a COMMIT request takes the lowest reserved run, RESERVE and COMMITXF the lowest free one, and they change the type of exactly it |
| AllocatorState.FromAligned | CORE/src/mm/vmm.c:221-222 | every search starts at the first page boundary from the address asked for on, and at 0 if there is none in 64 bits |
| AddressSpaceTheorems.NewSpaceServed | CORE/src/user/user.c:22-28 | in a new address space a COMMITXF request from 0 is answered with its first page, 0x1000, unless it needs a node and there is none to be had |
| AddressSpaceTheorems.FreshlyServed | CORE/src/user/user.c:22-28 | the run that a COMMITXF request was given is committed and none of its pages is mapped |
| AddressSpaceTheorems.TypedFailsIff | CORE/src/mm/vmm.c:253-260 | COMMIT fails exactly when the address space holds no reserved run of the length, RESERVE and COMMITXF when it holds no free one |
| AddressSpaceTheorems.InOneBlockIff | CORE/src/mm/vmm.c:253-264 | a FREE or UNCOMMIT request stays in the block that serves it exactly if its pages in user space have one type, or it starts above |
| AddressSpaceTheorems.StraysIff | CORE/src/mm/vmm.c:233-347 | a FREE or UNCOMMIT request goes on from a freed node exactly if the type of its pages changes within the run, but for a change after pages that a FREE request finds free already |
| AddressSpaceTheorems.StrayExample | CORE/src/mm/vmm.c:233-347 | UNCOMMIT of a reserved and a committed page: after the first turn the cursor is one byte into the first page, and the committed page is not served |
| AddressSpaceTheorems.RunServed | CORE/src/mm/vmm.c:233-351 | a FREE or UNCOMMIT request that is answered has retyped exactly its run and left none of it mapped; the address answered is that of the run if and only if the run lay in one block |
| AddressSpaceTheorems.WrongAnswerExample | CORE/src/mm/vmm.c:345-351 | FREE of a free and a committed page at 0x1000 answers 0x1FFF |
| AddressSpaceTheorems.DiscardMeaning | CORE/src/mm/vmm.c:613-614 | UNCOMMIT then COMMIT of a committed run leaves the blocks as they were, the run unmapped and exactly its frames freed |
| AddressSpaceTheorems.CommitNeverStarves | CORE/src/mm/vmm.c:613-614 | the second of the two never runs out of nodes: the run goes back into the block of the page in front of it |
| KernelRuns.BootTree | EFI/src/main.c:672-690 | the tables of the boot loader form a tree |
| KernelRuns.BootWalks | EFI/src/main.c:672-690 | they map no page of user space or of the kernel heap, once the entry for the low half is cleared, and hold no page larger than 2M |
| KernelRuns.BootLinear | EFI/src/main.c:682-690 | they map the first 4G of the linear window, each address to its offset, writable and for the kernel only, and nothing else of the window |
| KernelRuns.Boot | CORE/src/main.c:30-36 | on these tables setup_memory and the first process, with nothing between them, give a kernel with the invariant, with the first 4G of the linear window mapped to their offsets, no private page mapped and one free block of user space, if and only if the first usable region is larger than a page |
| KernelRuns.Step | CORE/src/mm/vmm.c:30-62 | a fault, a request or heap growth either returns and does what its contract says, with the invariant again, or does not return, exactly if it panics, lacks pages or nodes, or is a request that goes on from a freed node |
| KernelRuns.Run | CORE/src/mm/vmm.c:30-62 | over every sequence of them, up to the first call that does not return, in every state the invariant holds, every frame has one use, every mapped private page is writable and open to user code exactly in user space, and every mapped address of the linear window translates to its offset |
| KernelRuns.RunKeepsPage | CORE/src/mm/vmm.c:30-62 | over every such run a page keeps its frame unless a fault at it, heap growth at it or a request that unmaps it occurs |
| HeapBlocks.SpliceTiled | CORE/src/mm/vmm.c:523-533 | replacing blocks by blocks of the same extent keeps the headers tiling the heap |
| HeapBlocks.LivePayloadsDisjoint | CORE/src/mm/vmm.c:484-551 | live payloads do not overlap |
| HeapBlocks.TakenTiled | CORE/src/mm/vmm.c:514-533 | after an allocation the headers tile the heap, LAST on the last one |
| HeapBlocks.TakenCoalesced | CORE/src/mm/vmm.c:514-533 | the last block stays free and no two neighbours are free |
| HeapBlocks.TakenKeeps | CORE/src/mm/vmm.c:514-533 | an allocation writes no word of a live payload |
| HeapBlocks.ReleasedTiled | CORE/src/mm/vmm.c:578-596 | after freeing and two-sided merging the headers tile the heap |
| HeapBlocks.ReleasedKeeps | CORE/src/mm/vmm.c:578-596 | freeing writes no word of another live payload |
| HeapBlocks.WindowSafe | CORE/src/mm/vmm.c:599-616 | a page given back holds no header and no live payload word |
| HeapBlocks.WindowComplete | CORE/src/mm/vmm.c:599-616 | afterwards no page wholly inside a free payload has memory |
| HeapBlocks.TouchVacated | CORE/src/mm/vmm.c:599-616 | accesses to headers and live payloads bring no page of a free payload back |
| HeapPages.MapHeapPage | CORE/src/mm/vmm.c:471-480 | a free frame is mapped behind the kernel heap, writable and closed to user code, as all pages of the heap are; halted exactly if frame and missing tables exceed the free pages, or the address space ends |
| HeapPages.HeapByteRights | CORE/src/mm/vmm.c:480-492 | so every byte of a kernel heap may be written by the kernel and not used by user code |
| HeapPages.DiscardRun | CORE/src/mm/vmm.c:613-614 | the two requests leave the run committed and unmapped and give exactly its frames back; stuck exactly if the first runs out of nodes |
| HeapPages.TouchPage | CORE/src/mm/vmm.c:43-58 | an access to a page of a user heap leaves it mapped, by a fault if need be, and maps no other; starved exactly if frame and missing tables exceed the free pages |
| Heap.RoundRequestIff | CORE/src/mm/vmm.c:497-502 | a request is rounded to no less than it asks for if and only if it is at most 2^64 - 8, and then to at least 8 bytes and less than 8 more, but that an empty one takes 8 |
| Heap.GrowsDespiteRoomIff | CORE/src/mm/vmm.c:510-513 | a request some block has room for needs the heap to grow exactly if it fills the last block |
| Heap.GrewInUserIff | CORE/src/mm/vmm.c:512-513 | a user request runs the kernel's growth code exactly if it fills the last block |
| Heap.FreshUserHeapFills | CORE/src/user/user.c:22-28 | in a fresh user heap the request for its whole payload does |
| Heap.EnoughPages | CORE/src/mm/vmm.c:545-549 | with four free pages for each page needed a kernel request is served |
| Heap.AllocatedMeaning | CORE/src/mm/vmm.c:484-551 | exactly the new payload joins the live ones, and the block chain stays coalesced |
| Heap.GivenMeaning | CORE/src/mm/vmm.c:484-551 | the address that a request is given is that of a payload with at least 8 bytes and the bytes asked for; it alone has become live |
| Heap.AllocatedPayload | CORE/src/mm/vmm.c:520-534 | payload addresses are multiples of 8 inside the heap |
| Heap.AllocThenFree | CORE/src/mm/vmm.c:484-619 | freeing at once restores the identical block chain |
| Heap.FreedMeaning | CORE/src/mm/vmm.c:552-619 | exactly the freed payload leaves the live ones, and the block chain stays coalesced |
| Heap.Heap.Kernel | CORE/src/mm/vmm.c:25-27 | a kernel heap before its first use |
| Heap.Heap.User | CORE/src/user/user.c:22-28 | the heap of a process: one free last block over its range |
| Heap.Heap.ExpandHeap | CORE/src/mm/vmm.c:468-483 | the last block and the heap grow by one mapped page, writable and closed to user code, live payloads keep their contents; halted exactly if the page cannot be mapped |
| Heap.Heap.FindFree | CORE/src/mm/vmm.c:504-541 | the first free block with room, or the last block if there is none |
| Heap.Heap.GrowTo | CORE/src/mm/vmm.c:545-549 | the fewest pages that hold the request, each at the cost of at most four free pages, or the halt when they run out |
| Heap.Heap.Split | CORE/src/mm/vmm.c:514-533 | the chosen block is taken and its rest becomes a free block |
| Heap.Heap.HeapAlloc | CORE/src/mm/vmm.c:484-551 | serving block, growth and answer for every request on a kernel or user heap; live payloads keep their contents; all pages of a kernel heap stay mapped, writable and closed to user code; a user request runs the growth code exactly if it fills the last block |
| Heap.Heap.HeapFree | CORE/src/mm/vmm.c:552-619 | an address that is no payload changes nothing; a live payload is merged with free neighbours; other payloads keep their contents; the pages given back are unmapped; stuck exactly if there are such pages and their first request runs out of nodes |
| Heap.Heap.FreeBlock | CORE/src/mm/vmm.c:573-616 | the merge with both neighbours; a block free already changes no word |
| Heap.Heap.DiscardPages | CORE/src/mm/vmm.c:599-616 | exactly the pages of the window lose their memory, through the kernel's requests; stuck exactly if the first of them runs out of nodes |
| Heap.Heap.Touch | CORE/src/mm/vmm.c:43-58 | an access to a header or a live payload of a user heap keeps the heap valid, through a page fault if its page is not mapped; it never panics |
| HeapRuns.StartHeap | CORE/src/user/user.c:22-28 | the request for the range of a user heap and the fault of its first header give a valid heap of one free block; there is none exactly if the request or the fault is not served; in a new address space with five free pages there is one, at 0x1000 |
| HeapRuns.BootHeap | CORE/src/user/user.c:22-28 | so a kernel that has just started, with seven pages in the first usable region, gives its process a heap at 0x1000 |
| HeapRuns.Perform | CORE/src/mm/vmm.c:484-619 | an allocation, a free or an access of a process either returns and does what its contract says, or does not return, exactly under its condition |
| HeapRuns.RunHeap | CORE/src/mm/vmm.c:484-619 | over every sequence of them, faults included, no page wholly inside a free payload is mapped in any state |
| CycleBits.HoldsPending | CORE/src/driver/xhci/xhc_ring.c:6-17 | a reader less than a lap behind finds the entry it waits for with the bit of its lap |
| CycleBits.HoldsStale | CORE/src/driver/xhci/xhc_ring.c:8-9 | an entry not written in this lap never carries its bit |
| XhciRing.LinkedRing.constructor | CORE/src/driver/xhci/xhc_ring.c:31-46 | a zeroed ring with its link |
| XhciRing.LinkedRing.QueueTransfer | CORE/src/driver/xhci/xhc_ring.c:47-64 | with fewer than 255 entries outstanding the entry joins the queue, across the link and any number of laps |
| XhciRing.LinkedRing.Fetch | CORE/src/driver/xhci/xhc_ring.c:47-64 | a consumer that follows the cycle bits takes exactly the queued entries in order, never stale or twice |
| XhciRing.OverrunHidesNext | CORE/src/driver/xhci/xhc_ring.c:49-63 | with 255 outstanding, one more hides the next entry from the consumer |
| XhciRing.EventRing.Pop | CORE/src/driver/xhci/xhc_ring.c:6-17 | returns exactly the next posted event, or none if all are taken |
| XhciRing.Controller.ProcessEvents | CORE/src/driver/xhci/xhci.c:262-300 | every pending event is taken in order; the last command completion and the last transfer event of each endpoint land in their COMP |
| XhciRing.Controller.SendCommand | CORE/src/driver/xhci/xhci.c:232-242 | against every schedule of controller and interrupt that answers it, the wait ends with the completion of the command just sent; nothing is outstanding before or after |
| NvmeQueue.IdAtNext | CORE/src/driver/nvme/nvme.c:13-16 | the identifier of each submission |
| NvmeQueue.IdsDistinct | CORE/src/driver/nvme/nvme.c:13-16 | identifiers are never 0 or 0xFFFF, and any 65534 consecutive ones differ; the next repeats |
| NvmeQueue.PhaseTest | CORE/src/driver/nvme/nvme.c:30-31 | the phase test accepts exactly an entry posted in this lap |
| NvmeQueue.QueuePair.Submission | CORE/src/driver/nvme/nvme.c:11-25 | the command is queued with its identifier and the tail stays in the ring |
| NvmeQueue.QueuePair.Execute | CORE/src/driver/nvme/nvme.c:23-42 | a controller that goes by the two doorbells takes a command exactly if one is queued and the completion queue has room |
| NvmeQueue.QueuePair.Poll | CORE/src/driver/nvme/nvme.c:26-45 | one polling round answers exactly when a new completion is there, with its contents |
| NvmeQueue.QueuePair.Transfer | CORE/src/driver/nvme/nvme.c:63-66 | over unbounded runs each completion carries the identifier just submitted |
| ReentrantLock.MutualExclusion | CORE/src/async/async.c:5-19 | at most one core holds the lock; CORE names it and CONT is its depth |
| ReentrantLock.StepKeepsInv | CORE/src/async/async.c:5-19 | every memory access of every core keeps the invariant if and only if it does not drop the lock with its owner inside |
| ReentrantLock.DropsIff | CORE/src/async/async.c:16-18 | that happens exactly at a positive depth that is a multiple of 65536 |
| ReentrantLock.EveryRunExcludes | CORE/src/async/async.c:5-19 | so below that depth the invariant holds in every interleaving of any number of cores |
| ReentrantLock.BoundIsTight | CORE/src/async/async.c:5-19 | the bound cannot be raised: 65537 calls of async_lock and one of async_unlock reach a dropped lock with its owner inside |
| ReentrantLock.TwoCoresInside | CORE/src/async/async.c:5-19 | and then a second core gets in |
| RunList.EncodeExample | EFI/src/ntfs.c:10-23 | how the model writes runs: 24 clusters from 0x5634 on, then 3 clusters 16 before that |
| RunList.ReadLittle | EFI/src/ntfs.c:16-21 | the byte loops compute the little-endian value |
| RunList.SignExtended | EFI/src/ntfs.c:22-23 | sign extension of a delta of 1 to 7 bytes is the delta in 64 bits |
| RunList.LogicalClusterNumber | EFI/src/ntfs.c:3-29 | on every encoded run list a cluster of run k gives its start plus the distance into it, one past the end gives 0 |
| BootMemoryMap.SortMemoryMap | EFI/src/main.c:219-244 | a sorted permutation, in place |
| BootMemoryMap.CompactMemoryMap | EFI/src/main.c:245-268 | the compacted descriptors in place and their number; 1 for an empty map |
| BootMemoryMap.CompactedMeaning | EFI/src/main.c:245-268 | the page-to-type map is kept and no consecutive pair is left to merge |
| BootMemoryMap.NormalForm | EFI/src/main.c:219-268 | on sorted maps the result depends only on the page map, not on how it was cut into descriptors |
| BootMemoryMap.SortedIsLaid | EFI/src/main.c:219-244 | sorting descriptors that do not overlap lays them out |
| BootMemoryMap.NormalizeMemoryMap | EFI/src/main.c:579-580 | on every map without overlaps, sorting and compacting give the canonical form of its page map |
| FormatText.DigitsMeaning | CORE/src/std/sprintf.c:106-128 | the digits have the value of the number and no leading zero |
| FormatText.DigitsFitIff | CORE/src/std/sprintf.c:101-128 | bases 10 and 16 always fit the buffer, base 8 exactly below 8^21 |
| FormatText.OctalOverflow | CORE/src/std/sprintf.c:101 | the largest 64-bit number shows it |
| FormatText.IntTextLength | CORE/src/std/sprintf.c:134-197 | a field is as wide as the larger of width and payload |
| FormatText.IntTextReadsBack | CORE/src/std/sprintf.c:134-197 | sign and value parse back under every flag, width and precision |
| FormatMeaning.IntTextMeaning | CORE/src/std/sprintf.c:134-197 | an integer field as its reader sees it: sign and value, the digits without leading zeros and in one case, the sign or prefix that the flags ask for, and what fills the width and on which side |
| FormatMeaning.NumberFieldUnique | CORE/src/std/sprintf.c:134-197 | this determines the field: there is one such text |
| FormatMeaning.StrTextMeaning | CORE/src/std/sprintf.c:288-304 | a string field holds the characters up to the end, the NUL or the precision, with spaces up to the width on the side asked for |
| FormatMeaning.ConvertedShows | CORE/src/std/sprintf.c:431-596 | every conversion shows its argument: %d and %i the number in the range of their type that is congruent to the word, %u, %o, %x, %X and %p the unsigned one, by the range of each length modifier; %s the string, %c the low byte |
| FormatMeaning.ConvertedIff | CORE/src/std/sprintf.c:431-596 | and that determines its text and the arguments left |
| FormatMeaning.FormattedIff | CORE/src/std/sprintf.c:318-602 | a text is that of a format if and only if every character that is no conversion stands for itself and every conversion shows the next argument |
| FormatMeaning.CoveredWithout | CORE/src/std/sprintf.c:431-596 | a format without the letters f, F and o has no conversion that is not covered |
| Sprintf.U64ToStr | CORE/src/std/sprintf.c:106-128 | the digits, written backwards, a NUL behind them |
| Sprintf.FormatContext.Putc | CORE/src/std/sprintf.c:52-62 | one more character, clipped by the buffer or shown |
| Sprintf.FormatContext.EmitInt | CORE/src/std/sprintf.c:134-197 | the integer field |
| Sprintf.FormatContext.EmitStr | CORE/src/std/sprintf.c:288-304 | the string field, cut by the precision |
| Sprintf.FormatContext.EmitChar | CORE/src/std/sprintf.c:306-312 | the character field |
| FormatSpecs.SpecReadsBack | CORE/src/std/sprintf.c:330-425 | every combination of flags, width, precision and length parses back to what it means, wherever it stands |
| FormatSpecs.ConversionReadsBack | CORE/src/std/sprintf.c:330-425 | so it does in every format, between any text before it and any text after its conversion character |
| Sprintf.FormatContext.Convert | CORE/src/std/sprintf.c:431-596 | the text of each conversion is what the conversion shows of its argument (FormatMeaning.Shows), and the arguments left; done exactly for those without floating point whose octal numbers fit |
| Sprintf.PrintableIff | CORE/src/std/sprintf.c:516-584 | which conversions that is: all but %f, and 64-bit octal from 2^63 on |
| Sprintf.FormatContext.CoreVsnprintf | CORE/src/std/sprintf.c:318-602 | a text in which every conversion shows its argument, and its NUL, whatever the sink and the capacity, exactly for formats of such conversions |
| Sprintf.ClippedMeaning | CORE/src/std/sprintf.c:56-57 | a buffer of capacity n holds the first n - 1 characters at most, the other bytes unchanged |
| Sprintf.TerminatedIff | CORE/src/std/sprintf.c:598-599 | the NUL is stored exactly if the text leaves two places |
| Sprintf.Vsnprintf | CORE/src/std/sprintf.c:617-621 | the clipped text, and a result that does not depend on the capacity, also without a buffer |
| Sprintf.Vprintf | CORE/src/std/sprintf.c:607-615 | the same text and the same result on the console |

## Left out

- Multi-block UNCOMMIT and FREE requests: once a turn has freed the node of its block and pages are left, the walk goes on from the link of that node (CORE/src/mm/vmm.c:236, 282), which holds what the slot was last used for; the model states that turn and stops there, with an outcome of its own.
- DemandPaging.Kernel.Uncommit: 2M and 1G user pages, which the code frees a second time as 4K pages (CORE/src/mm/vmm.c:203-207), are excluded by the invariant that private pages are 4K pages.
- DemandPaging.Kernel.TypedAlloc: says nothing of the store once a node was taken from address 0.
- KernelRuns.Boot: what start-up does between setup_memory and the first process (drivers, consoles, further cores) and the process's own start after it; `KernelRuns.Run` and `HeapRuns.StartHeap` cover such calls once the process exists.
- DemandPaging.Kernel.VirtualMapping: asks that no larger page lies on the path. How many tables a run of several pages lacks is not counted: enough pages for all tables of the run are enough.
- PageAllocator.Vmm.SetupMemory: what happens after the empty block of a one-page first region.
- Heap.Heap.HeapAlloc: in a user heap the faults of its own header accesses are not run inside the call; `Heap.Heap.Touch` states what such a fault does, and `HeapRuns.RunHeap` has them as accesses of their own.
- XhciRing.Controller.ProcessEvents: port changes, whose effect depends on port registers, and the callback of a transfer ring.
- XhciRing.Controller.SendCommand: other driver threads.
- Sprintf.FormatContext.Convert: `%n` writes no text and its store is not modelled, arguments of the wrong kind read as zero, and widths, precisions and lengths near the limits of `int` are not wrapped.
- Sprintf.Vsnprintf: the capacity does not exceed the buffer; `vsprintf`, which passes the largest capacity, is not modelled.
- RunList.LogicalClusterNumber: sparse runs and 8-byte deltas, for which the code shifts by a negative or a full word width, and counts wider than 8 bytes.
- BootMemoryMap.CompactedMeaning: the attribute of a merged descriptor is lost by the code; the page map stated is that of types.
- Physical memory above 512 GiB: setting the high bits of the linear window in such an address does not give an address in the window.
- Several address spaces at once: one process is current; frames of other processes are held but their tables are not part of the state.
- Large pages mapped over an existing table leave that table unused for ever; it stays held. So does the frame of a page that is faulted in again.
- Stale contents: garbage fields of nodes in the first slab page are modelled as zero, since no code reads them before writing them; the repair of a wrong slab count (CORE/src/mm/vmm.c:126) is never reached.
- The calls of the lock in `vmm_alloc`, TLB flushes, CR3 loads, delays, the doorbell writes of xHCI and console colours.
- Registers and interrupts of devices, ACPI, PCI, timers, APIC and boot code; `nvm_express_read` and `ahci_ata_read`; console drawing; interrupt-vector bitmap, string helpers and GPT tests.
