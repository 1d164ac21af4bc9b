# librocdxg, verified

librocdxg is a user-mode thunk: on top of a kernel it cannot see it keeps the books for GPU memory,
virtual address space, queues and node topology. This project models that bookkeeping and proves what
it keeps over every input and every run. Code that updates things in place is modelled by classes and
loops, each proved equal to a specification function; what the code is for is proved about those
functions.

| module | file | part of the library |
|---|---|---|
| `Common`, `OrderedKeys` | Common.dfy | ranges, alignment, stepping back from `upper_bound` |
| `TopologyLinks`, `NodeTables` | TopologyLinks.dfy, NodeTable.dfy | direct and indirect io links of the node table |
| `CpuMap` | CpuMap.dfy | the decoder of the shared-CPU map of a cache |
| `SvmReserve` | SvmReserve.dfy | the address range shared by the CPU and every adapter |
| `Fragments`, `VaManager` | Fragments.dfy, VaManager.dfy | the fragment map and its best-fit virtual-address manager |
| `SystemHeaps` | SystemHeap.dfy | committing and decommitting system memory |
| `BlockHeap`, `SubAllocator` | BlockHeap.dfy, SubAllocator.dfy | fragments inside 128 MB blocks that the allocator itself supplies |
| `AllocationMap`, `AllocationTables` | AllocationMap.dfy, AllocationTable.dfy | the map from address to allocation, as a state machine and as the object that runs it |
| `QueueReferences`, `SharedImports`, `PointerLookup` | same names | three sets of theorems about that map |
| `HandleAperture`, `Lifecycle` | same names | the handle window; open, close and fork |

The kernel appears as methods with a nondeterministic, constrained result: a window not mapped before,
a range disjoint from what that adapter already holds, a fixed mapping granted or refused.

## Where the code does less than its names say

Each of these is proved, as a lemma with a concrete run or as a clause of a contract, next to the exact
condition under which the code is right.

- A buffer's queue reference is one bit, not a count (include/impl/wddm/gpu_memory.h:193-195). Destroying
  one of two queues on a ring clears it and the ring can then be freed under the other: `FlagIsNotACount`.
  Only a free looks at the bit: deregistering takes a user pointer or an imported buffer away from a running
  queue, and the next buffer at that address has a queue it does not know of: `DeregisterIgnoresQueues`.
  Over every run, bits stay true and queues stay on their buffers if and only if no queue is destroyed while
  another runs on the same object, no object with a queue is deleted by a deregister, and no new entry
  replaces that of a ring: `FlagsTrustedIff`.
- Importing a descriptor of one's own buffer adds to a count that the free of such a buffer never looks at
  (src/memory.cpp:311-326, src/wddm/gpu_memory.cpp:542-551): re-imported, it is gone with the first free,
  `OwnBufferUnprotected`. Released by frees it goes with the last one if and only if it was never re-imported,
  `OwnFreedLastIff`; with deregisters counted too, `OwnTracksIff` has the exact condition.
  A buffer of another process becomes a new flagged object at each import, counts nothing and goes with its
  one release, `ImportedUntilFirstRelease`, unless a stale descriptor of a freed own buffer hits its recycled
  address: `UncountedIff`, `RecycledNeedsFree`, `RecycledAddressCounts`.
- A hinted virtual-address allocation that lies strictly inside a free fragment other than the first is
  handed out and never recorded (src/wddm/va_mgr.cpp:55-67): `VaMgr.Alloc`, `CutIsUnhealthy`,
  `CutRangeBecomesFree`. The system heap inherits it: `SystemHeap.ReserveGpuVirtualAddress`.
- A user-pointer registration has two keys. Freeing it leaves one of them dangling unless it is freed by its
  GPU address with the other key gone; deregistering it by its GPU address does so unless the other key is
  gone: `FreeOfUserPointer`, `DeregisterByGpuAddress`, `DanglingEntry`.
- Re-mapping a registered address that is not page-aligned accepts sizes that run past the GPU range:
  `RemapCoversIff`, `RemapRunsPast`.
- The pointer lookup misses pointers into a range that another one is nested in: `NestedRangeHides`. It is
  right for every pointer if and only if no earlier range reaches past a key's own range before the next
  key: `LookupExactIff`.
- Mapping a pointer past the first page of an ordinary allocation does not find the allocation and registers
  the memory a second time, as a user pointer: `InnerPageIsRegistered`. In the first page it is right:
  `MapOfAllocation`.
- The handle-aperture search never returns to an earlier adapter, and can end on top of its aperture:
  `EarlierAdapterHit`. It finds the first clear window if and only if the windows below that one can be
  blocked by adapters in the adapters' own order: `AllClearIff`.
- Freeing a fragment a second time at the base of its block takes the block's entry away from the other
  fragments: `Allocator.FreeMemory`, `DroppingListedBlockOrphans`.
- `queue_acquire_buffer` returns an error status from a function of type bool, so an unknown ring address
  counts as acquired: `UnknownRingAccepted`.
- A decommit that the kernel refuses is ignored, so its pages stay committed though nobody owns them:
  `SystemHeap.FreeGpuVirtualAddress`.

## Model

| member | source | states |
|---|---|---|
| `TopologyLinks.RouteIff` | src/topology.cpp:873-964 | A route exists with a given weight and type if and only if the ends may be joined and first direct links make the path from a over both CPUs to b, the CPU hop no QPI link above 20; the weight is the sum over the path, the type that of the hop leaving the CPU side of a |
| `TopologyLinks.FirstToMeans` | src/topology.cpp:851-871 | The lookup finds a link if and only if it is the first to that destination |
| `TopologyLinks.FirstPcieMeans` | src/topology.cpp:831-846 | The CPU of a GPU is where its first PCIe link of weight at most 20 leads |
| `TopologyLinks.NewLinkMeans` | src/topology.cpp:966-991 | A route becomes one link of its weight modulo 2^32, and none if that is 0 |
| `TopologyLinks.ComposeStable` | src/topology.cpp:873-964 | Confluence: on any table to which some of the indirect links have been added, the route question for every pair has exactly the answer (weight, type, refusal) it has on the original table |
| `TopologyLinks.DirectCpuStable` | src/topology.cpp:831-846 | The CPU a GPU hangs off never changes while indirect links are added |
| `TopologyLinks.DirectStable` | src/topology.cpp:851-871 | A direct link found stays the one found; one missing stays missing, for every pair the pass adds no link for |
| `TopologyLinks.NewLinkOfDetachedGpu` | src/topology.cpp:917-957 | A GPU without a direct CPU never gains a link that a later lookup would take for one |
| `TopologyLinks.NotComposable` | src/topology.cpp:873-964 | The pairs the composition itself looks up (CPU to CPU, CPU to its GPU) are never pairs it adds a link for |
| `TopologyLinks.LinksOfAppendAll` | src/topology.cpp:779-828 | What a node ends with: its own links, then the new ones in loop order, cut off at the preallocated slots |
| `TopologyLinks.DirectPairNotComposed` | src/topology.cpp:873-964 | In an attached table no pair that has a direct link is given an indirect one |
| `TopologyLinks.DestinationsFit` | src/topology.cpp:798-801 | Pigeonhole: distinct destinations other than oneself number at most N-1 |
| `TopologyLinks.SlotsSuffice` | src/topology.cpp:1056-1060 | In an attached table of any size, own and new links of each node fit in N-1 slots, so nothing is cut off |
| `NodeTables.NodeTable.GpuDirectLinkCpu` | src/topology.cpp:831-846 | The scan returns the destination of the first PCIe link of weight at most 20, -1 for a CPU node or when there is none |
| `NodeTables.NodeTable.DirectIoLinkInfo` | src/topology.cpp:851-871 | The scan returns the first link to the destination, or the status that says which way it is missing |
| `NodeTables.NodeTable.HasLargeBar` | src/topology.cpp:903-910 | True exactly when some memory bank is public frame buffer |
| `NodeTables.NodeTable.IndirectIoLinkInfo` | src/topology.cpp:873-964 | The step-by-step lookup with its 32-bit running sum yields the composed route: its type, its sum modulo 2^32, or weight 0 and the status of the hop that failed |
| `NodeTables.NodeTable.AddIoLink` | src/topology.cpp:782-828 | Appends one link to one node, or changes nothing and reports no memory exactly when N-1 links are in use |
| `NodeTables.NodeTable.CreateIndirectGpuLinks` | src/topology.cpp:966-991 | The in-place double loop, reading the table it extends, ends in the table computed from the original alone; in an attached table no addition is refused |
| `NodeTables.NodeTable.TakeSnapshot` | src/topology.cpp:1056-1111 | For every number of adapters: one PCIe link of weight 20 to node 0 per GPU, none for the CPU node, and a link pass that changes nothing |
| `NodeTables.SnapshotLinks` | src/topology.cpp:757-777 | The links of a snapshot node as a reader sees them, and the direct CPU they give |
| `NodeTables.SnapshotQuiet` | src/topology.cpp:1106-1111 | Every snapshot satisfies the hypotheses of both theorems, and the pass is the identity on it |
| `NodeTables.NodeTable.GetNodeIoLinks` | src/topology.cpp:1379-1419 | Succeeds exactly for a known node and at most its number of links, with the status of each refusal; the copy is that prefix, inside the link vector |
| `CpuMap.WordCount` | src/topology.cpp:232-236 | (length + 8) / 9 is the number of words for every well-formed map |
| `CpuMap.WordFits` | src/topology.cpp:237-239 | Every word of up to 8 digits is a 32-bit value |
| `CpuMap.PrintThenRead` | src/topology.cpp:237-243 | Reading a printed word gives back its value, for every width |
| `CpuMap.PrintedMapReadsBack` | src/topology.cpp:232-243 | What is read off a printed map are the bits of the words printed, last word first |
| `CpuMap.WordBits` | src/topology.cpp:239-242 | Of the sum of 2^b over the processors of a word, bit b is set if and only if that processor is in the set |
| `CpuMap.PrintedSetReadsBack` | src/topology.cpp:232-243 | Round trip: a processor is in the map printed for a set if and only if it is in the set |
| `CpuMap.PrintThenDecode` | src/topology.cpp:225-253 | From a set of processors through its text: exactly the in-range APIC ids of the set are marked |
| `CpuMap.NextToken` | src/topology.cpp:237-251 | One tokenizer call returns exactly the next word and the position after its comma |
| `CpuMap.CpumapToCpuCi` | src/topology.cpp:225-253 | `SiblingMap[a]` is set exactly for in-range APIC ids a of processors in the map; every other cell is untouched |
| `SvmReserve.OnlyWindowsTrim` | src/openclose.cpp:106-113 | Trimming left and right leaves exactly the wanted range of that window, with both lengths non-negative |
| `SvmReserve.GrantAdds` | src/openclose.cpp:85-96 | An adapter that already holds the stale base cannot grant it again, and everyone who held it still does |
| `SvmReserve.AddressSpace.AskAdapters` | src/openclose.cpp:77-97 | One attempt asks every adapter once; it is a full match if and only if each of them granted in this attempt, and then all hold the same range within the window; a base kept from an earlier attempt rules that out |
| `SvmReserve.AddressSpace.TryWindows` | src/openclose.cpp:65-104 | Over up to 16 attempts exactly the recorded windows are mapped, and a match is only possible after attempts in which nobody granted anything |
| `SvmReserve.AddressSpace.TrimWindow` | src/openclose.cpp:106-113 | Of the matching window only [base, base+size) stays mapped |
| `SvmReserve.AddressSpace.ReleaseWindows` | src/openclose.cpp:120-126 | Every other window of the run is unmapped and nothing else |
| `SvmReserve.AddressSpace.ReserveSvmSpace` | src/openclose.cpp:55-129 | Success: same page-aligned base on every adapter, within `align` of the last window, exactly that range added to the CPU mappings, no earlier attempt had a grant. Failure: only after 16 attempts or a refused window, CPU mappings as before, and any ranges left with adapters are one and the same |
| `SvmReserve.AddressSpace.FreeSvmSpace` | src/openclose.cpp:165-180 | Removes the range from the CPU and from every adapter, and nothing else |
| `SvmReserve.AddressSpace.ReserveThenFree` | src/openclose.cpp:55-180 | Round trip: reserving and freeing restores the CPU mapping always and the adapters' ranges whenever the reservation succeeded |
| `Fragments.Partition` | src/wddm/va_mgr.cpp:11-15 | Every address of the window lies in exactly one fragment |
| `Fragments.IdleIsOneFragment` | src/wddm/va_mgr.cpp:17-26 | With nothing live the map is one free fragment covering the window, which is what the destructor warns about otherwise |
| `Fragments.CarveTiled` | src/wddm/va_mgr.cpp:97-124 | Carving a range out of a free fragment keeps the fragments a tiling and overwrites no entry |
| `Fragments.CarveLive` | src/wddm/va_mgr.cpp:97-124 | Carving adds exactly one live range, at an address not live before |
| `Fragments.CarveCompacted` | src/wddm/va_mgr.cpp:97-124 | Carving never leaves two free neighbours |
| `Fragments.CarveListed` | src/wddm/va_mgr.cpp:97-124 | The free list stays the multiset of free fragments, and is unchanged outside the window |
| `Fragments.ReleaseTiled` | src/wddm/va_mgr.cpp:129-162 | Freeing with both merges keeps the tiling |
| `Fragments.ReleaseLive` | src/wddm/va_mgr.cpp:129-162 | Freeing removes exactly the freed range from the live ones |
| `Fragments.ReleaseCompacted` | src/wddm/va_mgr.cpp:129-162 | One merge down and one up suffice: no two free neighbours remain anywhere |
| `Fragments.ReleaseListed` | src/wddm/va_mgr.cpp:129-162 | The free list again is the multiset of free fragments |
| `Fragments.BestFitExists` | src/wddm/va_mgr.cpp:83-87 | If any listed fragment is large enough there is a smallest such one |
| `VaManager.CarveHealthy` | src/wddm/va_mgr.cpp:97-124 | The four invariants together, and the new range lies in the window clear of every live range |
| `VaManager.ReleaseHealthy` | src/wddm/va_mgr.cpp:129-162 | The four invariants survive a free |
| `VaManager.CutIsUnhealthy` | src/wddm/va_mgr.cpp:51-67 | After a hinted allocation inside a fragment the invariants fail whatever the free list is, and the address has no entry |
| `VaManager.CutRangeBecomesFree` | src/wddm/va_mgr.cpp:51-162 | After one more allocation and free behind it, the unrecorded range is part of a free fragment again |
| `VaManager.VaMgr.constructor` | src/wddm/va_mgr.cpp:11-15 | Starts valid with nothing live |
| `VaManager.VaMgr.AllocImpl` | src/wddm/va_mgr.cpp:75-127 | Records exactly one range, inside the window, aligned and disjoint from all live ones: at the base of a best fit, or, that being misaligned, at the first aligned address of a best fit with slack; returns 0, changing nothing, only when no fragment has the bytes or none the slack the misaligned fit calls for |
| `VaManager.VaMgr.FindServing` | src/wddm/va_mgr.cpp:33-49 | The backward walk finds a free fragment holding the hinted range exactly when one other than the first exists |
| `VaManager.VaMgr.Alloc` | src/wddm/va_mgr.cpp:28-73 | A wished-for range inside a free fragment other than the first is what is handed out; the manager stays valid if and only if it does not begin strictly inside that fragment; every other wish is served as an unhinted request |
| `VaManager.VaMgr.MergeDown` | src/wddm/va_mgr.cpp:136-148 | The lower merge as a function of the map before |
| `VaManager.VaMgr.Publish` | src/wddm/va_mgr.cpp:149-161 | The upper merge and the new free-list entry as a function of the map before |
| `VaManager.VaMgr.Free` | src/wddm/va_mgr.cpp:129-162 | Any address at all may be freed: exactly its live range goes, if it is one, and the manager stays valid |
| `SystemHeaps.CoverAdd` | src/openclose.cpp:210-240 | A new live range adds exactly its pages to the union of live ranges |
| `SystemHeaps.CoverDrop` | src/openclose.cpp:242-253 | Dropping one of separate live ranges removes exactly its pages |
| `SystemHeaps.SystemHeap.Commit` | src/openclose.cpp:210-240 | Commits exactly the range, or changes nothing; never at address 0 |
| `SystemHeaps.SystemHeap.Decommit` | src/openclose.cpp:242-253 | Gives up exactly the pages and keeps the range reserved, or changes nothing |
| `SystemHeaps.SystemHeap.ReserveGpuVirtualAddress` | src/openclose.cpp:261-288 | Output non-zero exactly on success; a hint that can be served is the answer, any other request goes to the best fit, aligned to 2 MB from 2 MB on, else as asked or to 64 KB; the heap stays sound if and only if the hint is not strictly inside a serving fragment; failures restore live ranges and pages. The heap stays reserved in any case |
| `SystemHeaps.SystemHeap.FreeGpuVirtualAddress` | src/openclose.cpp:290-302 | The range is given back either way; its pages go with it unless the kernel refused |
| `SystemHeaps.SystemHeap.Serve` | src/openclose.cpp:210-302 | Over every run of hinted and unhinted requests, up to the first hint inside a serving fragment: the whole heap stays reserved, and the committed pages are exactly the live ranges plus what refused decommits left behind |
| `BlockHeap.BlockOfAddress` | src/util/simple_heap.h:150-157 | Stepping back from `upper_bound` finds the block that holds an address |
| `BlockHeap.CarveBlock` | src/util/simple_heap.h:141-200 | Carving inside one block keeps the invariant of the whole heap, shared free list included |
| `BlockHeap.NewBlock` | src/util/simple_heap.h:202-226 | Entering a block with its first fragment keeps it |
| `BlockHeap.ReleaseBlock` | src/util/simple_heap.h:267-334 | A free keeps it, and the block is given up exactly when its only fragment is the whole free block |
| `BlockHeap.TakeFrontRecords` | src/util/simple_heap.h:160-171 | Serving from the front of a fragment records the address if and only if the size is positive |
| `SubAllocator.FragmentOf` | src/util/simple_heap.h:272-278 | The lookup of a free succeeds exactly for live fragments, even when a fragment and its block share a base |
| `SubAllocator.FragmentsInsideBlocks` | src/memory.cpp:227-273 | Layering: each live fragment lies inside a block still in the allocation map, clear of every other fragment and of every direct allocation |
| `SubAllocator.HeldNotClaimed` | src/memory.cpp:294-328 | An address a user holds is either a live fragment or no block of the heap: each free has one owner |
| `SubAllocator.DroppingListedBlockOrphans` | src/memory.cpp:294-324 | Removing the map entry of any block in use leaves a live fragment outside every entry: why an address may be freed only once |
| `SubAllocator.Allocator.AllocMemory` | src/memory.cpp:151-273 | Either a fragment of the rounded size or a map entry of the asked size, fresh in both cases; a small request leaves the heap unused only if nothing fits and the cache is empty; a refusal comes only after the cache is given back; recursion and trim retry terminate |
| `SubAllocator.Allocator.BlockAlloc` | src/memory.cpp:122-134 | The callback into the allocator yields a whole block that nobody holds and disturbs nothing |
| `SubAllocator.Allocator.HeapAlloc` | src/util/simple_heap.h:132-236 | Exactly one new live fragment: from the fragments where they fit, else from the block cached last, else from one new block; refused only if nothing fits and the cache is empty |
| `SubAllocator.Allocator.FromFragments` | src/util/simple_heap.h:132-200 | Best fit with one retry, at the first aligned address, 2 MB for sizes from 2 MB on and a page otherwise; refused only if nothing fits |
| `SubAllocator.Allocator.FromBlock` | src/util/simple_heap.h:202-236 | The newest cached block, else one new block; exactly it joins the heap |
| `SubAllocator.Allocator.FreeMemory` | src/memory.cpp:286-328 | For any address: succeeds exactly on live fragments and on entries no queue refers to; the books stay right if and only if no entry goes that is a block of the heap; every other entry keeps its owner |
| `SubAllocator.Allocator.HeapFree` | src/util/simple_heap.h:267-334 | Succeeds exactly for live fragments and removes exactly that one; a block without fragments goes to the cache, which is then balanced |
| `SubAllocator.Allocator.BlockFree` | src/memory.cpp:136-139 | The block leaves the map exactly if no queue refers to it, and nothing else changes |
| `SubAllocator.Allocator.Balance` | src/util/simple_heap.h:336-344 | Keeps the newest cached blocks, at most twice those in use and one; the others leave the map, but for those a queue refers to |
| `SubAllocator.Allocator.Trim` | src/util/simple_heap.h:346-351 | Empties the cache; every block of it leaves the map, but for those a queue refers to |
| `SubAllocator.Allocator.Serve` | src/memory.cpp:122-328 | Over every run of sub-allocated and direct allocations of any size, frees of held addresses, trims and queue references: every entry of the map is a block in use, a cached block, held by a user, or one whose release a queue prevented; fragments lie in mapped 128 MB blocks, and no two ranges overlap |
| `SubAllocator.DropEntryIff` | src/memory.cpp:302-323 | An entry may leave the map if and only if it is neither a block in use nor a cached one |
| `SubAllocator.RealSizeCovers` | src/memory.cpp:231-236 | The size asked of the heap: the next page up to 2 MB, the next 2 MB beyond |
| `AllocationMap.DropCoherentIff` | src/memory.cpp:323-326 | Deleting an object keeps the map coherent if and only if all of its keys go with it |
| `AllocationMap.FreeKeepsCoherent` | src/memory.cpp:286-328 | A free keeps entries and live objects in step |
| `AllocationMap.DeregisterKeepsCoherent` | src/memory.cpp:800-834 | So does deregistering a user pointer by the address it was mapped with |
| `AllocationMap.RegisterReplacesOnlyUserPointers` | src/memory.cpp:865-947 | Entering a user pointer replaces at most user-pointer entries, and no object's own key |
| `AllocationMap.MapKeepsCoherent` | src/memory.cpp:848-952 | Every path of mapping keeps entries and live objects in step |
| `AllocationMap.StepKeepsCoherent` | src/memory.cpp:249-328 | Each step of the API keeps: every entry names a live object, every live object has its entry |
| `AllocationMap.RunKeepsCoherent` | src/memory.cpp:681-952 | So does every run |
| `AllocationMap.FreeOfUserPointer` | src/memory.cpp:286-328 | Freeing a user pointer keeps it if and only if the address is its GPU address and the pointer it was mapped with no longer leads to it |
| `AllocationMap.DeregisterByGpuAddress` | src/memory.cpp:826-831 | Deregistering through the GPU address keeps it if and only if the pointer it was mapped with is the same address or no longer leads to it |
| `AllocationMap.DanglingEntry` | src/memory.cpp:826-831 | A run of two calls that leaves an entry whose object is deleted |
| `AllocationMap.HandleRoundTrip` | src/libdrm.cpp:98-103 | After every run, mapping and unmapping included, the address `amdgpu_bo_free` computes from the handle is the one key of that object |
| `AllocationTables.AllocationTable.AllocateObject` | src/memory.cpp:251-264 | The new state is that of the allocation step: entered under the handle-aperture address if physical only, else under the GPU address |
| `AllocationTables.AllocationTable.ImportObject` | src/memory.cpp:726-742 | The new state is that of the import step; VRAM with an address of its own is flagged and counts nothing |
| `AllocationTables.AllocationTable.FreeMemory` | src/memory.cpp:286-328 | Status and whole new state of a free, queue and shared references included |
| `AllocationTables.AllocationTable.DeregisterMemory` | src/memory.cpp:800-834 | Status and whole new state, with the second key read before the first erase |
| `AllocationTables.AllocationTable.ImportSameProcess` | src/memory.cpp:708-720 | Import of a descriptor of this process: only the count of what lives at its address changes; an unknown address is an error |
| `AllocationTables.AllocationTable.MapMemoryToGpuNodes` | src/memory.cpp:848-952 | Status, returned GPU address and whole new state on all paths |
| `AllocationTables.AllocationTable.BoVaMap` | src/libdrm.cpp:153-180 | Status and new state of mapping an object at a reserved address |
| `AllocationTables.AllocationTable.BoVaUnmap` | src/libdrm.cpp:181-188 | Status and new state of unmapping it |
| `AllocationTables.AllocationTable.BoFree` | src/libdrm.cpp:98-103 | Frees the object itself: succeeds exactly if no queue is marked on it, and deletes it unless it is imported and counts further references |
| `AllocationTables.AllocationTable.AcquireBuffer` | src/memory.cpp:335-354 | True for every non-null address; only a known buffer is marked |
| `AllocationTables.AllocationTable.CreateQueueOn` | src/queues.cpp:60-129 | Effect of creating a queue on its ring's reference |
| `AllocationTables.AllocationTable.DestroyQueueAt` | src/queues.cpp:161-173 | Effect of destroying a queue on its ring's reference |
| `AllocationTables.AllocationTable.ExportDmabufHandle` | src/memory.cpp:509-533 | Succeeds exactly when an entry lies at or below the pointer and it has a cached descriptor or can be shared; the descriptor is created once and cached |
| `AllocationTables.AllocationTable.QueryPointerInfo` | src/memory.cpp:1033-1065 | For any map: what is found contains the pointer and has the greatest key below it; where nothing is hidden, found exactly when some entry contains the pointer |
| `QueueReferences.FreeSpares` | src/memory.cpp:301-324 | A free never takes a buffer from a queue; freeing an object in use, of whatever kind, is refused and changes nothing |
| `QueueReferences.FreeOutcome` | src/memory.cpp:286-328 | While flags are true: a free succeeds if and only if the address is in the map and no queue runs on its object, which is then gone unless it is imported and counts further references |
| `QueueReferences.DeregisterOutcome` | src/memory.cpp:800-834 | Success for every address but 0; the object is deleted if and only if it is a user pointer or an imported buffer that counts no further reference |
| `QueueReferences.DestroyFlagsIff` | include/impl/wddm/gpu_memory.h:193-195 | Destroying a queue keeps every flag true if and only if no other queue runs on the same object |
| `QueueReferences.DeregisterIff` | src/memory.cpp:800-834 | A deregister keeps every queue on its buffer if and only if it deletes no object with a queue |
| `QueueReferences.MapIff` | src/memory.cpp:848-952 | So does a registration if and only if neither of its two keys is a ring |
| `QueueReferences.StepFlagsIff` | src/memory.cpp:335-375 | For every kind of step and rings on any mapped address: flags stay true and each queue stays on its object if and only if the step is harmless |
| `QueueReferences.FlagsTrustedIff` | src/queues.cpp:161-173 | Over whole runs: flags agree with the live queues and queues keep their buffers throughout if and only if every step is harmless |
| `QueueReferences.QueuedBuffersSurvive` | src/memory.cpp:307-309 | In such runs every ring of a live queue is still in the map, and every free of it is refused |
| `QueueReferences.QueueKeepsItsBuffer` | src/queues.cpp:83-128 | In such runs a queue nobody destroys ends on the object it started on |
| `QueueReferences.FlagIsNotACount` | src/queues.cpp:161-173 | A run of five calls after which a live queue's ring is gone |
| `QueueReferences.DeregisterIgnoresQueues` | src/memory.cpp:800-834 | A run of three calls that takes a user pointer from its queue; the next buffer at that address has a queue its flag does not know |
| `QueueReferences.UnknownRingAccepted` | src/memory.cpp:335-354 | For every unknown address: the queue is created, no object is marked, and the ring is in no entry |
| `SharedImports.BeginsUncounted` | src/wddm/gpu_memory.cpp:553-576 | An object this process creates is not flagged, an imported one exactly if it is VRAM with an address; both count nothing |
| `SharedImports.RunFollows` | src/memory.cpp:311-326 | For every object that is not a user pointer, every starting count and every allowed run: the object lives exactly as long as the count over its successful calls says so, and holds that count |
| `SharedImports.PresenceIsCount` | src/memory.cpp:816-825 | In every allowed run the object is present while references are out and gone afterwards if and only if the bare count would have it so |
| `SharedImports.UncountedIff` | src/memory.cpp:708-720 | Over whole runs the count of imported buffers stays 0 if and only if no descriptor of this process names an address where one now lives |
| `SharedImports.RecycledNeedsFree` | src/wddm/gpu_memory.cpp:542-551 | That happens only after this process has freed its own buffer at that address |
| `SharedImports.ImportedUntilFirstRelease` | src/memory.cpp:816-825 | Otherwise an imported buffer lives until its first successful free or deregister and goes with it |
| `SharedImports.ImportedTracksIff` | include/impl/wddm/gpu_memory.h:196-197 | With such descriptors too: it stays until its last release if and only if no release comes while several references are out and the three-bit count, one behind, has at most one left |
| `SharedImports.TracksFromOne` | src/memory.cpp:311-326 | With the count starting at 1 and fewer than 8 references out, in every allowed run the buffer stays in the map until its last release and goes with it |
| `SharedImports.RecycledAddressCounts` | src/memory.cpp:708-720 | An allowed run after which an imported buffer survives its release |
| `SharedImports.OwnTracksIff` | src/memory.cpp:311-326 | Over every allowed run a buffer of this process is present exactly while references are out if and only if its free comes with one out and each deregister with more than one |
| `SharedImports.OwnFreedLastIff` | src/memory.cpp:286-328 | Released by frees alone, it goes with the last release if and only if it was not re-imported before its first free |
| `SharedImports.OwnBufferUnprotected` | src/memory.cpp:708-720 | Every own buffer no queue runs on: re-import succeeds, and a single free still removes it |
| `PointerLookup.FindIsExact` | src/memory.cpp:1049-1058 | On disjoint ranges predecessor lookup is linear search: found iff contained, and the one container |
| `PointerLookup.LookupExactIff` | src/memory.cpp:1049-1058 | On any map the lookup is right for every pointer if and only if no earlier range reaches past the range of a key before the next key |
| `PointerLookup.StepKeepsDisjoint` | src/memory.cpp:260-263 | Each step keeps ranges non-empty and disjoint, given fresh ranges |
| `PointerLookup.FindExactInEveryRun` | src/memory.cpp:1049-1058 | So the lookup is exact after every run |
| `PointerLookup.NestedRangeHides` | src/memory.cpp:926-951 | Two allowed registrations after which a pointer into the first is not found |
| `PointerLookup.ExportOffsetRecovers` | src/memory.cpp:517-530 | For other than user pointers the offset is pointer minus base and adding it back recovers the pointer; it does so in general exactly when the entry is keyed by its object's own address |
| `PointerLookup.RegistrationCovers` | src/memory.cpp:858-951 | The aligned range covers the request, the GPU address keeps the in-page offset, and the request lies inside the GPU range |
| `PointerLookup.RemapIsStable` | src/memory.cpp:906-915 | After any allowed run that neither releases nor replaces the registration, mapping the address again with any size its entry covers gives the first answer and changes nothing |
| `PointerLookup.RemapCoversIff` | src/memory.cpp:909-913 | The range answered lies inside the GPU range if and only if in-page offset plus size fits; always for page-aligned addresses |
| `PointerLookup.RemapRunsPast` | src/memory.cpp:909-913 | A registration of one page and an accepted re-map of a page at offset 16: the answer runs past the range |
| `PointerLookup.MapOrdinary` | src/memory.cpp:893-902 | A pointer into the first page of an ordinary allocation: nothing changes, granted if and only if the size is there, and the answer is as far from the GPU address of the object as the pointer from the key |
| `PointerLookup.MapImported` | src/memory.cpp:876-891 | An imported buffer: success, no address answered, nothing changes |
| `PointerLookup.MapOfAllocation` | src/memory.cpp:868-902 | From its allocation until its free, through every allowed run: pointers into the first page map to themselves for exactly the sizes allocated |
| `PointerLookup.InnerPageIsRegistered` | src/memory.cpp:868-947 | A pointer past the first page of an ordinary allocation is registered as user memory |
| `PointerLookup.RunMappings` | src/libdrm.cpp:153-188 | Over every run until its free, an object without an address is mapped exactly where it was mapped and not unmapped since; one with an address nowhere else |
| `PointerLookup.VaMapReports` | src/libdrm.cpp:160-170 | Mapping succeeds if and only if the object has no address or that very one; unmapping undoes it |
| `HandleAperture.ClearMeans` | src/openclose.cpp:389-403 | No address of a clear 2^47 window lies in either aperture, and conversely for apertures that are not empty |
| `HandleAperture.FirstClear` | src/openclose.cpp:389-403 | For one adapter: the first window clear of both apertures, in 2^47 steps |
| `HandleAperture.ClearFromLastBump` | src/openclose.cpp:377-417 | The window found is clear of every adapter from the last one that moved it onward |
| `HandleAperture.SearchPath` | src/openclose.cpp:387-405 | The windows the search passes are blocked by adapters in non-decreasing order |
| `HandleAperture.GoesAsFar` | src/openclose.cpp:387-405 | As far as windows can be blocked in such an order, the search goes on |
| `HandleAperture.NeverOvershoots` | src/openclose.cpp:377-417 | The search never steps over a window that is clear of every adapter |
| `HandleAperture.AllClearIff` | src/openclose.cpp:377-417 | The window found is clear of all adapters, and the first such window, if and only if the windows below the first clear one can be assigned blocking adapters in non-decreasing order |
| `HandleAperture.SameAperturesFirstClear` | src/openclose.cpp:377-417 | With equal apertures everywhere it is the first window clear of all |
| `HandleAperture.EarlierAdapterHit` | src/openclose.cpp:377-417 | Two adapters for which the window found overlaps the first one's aperture |
| `HandleAperture.Runtime.InitHandleApertureSpace` | src/openclose.cpp:377-417 | The loop terminates and its field ends at the searched window, or at 0 when the start is out of range |
| `Lifecycle.StepKeepsSound` | src/openclose.cpp:447-626 | Each open, close and fork keeps: descriptor held exactly while the count is positive, nothing open or allocated before the fork handlers are installed, and afterwards a changed process id only behind the fork mark |
| `Lifecycle.CountIsBalance` | src/openclose.cpp:535-626 | Over every run the count is successful opens minus successful closes since the last fork reset, and the descriptor is held exactly when it is positive |
| `Lifecycle.GateOpenIff` | src/librocdxg.h:157-158 | Over every run, read off the calls alone: the gate is open if and only if the opens and closes since the last fork leave a reference, and the count is then their number |
| `Lifecycle.NextCall` | src/openclose.cpp:535-626 | In every reachable state what the next open and close report, that they keep the allocations of an open process, and that a gated call takes effect if and only if a reference is left |
| `Lifecycle.GateStaysShut` | src/librocdxg.h:157-158 | Closed or forked, every gated call fails until an open succeeds |
| `Lifecycle.ForkedChildIsGated` | src/openclose.cpp:461-467 | In particular in a forked child, whatever the parent had open |
| `Lifecycle.ChildOpensEmpty` | src/openclose.cpp:475-486 | The child's first successful open starts at count 1 with an empty allocation map and its own process id |
| `Lifecycle.Runtime.IsForkedChild` | src/openclose.cpp:447-459 | Detects the mark or a changed process id, and records it |
| `Lifecycle.Runtime.OpenKfd` | src/openclose.cpp:535-605 | Status and new state of an open, fork reset included |
| `Lifecycle.Runtime.CloseKfd` | src/openclose.cpp:607-626 | Status and new state of a close; closing what is not open changes nothing |
| `Common.AlignBounds` | src/util/utils.h:225-249 | Both roundings are multiples, on their own side of the value and less than one alignment away |
| `OrderedKeys.StepBack` | src/memory.cpp:1049-1051 | `upper_bound` then one step back is the greatest key at or below the pointer, or the beginning exactly when all keys are above |

## Left out

- Fixed-status stubs (debug, events, perfctr, spm, svm, pc_sampling, ais, hsakmtmodel), symbol lookup, clocks and version checks: nothing beyond one branch.
- amdsmi: command line, formatting and device queries over a library that is not part of the repository.
- sysfs and /proc readers and environment parsing: their results are parameters.
- mmap, madvise, memfd and D3DKMT calls: only their effect on sets of addresses; munmap always succeeds.
- IPC system-memory commit and decommit (src/openclose.cpp:304-375): they unmap instead of restoring the reservation.
- Mutexes: each locked region is one atomic step; no claim about lock discipline.
- The loader-failure path of an open, nested opens with live fragments, and forks that bypass libc.
- Bit-field layouts and the handling of structure sizes across versions.
- 64-bit wrap-around of addresses and sizes: addresses are unbounded; the 32-bit link weight and the 3-bit shared count are modelled with their wrap.
- Closing cached descriptors on free, node ids, memory flags and user data of an allocation record.
- Allocations and imports that the kernel refuses: the map is not touched on those paths.
- SimpleHeap's discarded blocks: unreachable, since every caller asks for less than one block.
- PointerLookup.VaMapReports: the kernel is taken to grant the mapping it is asked for.
- AllocationMap.MapKeepsCoherent: the kernel's refusal to map imported VRAM and the early return for sub-allocated fragments leave the map alone and are not modelled.
- AllocationMap.RunKeepsCoherent: user pointers are released only by deregistering the mapped address; `FreeOfUserPointer` and `DeregisterByGpuAddress` say exactly what happens otherwise.
- AllocationMap.HandleRoundTrip: `MapGpuVirtualAddress` never stores the address it maps, so mapping an object leaves its GPU address alone, as in the code.
- NodeTables.NodeTable.CreateIndirectGpuLinks: the hypotheses are no self-links, a cheap PCIe link leads to a CPU, weights stay within 32 bits, and for the capacity result an attached table.
- CpuMap.CpumapToCpuCi: every processor in the map has a record, which the code takes for granted when it indexes.
- SvmReserve.AddressSpace.ReserveSvmSpace: on failure, ranges already granted by adapters stay reserved, as in the code.
- VaManager.VaMgr.AllocImpl: positive sizes only, as all callers pass.
- VaManager.VaMgr.Alloc: positive sizes, and a hint not below the window, which the code asserts.
- SubAllocator.Allocator.AllocMemory: positive sizes; `BlockHeap.TakeFrontRecords` shows that a zero-sized fragment is handed out but not recorded.
- SubAllocator.Allocator.Balance: a block leaves the cache before its free call rather than after it; the code holds no view of the cache in between.
- SubAllocator.Allocator.Trim: likewise takes a block out of the cache before freeing it.
- HandleAperture.Runtime.InitHandleApertureSpace: addresses are unbounded, so the window may pass the end of the non-canonical range, which the code looks at only once.
- SystemHeaps.SystemHeap.Serve: requests of size 0 and hints below the heap, which the code asserts against, are passed over; the run is followed up to the first hint inside a serving fragment.
- SubAllocator.Allocator.Serve: frees of addresses not held are passed over; `SubAllocator.Allocator.FreeMemory` says exactly what they do.
- AllocationTables.AllocationTable.QueryPointerInfo: the null-pointer status and the filling of the info record are not modelled.
- AllocationTables.AllocationTable.MapMemoryToGpuNodes: an answer below 0 stands for the 64-bit address it wraps to.
- AllocationTables.AllocationTable.ImportObject: that the process and adapter of a descriptor are those of this process is an input; only which of the two imports follows is modelled.
