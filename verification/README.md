# Cronus kernel: a verified model of its memory stack and protocols

This project models the parts of the Cronus kernel on which the rest of its memory management
stands, and proves what they promise:

- **Red-black tree** (`RbShape`, `RbBalance`, `RbLinks`, `RbNearest`, `RbTree`): the intrusive tree with
  parent pointers. `RbTree.RbTree` is a class over linked nodes; a ghost shape (a tree, and a
  zipper for the position of a loop) says what every field of every node must be.
- **Page allocator** (`Blocks`, `PmmModel`, `Pmm`, `PmmTheorems`): the buddy allocator over the
  page database, with its stale entries, two zones and maximal blocks.
- **Regions** (`VmModel`, `VmUnique`, `VmTheorems`, `VmUnmap`, `VmTree`, `Vm`): the coalescing interval map of
  an address space, against the map from addresses to attributes that it stands for. An
  `AddressSpace` keeps its regions in a red-black tree of the module above and searches, inserts
  and removes through it.
- **Page tables** (`Division`, `PtmModel`, `PtmSteps`, `Ptm`, `PtmTheorems`): four-level tables in a
  memory of frames, the walk of the processor (4-level paging, Intel SDM volume 3A, sections 4.5
  and 4.6), mapping, lookup, and the kernel half that all spaces share.
- **User spaces** (`VmPtm`, `VmCopy`): regions and page tables of one user space together: after any
  mapping and any page fault the tables show what the regions say, and copying to and from user
  memory, page by page through the tables, reaches exactly the bytes behind the addresses.
- **Mutex** (`Mutex`) and **TLB shootdown** (`Tlb`): interleaved protocols for any number of
  threads or CPUs, one atomic step at a time, with invariants over all runs.
- **Slab allocator** (`SlabModel`, `Slab`): per-CPU magazines over a depot over slabs.
- **Init targets** (`Init`): recursive dependency runs, stage by stage, for the boot processor and
  each further one, up to the whole machine.
- **Number printing** (`Format`): digits, prefixes and padding.

Where the code falls short of what it is for, the exact condition under which it is right is
proved, and next to it there is an input or a run on which it goes wrong:

- unmapping several regions: `Vm.AddressSpace.Unmap`, `VmTheorems.UnmapTailExact`; inputs
  `Vm.UnmapLosesNeighbour`, `Vm.UnmapReachesUndefined`;
- asking whether memory exists, when the segment wraps around or ends with the address space:
  `Vm.ExistsExactly`; inputs `Vm.ExistsByWrapping`, `Vm.EndDoesNotExist`;
- one region sequence for each address map: `VmUnique.UniqueExactly`; `VmUnique.TwoFormsBeyondLimit`;
- looking up kernel addresses: `PtmTheorems.AnswerExact`, `PtmTheorems.History.Physical`; run
  `PtmTheorems.PhysicalMissesKernelPage`;
- the NEAREST search: `RbNearest.NearestExactly`; inputs `RbNearest.NearestMisses`, `RbNearest.NearestMissesExact`;
- shootdowns with a late interrupt: `Tlb.SafeExactly`; run `Tlb.StaleStartReachable`;
- printing with precision 0: `Format.ReadsBackExactly`, `Format.TextLength`; inputs
  `Format.PrecisionZeroCuts`, `Format.EmptySkipsPadding`.

Some hypotheses stand for things outside the modelled code. The page allocator's panic ends a
call (`None`); the frame of a new page table and the block of a new slab are any that are free and
aligned; what wakes a blocked thread is the scheduler; which interleaving happens is free.

## Model

| member | source | states |
|---|---|---|
| RbTree.RbTree.constructor | memory/vm.c:519-521 | an empty tree is valid |
| RbTree.RbTree.Rotate | lib/rb.c:29-47 | a rotation in either direction turns a (b e) into (a b) e at its place in the whole tree; every link of every node is right again and the order is the same |
| RbTree.RbTree.Transplant | lib/rb.c:16-27 | which three fields change when one node takes the place of another |
| RbTree.RbTree.RebalanceInsert | lib/rb.c:49-85 | from a tree whose only fault is one red-red edge, the fix-up ends in a red-black tree with the same nodes in the same order |
| RbTree.RbTree.Insert | lib/rb.c:87-122 | exactly the new node joins, behind all nodes with equal keys; links, order, colours, black heights and count are right |
| RbTree.RbTree.RebalanceRemove | lib/rb.c:165-219 | from a tree that lacks one black node on one path, the fix-up ends in a red-black tree with the same nodes in the same order; no sibling is null |
| RbTree.RbTree.Detach | lib/rb.c:124-163 | splicing out or replacing by the successor removes exactly the node and leaves all links right; the place and the kind of the remaining fault are known |
| RbTree.RbTree.Remove | lib/rb.c:124-220 | exactly the given node leaves, equal keys or not; the whole invariant holds again and count is one less |
| RbTree.RbTree.Search | lib/rb.c:222-272 | EXACT, LT, LTE, GT and GTE return a node with a matching or extremal qualifying key, and null exactly when none qualifies, with duplicate keys too |
| RbTree.RbTree.SearchNearest | lib/rb.c:235-238 | NEAREST returns the node above the place where the descent ends, which is the last node below the value or the first from it on; null exactly on the empty tree; for 0 a minimum |
| RbNearest.DescentNeighbours | lib/rb.c:235-238 | the last turns of the descent in either direction are the two neighbours of the value |
| RbNearest.NearestIsDeeper | lib/rb.c:235-238 | of two neighbours NEAREST returns the one that lies deeper in the tree |
| RbNearest.NearestExactly | lib/rb.c:235-238 | the node returned is a nearest one if and only if the value has one neighbour only or the deeper one is no farther than the other |
| RbNearest.NearestMisses | lib/rb.c:235-238 | with 10 at the root and 20 below it, the search for 11 returns 20 |
| RbNearest.NearestMissesExact | lib/rb.c:235-238 | with 20 at the root and 10 below it, the search for 20 itself returns 10 |
| RbBalance.LogarithmicHeight | lib/rb.c:49-85 | two to the height of a red-black tree is at most the square of its size plus one |
| RbBalance.AcceptsPlug | lib/rb.c:49-85 | a tree of the black height its surroundings ask for makes the whole tree red-black |
| RbBalance.RedBlackUnplug | lib/rb.c:165-219 | what a red-black tree demands of the subtree at any place |
| RbLinks.FarRedDone | lib/rb.c:185-189 | with a red far nephew one rotation ends the deletion fix-up in a red-black tree |
| RbLinks.RecolourShort | lib/rb.c:175-177 | with two black nephews recolouring moves the missing black one level up |
| RbLinks.NearRedShort | lib/rb.c:179-184 | a red near nephew is turned into the case of a red far one |
| RbLinks.OrderSucceeded | lib/rb.c:138-159 | putting the successor in the node's place takes exactly the node out of the order |
| PmmModel.PageCountToOrder | memory/pmm.c:35-38 | the smallest order whose block holds that many pages |
| PmmModel.BuddyIsHead | memory/pmm.c:138-140 | below the maximal order the XOR buddy is the head of a block of no larger order in the same maximal block and zone, so no stale entry is believed |
| Blocks.FlipShifted | memory/pmm.c:139 | flipping a bit of the byte address of a page is flipping that bit, lower by the page shift, of the page number |
| Pmm.BuddyPage | memory/pmm.c:139 | the page at the XOR of the byte addresses is the buddy's page |
| PmmModel.CutGood | memory/pmm.c:102-107 | splitting off the upper half keeps tiling, lists and counters |
| PmmModel.ReturnedAfter | memory/pmm.c:130-152 | after the merges exactly the freed block's pages have become free |
| Pmm.Pmm.constructor | memory/pmm.c:15-33 | an allocator without pages is valid |
| Pmm.Pmm.Alloc | memory/pmm.c:90-120 | fails exactly when no list of the zone from the order up holds a block; otherwise exactly one free aligned block of the order and zone becomes live and nothing else changes; it is the front of the first block of the smallest order that has one |
| Pmm.Pmm.Free | memory/pmm.c:130-152 | exactly the block's pages become free, and the lists are canonical again |
| Pmm.Pmm.JoinUp | memory/pmm.c:137-149 | the merge loop changes no page's meaning and stops at a block whose buddy cannot merge |
| Pmm.Pmm.ChooseOrder | memory/pmm.c:60-74 | the largest order up to 7 that fits and is aligned; the assertions on order 0 hold |
| Pmm.Pmm.RegionAdd | memory/pmm.c:40-88 | with is_free false the whole pages of the region but page 0, and no others, become managed, each in an aligned maximal block that is the largest of up to 128 pages at its place in the region's part of the zone; false, for a failed assertion at line 72, exactly when some zone's part is not empty and begins off a page boundary |
| Pmm.RegionBlocksMerge | memory/pmm.c:60-85 | pages whose aligned block of up to 128 pages lies in one region and one zone can merge up to that block |
| Pmm.ClipFacts | memory/pmm.c:47-55 | clipping to a zone keeps exactly the whole pages of the region in the zone, page 0 apart, up to the end of memory |
| PmmTheorems.ListsHoldMaximalBlocks | memory/pmm.c:90-152 | the free lists hold exactly the maximal aligned blocks of free pages inside each maximal block, each in the list of its zone and order |
| PmmTheorems.FreeSetDetermines | memory/pmm.c:130-152 | states with the same free pages have the same lists and counters |
| PmmTheorems.LiveBlocksDisjoint | memory/pmm.c:90-120 | live blocks share no page with each other or with a free block |
| PmmTheorems.FreeIsNotLive | memory/pmm.c:90-152 | a managed page is free if and only if no live block holds it: no page is lost |
| PmmTheorems.LiveBlocksDetermine | memory/pmm.c:90-152 | whatever calls led there, the live blocks alone determine lists and counters |
| PmmTheorems.AllocThenFree | memory/pmm.c:90-152 | allocating a block and freeing it restores lists and counters |
| PmmTheorems.FreesCommute | memory/pmm.c:130-152 | two frees in either order leave the same lists and counters |
| VmTree.RegionTree.Search | memory/vm.c:44-55 | on the tree of the regions, LT and LTE find the last region that starts below, or up to, the value and GT and GTE the first that starts above, or from, it |
| VmTree.RegionTree.Put | memory/vm.c:213 | rb_insert puts a region's node where the sequence of regions has it |
| VmTree.RegionTree.Drop | memory/vm.c:209 | rb_remove of a region's node takes exactly that region out, also while regions overlap inside an edit |
| VmTree.RegionTree.Alter | memory/vm.c:219 | a region's other fields change in place |
| VmTree.BelowIsRank | memory/vm.c:337 | what an LT or LTE search promises on nodes is the last region below, or up to, the value |
| VmTree.AboveIsRank | memory/vm.c:390 | what a GT or GTE search promises is the first region above, or from, the value |
| VmTree.InsertIsSplice | memory/vm.c:213 | insertion by key is the splice at the rank |
| VmTree.RemoveIsDrop | memory/vm.c:365-370 | removal of a node is removal of its region, for any ascending bases |
| Vm.AddressSpace.constructor | memory/vm.c:519-521 | an empty address space is valid |
| Vm.AddressSpace.FindRegion | memory/vm.c:44-55 | the last region that meets the segment, null exactly when the segment is free |
| Vm.AddressSpace.FindHole | memory/vm.c:57-76 | the hint if it is free and in bounds, else the lowest free segment in bounds, and failure exactly when there is none |
| Vm.AddressSpace.MemoryExists | memory/vm.c:259-275 | true exactly when both ends, the second in 64 bits, are in bounds and every byte between them is mapped |
| Vm.ExistsExactly | memory/vm.c:259-275 | that answers whether the segment lies in bounds and every byte of it is mapped, if and only if the segment does not wrap around back into bounds and is not a mapped one that ends where the address space ends |
| Vm.EndNeverMapped | memory/vm.c:259-275 | where the address space does not end on a page boundary, as the kernel's own do not, no mapped segment ends there |
| Vm.ExistsByWrapping | memory/vm.c:260 | in an empty address space a segment that wraps around is said to exist |
| Vm.EndDoesNotExist | memory/vm.c:260 | a mapped page at the end of the address space is said not to exist |
| Vm.AddressSpace.RegionInsert | memory/vm.c:203-227 | the address map gains exactly the region, and no neighbours stay mergeable |
| Vm.AddressSpace.Map | memory/vm.c:277-324 | without FIXED a free hint, rounded up to a page, is taken, else the lowest free segment, and it fails exactly when there is none; with FIXED the hint itself or failure; the address map gains exactly the new region |
| Vm.AddressSpace.Carve | memory/vm.c:359-370 | cutting a range out of a region leaves its head and its tail as they were, physical addresses included |
| Vm.AddressSpace.RewriteInside | memory/vm.c:326-387 | inside one region exactly the addresses of the range change, exactly in protection or caching, and the regions are coalesced again |
| Vm.RewrittenMeans | memory/vm.c:372-376 | such a rewrite sets the protection, or the caching, to what was asked for, and nothing else |
| Vm.RoundedAligned | memory/vm.c:282-285 | an unaligned hint is rounded up to the next page, or to 0 where that wraps around |
| Vm.AddressSpace.UnmapTurn | memory/vm.c:389-434 | one turn of the loop: the next region goes, or the code is at an uninitialised address |
| Vm.AddressSpace.Unmap | memory/vm.c:326-436 | over any regions and holes, what is left; the code is defined and exactly the range is gone if and only if the range lies in one region or ends cleanly |
| Vm.UnmapLosesNeighbour | memory/vm.c:390-397 | in an address space with two pages mapped, an unmap of a range that ends before the second also unmaps it |
| Vm.UnmapReachesUndefined | memory/vm.c:400-409 | in an address space with one region mapped, an unmap that begins in the hole before it and ends inside it uses the uninitialised address |
| VmUnmap.UnmapRangeExact | memory/vm.c:326-436 | the regions that an unmap leaves are those without the range if and only if it ends cleanly, and then they stay well formed and coalesced |
| VmUnmap.UnmapDeletesNeighbour | memory/vm.c:390-397 | the first of these inputs, from the start of the call |
| VmUnmap.UnmapUndefined | memory/vm.c:400-409 | the second |
| VmModel.InsertedAll | memory/vm.c:203-227 | region_insert as a function keeps regions disjoint, in bounds and coalesced, and adds exactly the region |
| VmModel.CarvedAll | memory/vm.c:359-370 | the three-way split removes exactly the range and keeps regions coalesced |
| VmModel.MergeLookup | memory/vm.c:112-130 | merging mergeable regions changes what no address sees |
| VmUnique.CoalescedUnique | memory/vm.c:112-130 | two coalesced region sequences with the same address map are equal, if direct memory goes on at no page boundary past the physical limit |
| VmUnique.UniqueExactly | memory/vm.c:112-130 | that condition on the address map is exact: a coalesced sequence is the only one with its map if and only if it holds |
| VmTheorems.UnmapTailExact | memory/vm.c:389-434 | the loop removes exactly the range if and only if no region crosses its end and one ends there or none starts there or later |
| VmTheorems.CleanIsExact | memory/vm.c:389-434 | one direction, with regions kept well formed and coalesced |
| VmTheorems.UncleanIsWrong | memory/vm.c:389-434 | the other: the loop uses an uninitialised address or deletes past the end |
| VmUnique.TwoFormsBeyondLimit | memory/vm.c:124-125 | beyond the physical limit one address map has two coalesced forms |
| PtmModel.EffectiveIsLeaf | arch/x86_64/ptm.c:146-169 | when the entries above a leaf grant what it grants, the processor gives exactly the leaf's rights |
| PtmModel.DownPrefix | arch/x86_64/ptm.c:25-27 | a walk reaches only tables of the address bits and the space it stands for |
| PtmModel.IndexBits | arch/x86_64/ptm.c:25-26 | the index of each level is the nine address bits above the bytes that an entry of the level spans |
| PtmSteps.SilentKeepsWalks | arch/x86_64/ptm.c:146-162 | widening an intermediate entry, or linking an empty table below an absent one, changes no walk from any table |
| PtmSteps.SilentKeepsCover | arch/x86_64/ptm.c:146-162 | nor does it take the grant of any leaf away |
| PtmSteps.LeafWalks | arch/x86_64/ptm.c:164-169 | storing a leaf changes exactly the walks through its table and index |
| PtmSteps.Reaches | arch/x86_64/ptm.c:146-169 | those are the addresses of its page, in its own space or, in the kernel half, in every space |
| PtmSteps.LeafKeepsGood | arch/x86_64/ptm.c:164-169 | storing a leaf below granting entries keeps the whole invariant |
| PtmSteps.KernelWalksAlike | arch/x86_64/ptm.c:181 | spaces with the same entries 256 to 511 walk the kernel half alike and with the same rights |
| Ptm.ChosenFits | arch/x86_64/ptm.c:200-208 | although only the base is tested, the chosen page is aligned at both current addresses, fits, and ends on a boundary of the next |
| Ptm.ChosenPage | arch/x86_64/ptm.c:200-208 | the chosen pages tile the range: every byte of one has its size and its start |
| Ptm.LargestFits | arch/x86_64/ptm.c:200-205 | a byte is in a page of some size or larger exactly when such a page is allowed, both bases are aligned to it and it ends in the range |
| Ptm.PageTables.constructor | arch/x86_64/ptm.c:353-366 | the global space maps nothing, and its 256 kernel entries lead to empty tables |
| Ptm.PageTables.Enter | arch/x86_64/ptm.c:146-162 | one turn of the loop: one level further, every walk as before; the entry gains exactly the rights needed, and a new one has exactly these |
| Ptm.PageTables.MapPage | arch/x86_64/ptm.c:137-170 | exactly the walks of the page change, to a leaf that is writable, executable, for the user, global and cached as asked; kernel entries of top-level tables stay |
| Ptm.PageTables.Map | arch/x86_64/ptm.c:190-214 | exactly the walks of the range change, each to a leaf of the largest size that tiles it; rights, sharing and other spaces are kept |
| Ptm.PageTables.Physical | arch/x86_64/ptm.c:317-343 | the walk's answer, with the code's own masks; absent exactly when the walk ends |
| Ptm.PageTables.CreateSpace | arch/x86_64/ptm.c:172-184 | a space that maps nothing in the user half and what all others map in the kernel half |
| PtmTheorems.MapTranslates | arch/x86_64/ptm.c:190-214 | after a map each address of the range translates to paddr plus its distance, and every other address as before |
| PtmTheorems.MapCarries | arch/x86_64/ptm.c:164-169 | after a map the leaves of the range are writable, executable, for the user, global and cached as asked |
| PtmTheorems.AnswerExact | arch/x86_64/ptm.c:336-341 | for a leaf in physical memory the code's masks give the processor's translation if and only if the address is below 2^52 |
| PtmTheorems.History.Reach | arch/x86_64/ptm.c:190-214 | whatever an address translates to after any run lies in physical memory |
| PtmTheorems.History.Physical | arch/x86_64/ptm.c:317-343 | after any run a lookup finds a page exactly when it is mapped, and then gives its translation if and only if the address is below 2^52 |
| PtmTheorems.PhysicalMissesKernelPage | arch/x86_64/ptm.c:336-341 | a run in which the first kernel page is mapped at 1M and its lookup answers something else |
| PtmTheorems.UserLookup | arch/x86_64/ptm.c:317-343 | after a map of user addresses the lookup gives paddr + (v - vaddr) in the range and the old walk elsewhere |
| PtmTheorems.RightsAreLastMapped | arch/x86_64/ptm.c:146-169 | after every run of maps and new spaces a page of any space, old or new, is writable, for the user and executable exactly as last mapped since the space was made |
| PtmTheorems.History.Map | arch/x86_64/ptm.c:190-214 | a map is a step of a run: nothing about runs is assumed that the methods do not prove |
| PtmTheorems.History.CreateSpace | arch/x86_64/ptm.c:172-184 | so is a new space |
| PtmTheorems.History.Rights | arch/x86_64/ptm.c:146-169 | whatever calls a client makes from the empty tables on, a page is writable, for the user and executable exactly as last mapped, and absent if it never was |
| PtmTheorems.History.Translates | arch/x86_64/ptm.c:190-214 | and it translates to the physical address last mapped for it, through a leaf that is global and cached as asked |
| PtmTheorems.KernelHalfStaysShared | arch/x86_64/ptm.c:361-365 | after every run all spaces walk the kernel half alike, through the top-level entries they began with |
| VmPtm.UserSpace.constructor | arch/x86_64/ptm.c:172-184 | a new user space has no regions and its tables show none |
| VmPtm.UserSpace.RegionMap | memory/vm.c:78-95 | exactly the pages of the range are mapped, direct memory to its own frames and page i of anonymous memory to the i-th frame allocated, with the region's rights and caching |
| VmPtm.UserSpace.Map | memory/vm.c:277-324 | the address map gains exactly the region, no other page moves, and at every user address the tables show the regions: mapped if and only if in a region not backed on demand, at the region's physical address if direct and in its own frame if anonymous, with its rights and caching |
| VmPtm.UserSpace.FixPage | memory/vm.c:241-246 | true exactly for an address in a region that is backed on demand; its page is then mapped as the region says, anonymous memory to the frame allocated, and no other user page changes |
| VmPtm.UserSpace.MapElsewhere | arch/x86_64/ptm.c:190-214 | maps of other spaces and of the kernel half leave a user space and its pages as they are |
| VmPtm.UserSpace.CreateElsewhere | arch/x86_64/ptm.c:172-184 | so do new spaces |
| VmPtm.BackedApart | memory/vm.c:84-88 | in distinct frames no two addresses of anonymous memory share a byte |
| VmPtm.UserSpace.Rights | arch/x86_64/ptm.c:146-169 | at any time the effective rights of a mapped user address are those of its region |
| VmPtm.UserSpace.Physical | arch/x86_64/ptm.c:317-343 | at any time a lookup of a user address finds what the regions map and gives the physical address its direct region gives |
| VmCopy.Resolve | memory/vm.c:485-489 | the lookup of a copy fails exactly where no region is; only an absent page that is backed on demand is mapped, to the frame allocated for it, and the second lookup then succeeds, as the source asserts |
| VmCopy.CopyTo | memory/vm.c:479-497 | the bytes copied are stored, in order, at the physical addresses behind the virtual ones and nowhere else; nothing is copied if the memory does not exist, else everything up to the first unmapped byte |
| VmCopy.CopyFrom | memory/vm.c:499-517 | the bytes copied are those at the physical addresses behind the virtual ones; mapped pages stay as they are |
| VmCopy.AllOrNothing | memory/vm.c:479-517 | unless the length wraps around, a copy is of all bytes if all are mapped and of none otherwise |
| VmCopy.ThereAndBack | memory/vm.c:479-517 | what is copied to a mapped segment is copied back, if no two of its addresses share memory |
| VmCopy.MapAndKeep | memory/vm.c:479-517 | what is copied anywhere into newly mapped anonymous memory in distinct frames is copied back |
| VmCopy.LoadStored | memory/vm.c:492-493 | bytes stored at distinct addresses are loaded again, and every other byte is as before |
| Mutex.StepKeeps | common/lock/mutex.c:12-54 | every atomic step of every thread keeps the invariant |
| Mutex.MutualExclusion | common/lock/mutex.c:17-54 | in every run at most one thread owns the mutex and one is inside the inner lock, and an owned mutex is not unlocked |
| Mutex.QueueMeansContested | common/lock/mutex.c:26-33 | outside the inner lock the state is contested if and only if a thread waits |
| Mutex.AssertionsHold | common/lock/mutex.c:45-46 | both assertions of release hold in every reachable state |
| Mutex.FirstComeFirstServed | common/lock/mutex.c:28-48 | the mutex is handed over in queue order, and a thread is blocked exactly while its turn is still to come: none is lost |
| Mutex.HistoryGrows | common/lock/mutex.c:28-48 | what was queued and handed over stays in the record, so the order is that of the whole run |
| Mutex.NoDeadlock | common/lock/mutex.c:17-54 | while any thread is inside a call or owns the mutex, one of those threads can move |
| Mutex.CanAcquire | common/lock/mutex.c:17-54 | every run can be continued so that a given thread that is in, or calls, mutex_acquire comes to own the mutex: no order of events shuts it out |
| Tlb.StepKeeps | arch/x86_64/tlb.c:33-93 | every step keeps the invariant, the count being the number of CPUs that are done, if rounds start clean |
| Tlb.LeaveFlushed | arch/x86_64/tlb.c:74-91 | when the wait loop is left every CPU has invalidated the range and is counted |
| Tlb.EveryRoundFlushes | arch/x86_64/tlb.c:52-93 | in every run whose rounds start clean no round ends early, however often interrupts are repeated, and each CPU counts once |
| Tlb.CanFinish | arch/x86_64/tlb.c:52-93 | from every state of a round that started clean there is a way to its end, and it ends with every CPU flushed |
| Tlb.RoundCanFinish | arch/x86_64/tlb.c:52-93 | so a call that has taken the lock can return |
| Tlb.SafeExactly | arch/x86_64/tlb.c:33-93 | with two CPUs or more, all continuations of a round are safe if and only if no interrupt is on its way to its initiator when it starts |
| Tlb.StaleIsUnsafe | arch/x86_64/tlb.c:36-49 | such an interrupt makes the initiator count twice, and some CPU is never flushed |
| Tlb.StaleStartReachable | arch/x86_64/tlb.c:76-86 | a run from the start, with never more than one interrupt on its way to a CPU, in which a repeated one leads there |
| SlabModel.MaskFindsSlab | memory/slab.c:64 | masking an object's address gives its slab, for every object that carving makes |
| SlabModel.ObjectFits | memory/slab.c:31-38 | the objects follow the header one after the other without gap, exactly as many as end inside the block |
| SlabModel.ObjectsDisjoint | memory/slab.c:31-38 | two different objects, of one slab or of two, share no byte |
| SlabModel.StockApart | memory/slab.c:22-195 | at any time all objects, wherever they are, lie in their slabs' blocks behind the headers and share no byte |
| SlabModel.CarvedNoDup | memory/slab.c:33-38 | carved objects are distinct |
| SlabModel.CarveKeeps | memory/slab.c:22-40 | the objects of a new slab are new and all in its freelist |
| SlabModel.PushKeeps | memory/slab.c:169-173 | pushing a round moves one object and keeps every object in one place |
| SlabModel.PopKeeps | memory/slab.c:132-136 | so does popping one |
| SlabModel.TakeKeeps | memory/slab.c:49-51 | so does taking one from a slab |
| SlabModel.GiveKeeps | memory/slab.c:64-71 | so does giving one back |
| SlabModel.ExactlyOnePlace | memory/slab.c:42-195 | each object of each slab is in exactly one of: its own slab's freelist, one slot of one magazine, a client |
| Slab.WholeMagazines | memory/slab.c:138-157 | secondary magazines are entirely full or empty, the depot's lists hold only full or only empty ones, and every magazine is held in exactly one way |
| Slab.SlotsAfterRefill | memory/slab.c:146-152 | the exchange for a full magazine keeps that |
| Slab.SlotsAfterDrain | memory/slab.c:183-189 | the exchange for an empty magazine keeps that |
| Slab.SlabCache.constructor | memory/slab.c:76-121 | a new cache has a full primary and an empty secondary magazine per CPU, twice as many empty spare ones, and no object with a client |
| Slab.SlabCache.MakeSlab | memory/slab.c:22-40 | one new slab in front, all of its objects and no others in its freelist, no client affected |
| Slab.SlabCache.DirectAlloc | memory/slab.c:42-59 | a client gets exactly one object that no client had, the first free one of the first partial slab; a new slab is made exactly when there is none |
| Slab.SlabCache.DirectFree | memory/slab.c:61-74 | the object goes to the freelist of the slab it came from |
| Slab.SlabCache.Allocate | memory/slab.c:123-158 | a client gets exactly one object that no client had, with at most one jump back: the top round of a magazine while the CPU or the depot has one, its own magazines first and the primary one before the other; else one of a slab |
| Slab.SlabCache.Free | memory/slab.c:160-195 | exactly that object leaves its client, nothing is lost, with at most one jump back: it becomes the top round of the primary magazine while there is room on the CPU or in the depot, else it goes to its slab |
| Slab.SlabCache.FreeThenAllocate | memory/slab.c:123-195 | what a CPU frees it gets back from its next allocation if and only if there was room for it in a magazine |
| Init.Find | sys/init.c:35-41 | the first target with that stage and name, none exactly when there is none |
| Init.Targets.FindTarget | sys/init.c:35-41 | the loop finds it |
| Init.NeedsExactly | sys/init.c:43-52 | what a target needs is exactly the targets that all names in its dependencies stand for, and what those need |
| Init.Targets.RunTarget | sys/init.c:43-58 | terminates on acyclic dependencies; runs each needed target in scope that was not complete exactly once, each after everything it needs |
| Init.Targets.RunDependency | sys/init.c:44-51 | one dependency: unknown ones are skipped, a known one is run with all it needs |
| Init.Targets.ResetAp | sys/init.c:60-67 | exactly the targets that an AP runs become incomplete |
| Init.Targets.RunStage | sys/init.c:69-76 | the functions run are exactly those of the stage's targets in scope and not complete, once each, after what they need |
| Init.RanThen | sys/init.c:43-58 | two stretches of initialisation compose |
| Init.EachRunsOnce | sys/init.c:69-76 | over all stages each target in scope that was not complete runs exactly once, in its own stage, and no other runs |
| Init.EachApRunsAll | sys/init.c:60-76 | after a reset an AP runs each of its targets exactly once and none of the boot processor's own |
| Init.Targets.RunStages | arch/x86_64/init.c:138-150 | the seven stages in order, none of whose assertions on the current stage fails, form a bring-up of the processor |
| Init.Targets.StartAp | arch/x86_64/init.c:186-198 | after the reset an AP runs each target in its scope exactly once, after everything it needs and after all earlier stages |
| Init.Targets.Boot | init.c:45-335 | the boot processor's stages and then one AP after the other: each target runs once, once per AP, or both, by its scope, and never again |
| Init.StagesComplete | sys/init.c:69-76 | a processor none of whose targets was complete runs them all, each behind what it needs and behind all earlier stages |
| Init.TimesRun | sys/init.c:60-76 | how often each target runs on a machine with so many APs |
| Format.Prefixes | lib/format.c:89 | what each offset into the prefix table stands for |
| Format.DigitCountWidth | lib/format.c:302-306 | the digit count k has radix^(k - 1) <= value < radix^k |
| Format.ParseDigits | lib/format.c:320-329 | the digits from the first place down read back to the value |
| Format.FindPlace | lib/format.c:301-306 | the loop finds the place of the first digit and the digit count, within 64 bits |
| Format.PutDigits | lib/format.c:320-329 | the digit loop emits those digits, up to where precision 0 stops it |
| Format.Print | lib/format.c:299-331 | the characters written are sign or prefix, padding and digits as specified |
| Format.ReadsBack | lib/format.c:299-331 | with a precision there are as many digits as counted, and with all zeros in front they read back to the value |
| Format.ReadsBackExactly | lib/format.c:320-329 | the digits read back if and only if there is a precision, or the value is 0, or its last digit is not |
| Format.OnePadding | lib/format.c:314-330 | the width padding is of one kind and fills up to the width |
| Format.TextLength | lib/format.c:302-330 | the exact condition for an output of max(width, length) characters |
| Format.SignedReadsBack | lib/format.c:295-297 | a signed number prints its sign and digits that read back to it, for the least one too |
| Format.TextReads | lib/format.c:314-330 | a reader that takes spaces, one sign or radix prefix, digits and spaces finds the sign or prefix in front, digits that mean the value, exactly as many as needed but for zero padding, and the padding on the right side up to the width |
| Format.HexReadsBack | lib/format.c:255-267 | what x and X print reads back to the word in radix 16, in the right case, with 0x or 0X exactly if asked for and the word is not 0 |
| Format.DecimalReadsBack | lib/format.c:268-273 | what u prints reads back in radix 10 |
| Format.OctalReadsBack | lib/format.c:274-281 | what o prints reads back in radix 8, with a digit 0 first if asked for |
| Format.IntegerReadsBack | lib/format.c:282-297 | what d and i print reads back to the signed number, with a minus exactly if it is negative and else the plus or space asked for |
| Format.PrecisionZeroCuts | lib/format.c:320 | printing 100 with precision 0 gives 1 |
| Format.EmptySkipsPadding | lib/format.c:314-315 | printing 0 with precision 0, left-justified in 5, gives nothing |

## Left out

- Pmm.Pmm.Alloc: one atomic call; the writes of memory/pmm.c:111-113 and 133-135 happen outside the zone lock. The zeroing of the block is not modelled.
- Pmm.Pmm.RegionAdd: only is_free false, as init.c calls it; the other branch puts every page of a block on the list of the whole order. total_page_count, which nothing reads, is left out.
- RbTree.RbTree.SearchNearest: not the nearest key, which the code does not always return; when it does is stated in `RbNearest.NearestExactly`.
- RbTree.RbTree.Insert: a node's key is fixed while it is in the tree; the value callback is a field.
- Vm.AddressSpace.Map: the physical pages and page-table writes behind a region are those of `VmPtm`; locks and the descriptor pool are left out.
- VmPtm.UserSpace.Map: the frames of anonymous memory are given by the caller, and their zeroing is left out. Rewrites and unmaps are not carried over to the tables, whose part in them is left out below.
- VmCopy.CopyTo: physical memory is a map from addresses to bytes; page tables do not lie in it.
- Vm.AddressSpace.RewriteInside: rewrites over several regions are left out: a merge to the right can absorb the next region, so that the loop goes on past the range.
- Vm.AddressSpace.Unmap: not for the global address space, where taking a descriptor may insert a region in the middle of a rewrite.
- VmTree.RegionTree.Put: a region is a value kept with its node, not a structure around it.
- Ptm.PageTables.MapPage: for walks that meet no page larger than the one to be mapped (NothingLarger for a range), since break_big indexes its new table by byte offset and keeps the page-size bit; break_big, arch_ptm_rewrite and arch_ptm_unmap are left out with it.
- Ptm.PageTables.Map: entries are decoded into fields, with frames and physical addresses below 2^52; accessed and dirty bits, and the order of stores as other CPUs see them, are left out. Kernel addresses are mapped with kernel privilege, as the kernel does.
- Ptm.PageTables.AllocPage: any unused frame; running out ends the kernel.
- Mutex.StepKeeps: steps are sequentially consistent; a thread scheduled before it has blocked does not lose its wake-up, which is the scheduler's part (the source marks that window as a possible race). Spurious failures of the weak compare-and-swap are modelled, spinlock fairness is not.
- Tlb.StepKeeps: invlpg is the addition of a round to a set; interrupts arrive any time the handler is not running; calls before scheduling starts, which flush only locally, are left out.
- Slab.SlabCache.Allocate: each method is one atomic step; freelists and lists are sequences, not chains through the objects. Creating caches inside caches and the list of all caches are left out.
- Init.Targets.RunTarget: what a target's function does, and log output, are left out. Cyclic dependencies do not terminate in the source either.
- Format.Print: reading the flags, width and precision of a conversion and fetching its argument, and the c and s conversions, are left out; the width is not negative here, and widths and precisions do not overflow.
- memory/heap.c, memory/earlymem.c, file systems, the scheduler and device code are left out: glue over the parts above, or hardware access.
