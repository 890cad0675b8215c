# MiniVisor in Dafny

MiniVisor is a small AArch64 hypervisor. This project models six of its components and proves what each of them is
for, over every input, every run or every reachable state. Methods that change state are proved against
specification functions and relations on values; the lemmas then say what those specifications mean.

| component | modules |
|---|---|
| physical memory allocator | `FreeRanges`, `PageOrders`, `LinkedSlots`, `MemoryPool`, `AllocatorSpec`, `FreeLists`, `MemoryAllocation`, `AllocatorRuns`, `AllocatorSystem` |
| stage 2 page tables | `Stage2Tables`, `Stage2Regions`, `Stage2Blocks`, `Stage2Effects`, `Stage2Progress`, `Stage2Budget`, `Stage2Roots`, `Stage2Mapping` |
| spin lock | `SpinLock` |
| virtio block queues | `VirtioQueue`, `VirtioLayout`, `VirtioRequests`, `VirtioRings`, `VirtioBlkMmio`, `VirtioRuns`, `VirtioBlkDriver` |
| FAT32 files | `Fat32Chains`, `Fat32Volume`, `Fat32Planning`, `Fat32Files`, `Fat32Fragments`, `Fat32Read`, `Fat32Stores`, `Fat32Write` |
| devicetree | `DeviceTree`, `DtbMatches`, `DtbCells`, `DtbParser`, `DtbDescent`, `DtbSearch`, `DtbCompatible`, `DtbIteration`, `DtbEnumeration`, `DtbSerializer`, `DtbProperties`, `DtbMeaning` |

`Arithmetic` and `Wrappers` are shared. `dafny verify dfyconfig.toml` checks everything.

**Memory allocator.** The class `MemoryAllocator` has the fields of the original: a pool of 64 entries, `firstEntry`,
twelve class heads and `freeSize`. Its invariant `Valid` says that the address list runs through exactly the enabled
entries, doubly linked, sorted, disjoint and never adjacent, and that the class lists hold the same entries, doubly
linked, each sorted by size and each entry in the class of its size. Every operation keeps it and is tied to a relation
on the sequence of free ranges; `AllocatorRuns` and `AllocatorSystem` then speak about sets of free bytes, clients and
whole runs. `set_range` asserts that a range begins before it ends. The preconditions `Reservable` and `Allocatable`
say, branch by branch (`Passes`), that this assertion holds, the latter for the range that the first fit takes; it does
exactly if the bytes lie in one free range and leave no piece of one byte, or the request is refused
(`AllocatorSpec.PassesExactly`). A reservation that begins in a free range and runs past its end does not meet it
(`OverrunFails`): the original panics there. Runs are safe whatever the sizes are, as long as no assertion fails; in
multiples of a granule of two bytes or more every allocation and every release of a holding can be made, and a reservation
exactly if it lies in one range or is refused (`AllocatorRuns.GranularAllocates`, `GranularPasses`,
`AllocatorSystem.CallsAreEnabled`). In every state of every run each byte of the memory that the first `free` handed
over, and no other byte, is free or held by exactly one client (`AllocatorSystem.EveryByteOnce`). `free` credits `free_size` twice; the ghost field `surplus` carries the difference.

**Stage 2 tables.** `Stage2Mapper` writes descriptor words into tables, as the original does; `Walk` reads them as the
hardware does (Arm Architecture Reference Manual, DDI 0487, chapter D8). The central relation `Effect` gives the
translation of any address after a run, also of a run that ends early because no page was left for a table: every address
that has been processed is mapped by the largest block that is aligned, on both sides, and lies in the request
(`LeafLevel`). A block that is only partly overlapped is discarded, so the rest of it faults: `FrameExactly` says exactly
when a translation outside the range is kept, and `BlockIsDiscarded` derives an instance from two calls.

**Spin lock.** CPUs take interleaved steps, one per access to a flag or to DAIF, and interrupts nest. Mutual exclusion,
masking of the holder and restoration of DAIF hold in every run; if every code path takes its locks in ascending order,
no run gets stuck. A lock that nobody holds is taken in a call and four accesses (`LockIsTaken`), a drop gives it back
(`DropReleases`), and the exchange is lost only to another CPU (`ExchangeIsLost`).

**Virtio.** The hypervisor has both ends of such queues: it emulates a device for the guest (src/mmio/virtio_blk.rs) and
drives the disk of the host (src/drivers/virtio_blk.rs). Both are modelled over the same kind of queue. The indices wrap
at 16 bits (a release build is assumed, in which `+=` wraps). A session with unbounded histories shows that every head
that is taken is answered or rejected, once and in order: a malformed request ends a notification early, its slot is
consumed, but it gets no used element and the guest gets no interrupt; `CaughtUp` says exactly when that does not happen.
That the chains of the driver are what such a device accepts is `ChainIsServed`. The device computes the place of the
used ring from host addresses, while the guest counts pages from the beginning of the queue, in its own memory: the two
agree for every queue exactly if the page size is a power of two that divides the distance between the two memories
(`LayoutIsLegacy`). It does not for pages of 64 KB if the memory of the guest is only aligned to 4 KB
(`LargePagesAreMisplaced`). The source ignores the alignment a legacy driver writes to QueueAlign (offset 0x03c) and
takes the page size instead.

**FAT32.** `Fat32Volume` lays a volume out as its specification does, part by part: the code finds each cluster where it is
(`ClusterIsFound`), and no write changes a reserved sector or a copy of the table (`Write`). It follows the links of the
table (`ChainFollowsLinks`), but does not ignore the upper four bits of an entry (`UpperBitsMatter`). Runs of consecutive
clusters become one transfer; the reference is a walk along the chain, byte by byte. Two
properties of the code limit what it does, and both are stated exactly.

Each run plans for the length of the whole request instead of what is left of it, so that a request over several runs is
completed only if it ends where a run does (`Fat32Fragments.Completes`, `WriteCompletes`; `FragmentedReadFails` is a
concrete file). A read that fails on a healthy disk has stored bytes behind the buffer if and only if the request does
not end with its chain (`Read`, `EndsWithChain`; `ReadOverruns` is a concrete file).

Sectors that are skipped in the first cluster are not charged against the cluster. `Fat32Fragments.DrawnFrom` is the place
on the disk from which a completed read takes each byte, and to which a completed write stores it; all of them are the
right ones exactly if the request begins at most one sector into its cluster or its clusters are consecutive
(`DataIsRight`). Otherwise the first run is ahead, into the cluster that follows it on the disk, whatever file that belongs
to: `WrongBytesAreRead` reads from there, and `OtherFileIsOverwritten` writes there. No other file is ever changed
(`OtherFilesUnchanged`).

**Devicetree.** `NodeAt` says what it means for a tree to be represented in a blob (Devicetree Specification v0.4,
sections 5.4 and 5.5), and the serializer shows that every tree has such a blob. Repeated searches find the matches in
document order, each once, up to the first match that has a child: `_skip_to_next_node` does not step over the name of
a child, takes it for a token and fails, and the search ends. A search that was meant to enumerate all matches does so
exactly if no match but the last has a child (`AllVisited`); `MissedMatch` is a concrete tree for which it does not.
`DtbMeaning` says what the matches are without mentioning a search, and what the bytes of a small blob mean. The counts of
address and size cells that a search hands out are followed from property to property (`DtbCells`). They differ from
those of section 2.3.5 of that specification in three ways: a node inherits them from its ancestors (`InheritedExactly`), a node that is found
as a compatible device gets those it has set for its children (`FoundByCompatible`), and a search that is resumed behind a
node keeps the counts of that node wherever it goes on (`Search`).

## Model

| member | source | states |
|---|---|---|
| PageOrders.SizeToPageOrder | src/memory_allocator.rs:548-557 | the loop finds the least class whose bound holds the size, the last class if there is none |
| PageOrders.PageOrderFromMeaning | src/memory_allocator.rs:548-557 | the class found bounds the size from above (unless it is the last) and the class before it does not |
| PageOrders.PageOrderMonotone | src/memory_allocator.rs:548-557 | larger sizes never get a lower class |
| PageOrders.AlignAddressAndSizeMeaning | src/memory_allocator.rs:560-572 | the aligned request is the least aligned interval around the requested one |
| PageOrders.AlignAddressAndAvailableSizeMeaning | src/memory_allocator.rs:575-592 | the first aligned address of a range, and what of the range follows it |
| LinkedSlots.LinkedDistinct | src/memory_allocator.rs:18-28 | a doubly linked list of slots holds no slot twice |
| LinkedSlots.FamilyInsert | src/memory_allocator.rs:476-527 | splicing an entry into one class list keeps all class lists linked and separate |
| LinkedSlots.FamilyRemove | src/memory_allocator.rs:464-474 | bypassing an entry in its class list keeps all class lists linked and separate |
| MemoryPool.Pool.CreateMemoryEntry | src/memory_allocator.rs:51-63 | takes the first disabled entry, reset; fails exactly if all 64 are enabled |
| MemoryPool.Pool.Delete | src/memory_allocator.rs:609-622 | unlinks an entry from the address list, which stays linked, and disables it |
| MemoryPool.Pool.UnchainFromFreelist | src/memory_allocator.rs:667-682 | takes an entry out of its class list and clears its links |
| MemoryPool.Pool.LinkAfter | src/memory_allocator.rs:658-661 | links a new entry behind another one; the address list stays doubly linked |
| MemoryAllocation.MemoryAllocator.constructor | src/memory_allocator.rs:42-49 | the empty allocator meets the invariant and has no free range |
| MemoryAllocation.MemoryAllocator.UnchainEntryFromFreeList | src/memory_allocator.rs:464-474 | the entry leaves the class of its size, and nothing else changes |
| MemoryAllocation.MemoryAllocator.ChainEntryToFreeList | src/memory_allocator.rs:476-527 | the entry moves from the class of its old size to its sorted place in the class of its present size |
| MemoryAllocation.MemoryAllocator.SearchEntryContainingAddress | src/memory_allocator.rs:77-96 | finds the entry that contains an address; None exactly means that the address is not free |
| MemoryAllocation.MemoryAllocator.SearchEntryPreviousAddress | src/memory_allocator.rs:98-117 | how many ranges begin below an address, and which entry the search lands on |
| MemoryAllocation.MemoryAllocator.DefineUsedMemory | src/memory_allocator.rs:119-221 | removes exactly the aligned interval from the free ranges or changes nothing, with the error of the branch; keeps the invariant |
| MemoryAllocation.MemoryAllocator.SplitEntry | src/memory_allocator.rs:198-217 | cuts an interval out of the middle of an entry; with a full pool it fails and changes nothing |
| MemoryAllocation.MemoryAllocator.SearchFreeLists | src/memory_allocator.rs:397-433 | the first fit in class order; None only if no free range fits |
| MemoryAllocation.MemoryAllocator.Allocate | src/memory_allocator.rs:391-434 | serves a request from a smallest range that fits or changes nothing, with the error of the branch; keeps the invariant; asks only of the range it takes that the assertion of `set_range` holds |
| MemoryAllocation.MemoryAllocator.CleanIsAllocatable | src/memory_allocator.rs:391-434 | where no smallest fit leaves a piece of one byte, the first fit can be taken, whichever of them it is |
| MemoryAllocation.MemoryAllocator.ReserveMemory | src/memory_allocator.rs:436-443 | removes exactly the requested interval, aligned outwards, or changes nothing; keeps the invariant |
| MemoryAllocation.MemoryAllocator.AlreadyFree | src/memory_allocator.rs:242-282 | recognises an interval that is wholly free, whichever entry the search landed on |
| MemoryAllocation.MemoryAllocator.Coalesce | src/memory_allocator.rs:257-319 | joins the interval to the range before, after, or both; all merge cases agree with the specification |
| MemoryAllocation.MemoryAllocator.InsertEntry | src/memory_allocator.rs:320-388 | puts the interval into a new entry at its place; with a full pool it fails and changes nothing |
| MemoryAllocation.MemoryAllocator.DefineFreeMemory | src/memory_allocator.rs:223-389 | releases a disjoint interval, rejects one that is free already, and counts the bytes once |
| MemoryAllocation.MemoryAllocator.Free | src/memory_allocator.rs:445-462 | the first call makes exactly its bytes free, every later one releases and credits the size twice |
| AllocatorSpec.PassesExactly | src/memory_allocator.rs:147-217 | the assertion of `set_range` holds in every branch if and only if the bytes can be taken cleanly or the request is refused |
| AllocatorSpec.OverrunFails | src/memory_allocator.rs:197-200 | a reservation that runs past the end of its range fails the assertion |
| AllocatorSpec.Approach | src/memory_allocator.rs:227-282 | from whichever entry the search lands on, the free interval around a request is that entry or the next one, and otherwise the request lies beside it |
| FreeRanges.CarveRemoves | src/memory_allocator.rs:147-218 | taking an interval out of a range removes exactly its bytes and keeps the ranges canonical |
| FreeRanges.ReleaseAdds | src/memory_allocator.rs:257-388 | releasing a disjoint interval adds exactly its bytes; coalescing keeps the ranges canonical |
| FreeRanges.CanonicalUnique | src/memory_allocator.rs:257-319 | coalesced ranges are a canonical form: equal free sets have equal range sequences |
| FreeRanges.ReleaseUndoesCarve | src/memory_allocator.rs:223-389 | releasing what was carved out restores the same sequence of ranges |
| FreeLists.FitHasClass | src/memory_allocator.rs:397-398 | a range that fits never sits in a class below the one where the search begins |
| FreeLists.FirstFitIsChosen | src/memory_allocator.rs:397-432 | the first fit in class order is a smallest of all ranges that fit, with or without an alignment |
| FreeLists.FullList | src/memory_allocator.rs:51-63 | the address list has 64 entries exactly if no entry is disabled |
| AllocatorRuns.AllocateRemoves | src/memory_allocator.rs:391-434 | a successful allocation removes exactly the returned interval, which was free and is aligned |
| AllocatorRuns.AllocateIsBestFit | src/memory_allocator.rs:391-434 | the allocation is the first aligned address of a smallest range in which an aligned part is large enough |
| AllocatorRuns.FitsExactly | src/memory_allocator.rs:407-424 | the test of a range succeeds if and only if some aligned part of it is large enough |
| AllocatorRuns.AllocateFails | src/memory_allocator.rs:391-434 | an error means that the counter does not exceed the request, nothing fits (both NoMemory), or a smallest range that fits is blocked (NoEntry); and if all of those are, there is an error |
| AllocatorRuns.UnalignedFails | src/memory_allocator.rs:391-434 | without alignment: an error if and only if the counter does not exceed the request, every range is too small, or the request is for the whole of the only range |
| AllocatorRuns.AllocateFindsFit | src/memory_allocator.rs:391-434 | a request that an aligned part of some free range can hold is served, unless it is for the whole of the only range or an aligned split may find the pool full |
| AllocatorRuns.FreeUndoesAllocate | src/memory_allocator.rs:391-462 | freeing what was just allocated succeeds and restores the same sequence of ranges |
| AllocatorRuns.ReserveRemoves | src/memory_allocator.rs:436-443 | a successful reservation removes exactly the least aligned interval around the requested bytes, all of which were free |
| AllocatorRuns.ReserveFails | src/memory_allocator.rs:119-221 | an unaligned reservation is refused if and only if the counter is below its size (NoMemory), its first two bytes are not free (InvalidRequest), or it is the whole of the only range or would split a range with a full pool (NoEntry) |
| AllocatorRuns.SeedFrees | src/memory_allocator.rs:446-455 | after the first `free` of n bytes at s, a byte is free if and only if it is one of them |
| AllocatorRuns.FreeAdds | src/memory_allocator.rs:456-461 | a later release adds exactly its bytes; it is refused, without an effect, if and only if they are free already, or no byte beside them is free and the pool is full |
| AllocatorRuns.DoubleFreeIsRejected | src/memory_allocator.rs:242-276 | corollary of the contract of `Free`: a release of bytes that lie wholly in one free range is an InvalidRequest and changes nothing |
| AllocatorRuns.GivenWhenRoom | src/memory_allocator.rs:320-388 | corollary of the contract of `Free`: a disjoint release succeeds if it joins a neighbour or the pool has an entry left |
| AllocatorRuns.GranularCut | src/memory_allocator.rs:624-628 | cuts at multiples of a granule leave no one-byte piece, so the assertion cannot fail |
| AllocatorRuns.GranularPasses | src/memory_allocator.rs:147-217 | in whole granules the assertion holds if and only if the request lies in one range or a full pool refuses it |
| AllocatorRuns.GranularAllocates | src/memory_allocator.rs:391-434 | every allocation in multiples of the granule meets the precondition and stays granular |
| AllocatorSystem.StepKeepsSafe | src/memory_allocator.rs:391-462 | allocate, reserve and free, of any size, keep holdings disjoint from each other and from the free set, and conserve the bytes |
| AllocatorSystem.RunIsSafe | src/memory_allocator.rs:391-462 | the same in every state of every run from the first free on; the list never becomes empty |
| AllocatorSystem.EveryByteOnce | src/memory_allocator.rs:391-462 | in every state of every run a byte is free or held if and only if the first `free` handed it over; never both, and never held twice |
| AllocatorSystem.StaysInside | src/main.rs:207-245 | so no free range and no holding ever reaches out of the RAM |
| AllocatorSystem.ReserveKeepsSafe | src/main.rs:211-245 | reserved regions, of any size, are disjoint from every allocation made before and after |
| AllocatorSystem.FreeIsEnabled | src/memory_allocator.rs:445-462 | in every safe state a holding of more than one byte can be freed |
| AllocatorSystem.RunKeepsGrain | src/memory_allocator.rs:391-462 | a run that asks for whole granules only keeps all bounds at multiples of the granule |
| AllocatorSystem.CallsAreEnabled | src/memory_allocator.rs:391-462 | in such a state every allocation of whole granules and every `free` of a holding meets its precondition |
| AllocatorSystem.CounterGap | src/memory_allocator.rs:445-462 | the counter exceeds the free bytes by exactly the sizes of all successful frees after the first |
| Stage2Tables.LeafWordValue | src/paging.rs:29-81 | the word of a block or page descriptor: address, access flag, inner shareable, S2AP at bit 6, write-back, kind |
| Stage2Tables.LeafWordFields | src/paging.rs:67-81 | every field of a block or page descriptor reads back as set, and none disturbs another |
| Stage2Tables.TableWordFields | src/paging.rs:51-69 | the word of a table descriptor; it reads back as a table with the given next level address |
| Stage2Regions.WalkKept | src/paging.rs:129-216 | without shared tables, a walk does not see changes to tables whose region does not hold the address |
| Stage2Blocks.RestLevel | src/paging.rs:161-185 | what is left of a request uses the same size of block for an address as the whole request |
| Stage2Blocks.LargestBlock | src/paging.rs:162-168 | no page or block that is aligned on both sides and lies in the request is larger than the one used |
| Stage2Blocks.NoBlockHere | src/paging.rs:164-167 | if the test for a block fails in an entry, no aligned block of its size or a larger one fits there |
| Stage2Effects.EntryEffect | src/paging.rs:161-214 | what an entry's window shows of the rest of a request is the effect of the whole request |
| Stage2Effects.MappedRange | src/paging.rs:218-254 | corollary of the contract of `MapAddressStage2`: after success every address of the range reaches PA plus its offset with the requested permission |
| Stage2Effects.FrameExactly | src/paging.rs:186-200 | corollary of the contract of `MapAddressStage2`: outside the range a translation is kept if and only if its block did not reach into the range; otherwise it faults |
| Stage2Effects.BlockIsDiscarded | src/paging.rs:186-200 | two calls: the first maps 2 MB, the second one page in it; every other address of the 2 MB faults from then on |
| Stage2Effects.LeafWritten | src/paging.rs:169-175 | the walk finds in a written descriptor the address, size, permission and attributes that were asked for |
| Stage2Effects.FirstLeaf | src/paging.rs:164-175 | the leaf written for an entry maps its whole window, and is the largest that fits around each of its addresses |
| Stage2Effects.MappingsSurvive | src/paging.rs:218-254 | what a request has mapped stays mapped through any series of requests for disjoint ranges |
| Stage2Progress.HalfwayNext | src/paging.rs:161-214 | the loop over the entries of a table keeps the processed prefix mapped and the tree well-formed |
| Stage2Progress.UnderwayNext | src/paging.rs:176-213 | PA, IPA and remaining size move in lockstep over the entries |
| Stage2Budget.WindowsMet | src/paging.rs:187-200 | the windows counted at a level are exactly those that the range meets |
| Stage2Budget.BudgetOfRam | src/vm.rs:176-177 | the RAM of the guest needs at most one table of level 2 and 128 of level 3 |
| Stage2Budget.NewTablesBounded | src/paging.rs:187-200 | a run adds no more tables than the range meets table windows, summed over the lower levels |
| Stage2Budget.ShortOfBudget | src/paging.rs:189-191 | a run that stops because no page is left has used fewer tables than that |
| Stage2Roots.RootCovers | src/paging.rs:84-90 | the concatenated root tables cover the input space, and are no larger than it if there are more than one |
| Stage2Roots.InitialLookupFits | src/paging.rs:92-113 | the start-up configuration covers the physical address space with at most eight root tables, and SL0 reads back |
| Stage2Mapping.Stage2Mapper.constructor | src/paging.rs:92-127 | the initial tree is well-formed and every address faults |
| Stage2Mapping.Stage2Mapper.WriteLeaf | src/paging.rs:169-175 | the entry's whole window is mapped by the leaf; every other translation is kept |
| Stage2Mapping.Stage2Mapper.InstallTable | src/paging.rs:187-200 | an entry that is no table gets an empty one from the pages, the tree stays unshared; None only if no page is left |
| Stage2Mapping.Stage2Mapper.MapPages | src/paging.rs:142-159 | the level 3 loop reaches the end of the table or of the request |
| Stage2Mapping.Stage2Mapper.MapEntries | src/paging.rs:161-215 | the loop over blocks and tables reaches the end of the table or of the request, or stops with exactly the prefix mapped |
| Stage2Mapping.Stage2Mapper.MapLevel | src/paging.rs:129-216 | one call maps its share of the request and leaves everything else, at any level |
| Stage2Mapping.Stage2Mapper.MapAddressStage2 | src/paging.rs:218-254 | every address that has been processed reaches PA plus its offset, with S2AP bit 0 as `is_readable` and bit 1 as `is_writable`, write-back and inner shareable, by the largest block that fits; every other address keeps its translation unless its block reaches into the range; when it stops early, only the block at the place it has reached may be lost besides; the number of new tables; it succeeds if as many pages are left as the bound says |
| SpinLock.StepKeepsSafe | src/lock.rs:34-56 | each access of lock and drop, each interrupt and return keeps mutual exclusion and the mask discipline |
| SpinLock.RunIsSafe | src/lock.rs:34-56 | in every interleaving at most one guard holds a lock, and the flag is set exactly if one does |
| SpinLock.MutualExclusion | src/lock.rs:34-56 | the same in terms of guards: two guards of one lock are the same guard, and its flag is set |
| SpinLock.HolderIsMasked | src/asm.rs:297-311 | the holder is the top frame of its CPU and IRQ and FIQ are masked there, so no handler can wait for it |
| SpinLock.StepKeepsBase | src/lock.rs:77-81 | lock and drop keep the DAIF value that is in force without any guard |
| SpinLock.MaskIsRestored | src/lock.rs:77-81 | over any stretch of a run, with any nesting of locks and interrupts, that value is unchanged |
| SpinLock.OutermostDropRestores | src/lock.rs:77-81 | DAIF after the outermost drop is DAIF before the outermost lock |
| SpinLock.LockIsTaken | src/lock.rs:35-50 | from a safe state, a call of `lock` and four accesses take a free lock: one more guard, the flag set, IRQ and FIQ masked |
| SpinLock.DropReleases | src/lock.rs:77-81 | a drop and one access give up the newest guard, clear its flag and restore the mask |
| SpinLock.ExchangeIsLost | src/lock.rs:41-53 | in every run the exchange succeeds if and only if the lock has no guard, and otherwise another CPU has one |
| SpinLock.InterruptReturns | src/lock.rs:77-81 | an interrupt runs its handler with everything masked and no guard, and the return restores what it has interrupted |
| SpinLock.HolderCanStep | src/lock.rs:35-55 | with ascending lock order, following the holders from a stuck CPU leads to one that can step |
| SpinLock.NoDeadlock | src/lock.rs:35-55 | in every run with ascending lock order, whenever a CPU spins on a taken lock some holder can make a step |
| VirtioQueue.SlotOfCount | src/mmio/virtio_blk.rs:78-92 | with an allowed size, wrapping the index at 16 bits does not disturb the slots |
| VirtioQueue.SlotsFollowCounts | src/mmio/virtio_blk.rs:78-92 | the slots follow the unwrapped counts if and only if the size divides 2^16 |
| VirtioQueue.SlotsDiffer | src/mmio/virtio_blk.rs:87-101 | as many elements as there are slots never share one |
| VirtioLayout.AvailIsPlaced | src/mmio/virtio_blk.rs:250-265 | the available ring begins behind the descriptors, where section 2.7.2 of Virtio 1.2 has the guest put it, for every page frame |
| VirtioLayout.RingsApart | src/mmio/virtio_blk.rs:248-271 | descriptors, available ring and used ring do not overlap, and the used ring begins less than a page behind the available ring |
| VirtioLayout.UsedOffsetIsLeast | src/mmio/virtio_blk.rs:248-271 | the offset that section 2.7.2 of Virtio 1.2 asks of legacy interfaces is the least multiple of the page size behind the available ring |
| VirtioLayout.PlacedExactly | src/mmio/virtio_blk.rs:248-271 | for a page size that is a power of two, the used ring lies at that offset if and only if the queue begins on a page boundary of the host |
| VirtioLayout.LayoutIsLegacy | src/mmio/virtio_blk.rs:248-271 | it does so for every page frame the guest may choose if and only if the page size is a power of two that divides the distance between guest and host addresses |
| VirtioLayout.LargePagesAreMisplaced | src/vm.rs:117-125 | guest pages of 64 KB over memory aligned to 4 KB: the device finds the used ring at offset 0xF000, the guest at 0x10000 |
| VirtioLayout.OddPagesAreMisplaced | src/mmio/virtio_blk.rs:248-271 | a page size of 5: offset 24 in place of 25 |
| VirtioRequests.BuffersInOrder | src/mmio/virtio_blk.rs:139-179 | the buffers of a chain that lie in guest memory are transferred in order, to consecutive parts of the file |
| VirtioRequests.BytesCounted | src/mmio/virtio_blk.rs:149-150 | the length counts all buffers, reachable or not, at 32 bits |
| VirtioRequests.StatusMeaning | src/mmio/virtio_blk.rs:138-177 | the status is 0 if every buffer lies in guest memory and every transfer succeeded, and otherwise 1 |
| VirtioRequests.AllReachable | src/mmio/virtio_blk.rs:151-160 | if all buffers lie in guest memory, none is left out |
| VirtioRequests.ServeMeaning | src/mmio/virtio_blk.rs:111-187 | a request that is not rejected is its transfers in order, writes exactly if the type is 1, from its sector on, then the status byte, then the used length |
| VirtioRings.StoredAt | src/mmio/virtio_blk.rs:87-103 | the published elements lie in consecutive slots, the other slots keep what they held |
| VirtioRings.ElementsMatchHeads | src/mmio/virtio_blk.rs:105-187 | the i-th used element carries the i-th available head |
| VirtioRings.CaughtUp | src/mmio/virtio_blk.rs:105-187 | used, consumed and available index meet if and only if no pending request is malformed |
| VirtioBlkMmio.VirtioBlkMmio.GetNextAvailId | src/mmio/virtio_blk.rs:78-85 | takes the next slot, None exactly if nothing is pending |
| VirtioBlkMmio.VirtioBlkMmio.WriteUsed | src/mmio/virtio_blk.rs:87-103 | stores the element in the next slot, then publishes it |
| VirtioBlkMmio.VirtioBlkMmio.ServeRequest | src/mmio/virtio_blk.rs:111-185 | the chain loop does what `Serve` says, and rejects exactly the malformed requests without an effect |
| VirtioBlkMmio.VirtioBlkMmio.Operation | src/mmio/virtio_blk.rs:105-193 | one notification serves the pending requests in order up to the first malformed one; the interrupt is raised exactly if there is none |
| VirtioBlkMmio.VirtioBlkMmio.WriteRegister | src/mmio/virtio_blk.rs:243-300 | the whole state after any register write; after QueueNum and QueuePFN the available ring follows the descriptors, and the used ring the available ring |
| VirtioRuns.OfferKeepsCoherent | src/drivers/virtio_blk.rs:225-229 | an offer of the driver keeps both rings coherent with their histories |
| VirtioRuns.NotifyKeepsCoherent | src/mmio/virtio_blk.rs:105-193 | a notification answers or rejects every head it takes, once and in order; if it rejects none, it takes all that wait |
| VirtioRuns.RejectedIsMalformed | src/mmio/virtio_blk.rs:105-193 | a head that is rejected is malformed, and a notification rejects at most one |
| VirtioRuns.RunIsCoherent | src/mmio/virtio_blk.rs:105-193 | over any run of offers and notifications, with malformed heads or without, across any number of wraps, the i-th used element is for the i-th head that is not rejected |
| VirtioRuns.EachAnswer | src/mmio/virtio_blk.rs:87-103 | in every run, the i-th used element has the head it answers, which is later than the one before and not rejected, and stands in its slot of the ring |
| VirtioRuns.EachHead | src/mmio/virtio_blk.rs:105-193 | every head that has been taken is answered or rejected, and not both |
| VirtioRuns.AllAnswered | src/mmio/virtio_blk.rs:105-193 | if no head has been rejected, the i-th used element is for the i-th head |
| VirtioBlkDriver.SetFree | src/drivers/virtio_blk.rs:161-165 | setting the bit of an index adds exactly that index to the free set |
| VirtioBlkDriver.ClearFree | src/drivers/virtio_blk.rs:148-159 | clearing a bit removes exactly its index from the free set |
| VirtioBlkDriver.VirtioBlk.AllocateDescriptor | src/drivers/virtio_blk.rs:148-159 | hands out the least free index; None exactly if the set is empty |
| VirtioBlkDriver.VirtioBlk.FreeDescriptor | src/drivers/virtio_blk.rs:161-165 | gives an index back |
| VirtioBlkDriver.VirtioBlk.BuildRequest | src/drivers/virtio_blk.rs:192-223 | with three free indices a chain of header, data and status; with fewer it fails and all of them stay taken |
| VirtioBlkDriver.VirtioBlk.OperationSync | src/drivers/virtio_blk.rs:167-254 | the header sent, the three descriptors word by word, the head published, the free set restored, the result that of the device; all error cases |
| VirtioBlkDriver.ChainIsServed | src/drivers/virtio_blk.rs:182-223 | the device accepts the driver's chain, makes the one transfer it asks for and stores its status |
| VirtioBlkDriver.WholeLengthIsTransferred | src/drivers/virtio_blk.rs:206-207 | the device is asked for the whole length if and only if it fits into 32 bits |
| VirtioBlkDriver.LengthIsCutShort | src/drivers/virtio_blk.rs:206-207 | a request for 2^32 + 512 bytes transfers 512 and succeeds |
| Fat32Chains.ClustersDiffer | src/fat32.rs:138-151 | the clusters of a chain that ends are all different |
| Fat32Chains.ConsecutiveBytes | src/fat32.rs:132-136 | within consecutive clusters the bytes of a file are consecutive on the disk |
| Fat32Chains.BytesDiffer | src/fat32.rs:132-151 | different bytes of a file lie at different places |
| Fat32Chains.FilesApart | src/fat32.rs:132-151 | files without a common cluster share no byte of the disk |
| Fat32Volume.ClusterIsFound | src/fat32.rs:132-136 | cluster 2 begins where the last copy of the table ends, and each cluster where the one before it ends |
| Fat32Volume.FileInClusters | src/fat32.rs:132-136 | every byte of a file lies in its cluster, and not in the reserved sectors or a copy of the table |
| Fat32Volume.BehindTwoTables | src/fat32.rs:132-136 | with 32 reserved sectors and two tables of 1000, cluster 2 begins with sector 2032 |
| Fat32Volume.ChainFollowsLinks | src/fat32.rs:138-151 | the chain of a file is the list of clusters that the table links, up to the mark at its end |
| Fat32Volume.UpperBitsMatter | src/fat32.rs:145-150 | the next cluster is that of the specification, which ignores the upper four bits of an entry, if and only if those are zero or the chain ends |
| Fat32Files.ClampedMeaning | src/fat32.rs:292-297 | a byte is part of a request if and only if the request asks for it and the file has it |
| Fat32Planning.SkipSectors | src/fat32.rs:330-334 | whole sectors before the data are skipped, except a single one |
| Fat32Planning.PlanTransfer | src/fat32.rs:328-355 | one run: which consecutive clusters it covers, how many bytes and sectors, and why there is none |
| Fat32Files.ReadRun | src/fat32.rs:357-384 | a run stores the file's bytes in the buffer, through a temporary buffer if they do not begin with a sector |
| Fat32Fragments.AfterPace | src/fat32.rs:321-391 | after each run the request is done, or can no longer be completed, or the next run begins at a jump |
| Fat32Fragments.BeginsAtOffset | src/fat32.rs:330-334 | for offsets of at most one sector into a cluster no skipped sector is forgotten |
| Fat32Fragments.ReadToTheEnd | src/fat32.rs:336-341 | up to the end of a file and its chain, a request is completed if and only if its clusters are consecutive |
| Fat32Fragments.FragmentedReadFails | src/fat32.rs:336-341 | a sound file of two separate clusters whose 1024 bytes cannot be read at once |
| Fat32Fragments.DataIsRight | src/fat32.rs:330-334 | the place of every byte of a completed request is the right one if and only if the request is supported |
| Fat32Fragments.AheadPlaces | src/fat32.rs:330-334 | the first run is ahead, by what it skips, into the cluster that follows it on the disk |
| Fat32Fragments.DrawnFromData | src/fat32.rs:366-367 | a read takes nothing from the reserved sectors or a table, even where it is ahead |
| Fat32Fragments.WrongBytesAreRead | src/fat32.rs:330-334 | a request of one cluster that begins some sectors before a jump is completed, with a byte from another place |
| Fat32Fragments.FromThirdSector | src/fat32.rs:330-334 | a sound file and such a request, on a volume with another file in the cluster behind the first one |
| Fat32Fragments.NoOverrun | src/fat32.rs:336-341 | a request whose last run finds the end of the chain too early never brings more than was asked for |
| Fat32Fragments.FailsAtEnd | src/fat32.rs:347 | a run that cannot be planned, with no more than was asked for so far, means that the request ends with its chain |
| Fat32Fragments.SecondRunOverruns | src/fat32.rs:336-341 | a read of two clusters from a file that continues elsewhere after its first cluster: it fails and does not end with the chain |
| Fat32Fragments.ReadOverruns | src/fat32.rs:336-341 | a sound file of 2048 bytes of which a read of 1024 fails and, by the contract of `Read`, stores bytes behind the buffer |
| Fat32Fragments.OneTransferIsRight | src/fat32.rs:366-367 | a single transfer draws a request from the right places if and only if its clusters are consecutive |
| Fat32Read.SkipClusters | src/fat32.rs:317-319 | follows the chain over whole clusters; None if it ends |
| Fat32Read.NextTransfer | src/fat32.rs:321-391 | one run: its bytes are drawn from their places, and it ends in success exactly if the request is completed there |
| Fat32Read.ReadRuns | src/fat32.rs:321-391 | the loop over the runs: it succeeds on a healthy disk exactly if the request is completed, and otherwise stores behind the buffer exactly if the request does not end with its chain |
| Fat32Read.Read | src/fat32.rs:284-392 | a result is the clamped length and the bytes `DrawnFrom` names, which are the right ones for every supported request; on a healthy disk there is a result if and only if `Completes` holds, and always on consecutive clusters; nothing before the buffer changes; without a result, on a healthy disk, something is stored behind it if and only if `EndsWithChain` does not hold |
| Fat32Stores.TransferInChain | src/fat32.rs:480-481 | the sectors of a run of a supported request lie within clusters of the file |
| Fat32Stores.RunLays | src/fat32.rs:480-482 | one more run stores its bytes, and those before it stay where no later one has the same place |
| Fat32Stores.AfterWrite | src/fat32.rs:480-487 | after each run: what is stored where, what has changed at most, and whether the request is completed |
| Fat32Write.WriteTransfer | src/fat32.rs:431-487 | one run: its bytes are stored at their places, and it ends in success exactly if the request is completed there |
| Fat32Write.WriteRuns | src/fat32.rs:431-488 | the loop over the runs: on a healthy disk it succeeds exactly if the request is completed, and then every byte is at its place |
| Fat32Write.Write | src/fat32.rs:394-489 | a result is the clamped length with every byte stored where `DrawnFrom` says and nothing else changed but the rest of the last sector; on a healthy disk there is a result if and only if `WriteCompletes` holds; with or without a result, at most clusters of the file change and, for a request that is not supported, the part of a neighbouring cluster into which its first run is ahead; the reserved sectors and all copies of the table stay as they are |
| Fat32Write.WriteIsRight | src/fat32.rs:394-489 | a supported request that is completed has stored every byte where the file has it |
| Fat32Write.ReadAfterWrite | src/fat32.rs:284-489 | a read of what has been written returns it |
| Fat32Write.OtherFilesUnchanged | src/fat32.rs:394-489 | a write, successful or not, leaves every file without a common cluster alone if the request is supported, or if no cluster of that file follows the first run on the disk |
| Fat32Write.AheadIsStored | src/fat32.rs:441-452 | what a completed request stores ahead of its first run lies at the beginning of the cluster that follows the run on the disk |
| Fat32Write.OtherFileIsOverwritten | src/fat32.rs:441-452 | the first byte of another file, in the cluster behind the first one, is overwritten by a request as in `WrongBytesAreRead` |
| Fat32Write.CrossingIsWritten | src/fat32.rs:441-452 | such a request is completed by `Write` |
| Fat32Write.OtherBytesUnchanged | src/fat32.rs:394-489 | a write of whole sectors leaves the other bytes of its file alone |
| Fat32Write.WritableSectors | src/fat32.rs:439-479 | among requests in whole sectors on consecutive clusters exactly those that begin one sector into their cluster are refused |
| DtbMeaning.NameMatchesNodeName | src/dtb.rs:231-237 | a name matches a target without '@' if and only if the target is what comes before the first '@' of the name |
| DtbMeaning.ListContainsStrings | src/dtb.rs:506-527 | the value of a property contains a string if and only if it is one of those joined in it |
| DtbMeaning.MatchesExactly | src/dtb.rs:215-275 | the matches are exactly the hits that are not inside another hit |
| DtbMeaning.MatchesInOrder | src/dtb.rs:215-275 | they come in document order, each once |
| DtbMeaning.AllMatchesExactly | src/dtb.rs:277-315 | the same for a whole document |
| DtbMeaning.AllMatchesInOrder | src/dtb.rs:277-315 | and so do these come in document order |
| DtbMeaning.SmallBlobHolds | src/dtb.rs:33-52 | what the 68 bytes of a blob mean, and what searches by name and by compatible device are to find in it |
| DtbParser.CompareString | src/dtb.rs:96-130 | compares a string up to a delimiter and moves behind its NUL and padding |
| DtbParser.NameCompared | src/dtb.rs:96-130 | the comparison with "@" is that of the name up to its unit address |
| DtbParser.CompareNameSegment | src/dtb.rs:69-94 | compares a property name; an offset outside the strings block is an error |
| DtbParser.SkipNop | src/dtb.rs:158-163 | moves to the next token that is no NOP; an error exactly at the end of the block |
| DtbDescent.NameIsNoToken | src/dtb.rs:174-178 | the first word of a node's name is never one of the tokens |
| DtbDescent.SkipToNextNode | src/dtb.rs:169-198 | moves exactly behind the node if it has no child, and fails if it has one |
| DtbSearch.SearchByName | src/dtb.rs:215-275 | finds the first match at or below a node in document order, with the counts of cells that hold there, or moves exactly behind the node |
| DtbCells.CellNames | src/dtb.rs:200-213 | the two properties that set a count are "#address-cells" and "#size-cells" |
| DtbCells.FoundByName | src/dtb.rs:200-213 | a child that is the first match by its name is handed the counts set by the properties of its parent |
| DtbCells.InheritedExactly | src/dtb.rs:251-256 | these are the counts of the specification if and only if the parent sets them or was come to with 2 and 1 |
| DtbCells.FoundByCompatible | src/dtb.rs:358-380 | a node found as a compatible device is handed the counts as its own properties before that have set them |
| DtbCompatible.IsDeviceCompatible | src/dtb.rs:506-527 | on a terminated list: true exactly if the target is one of its strings, whatever follows the list |
| DtbCompatible.SearchByCompatible | src/dtb.rs:317-397 | finds the first compatible node, a node before its children, with its counts of cells, or moves exactly behind the node |
| DtbIteration.SearchRest | src/dtb.rs:290-314 | from any place in a document, finds the first match that is left, through any nesting of ends |
| DtbEnumeration.Search | src/dtb.rs:277-315 | the first match, or the first one behind a given match; None if that has a child; its counts of cells, beginning with 2 and 1, or with those of the given match |
| DtbEnumeration.Locate | src/dtb.rs:277-315 | behind every match there is a place of the document from which exactly the later matches are left |
| DtbEnumeration.SearchBehind | src/dtb.rs:277-315 | a search resumed at match j gives match j + 1, or None if there is none or match j has a child |
| DtbEnumeration.Enumerate | src/dtb.rs:277-315 | repeated searches give the matches in document order, each once, up to the first that has a child |
| DtbEnumeration.AllVisited | src/dtb.rs:169-198 | that is all of them if and only if no match but the last has a child |
| DtbSerializer.NodeWritten | src/dtb.rs:33-52 | a serialized node is represented where it was written |
| DtbSerializer.FlattenedDocument | src/dtb.rs:132-156 | every well-formed document has a blob that represents it |
| DtbSerializer.MissedMatch | src/dtb.rs:169-198 | a serialized tree with two matches of which repeated searches visit one |
| DtbProperties.GetProperty | src/dtb.rs:448-498 | finds the first property of a node with the name, its value and its counts of cells; None exactly if there is none |
| DtbProperties.IsNodeCompatible | src/dtb.rs:529-534 | true exactly if the first list of compatible devices of the node names the target |

## Left out

Of the allocator:

- MemoryAllocation.MemoryAllocator.Free: a release that overlaps the free set only in part is excluded by `Releasable`; that branch (src/memory_allocator.rs:245-255) computes its length off by two.
- MemoryAllocation.MemoryAllocator.Allocate: an allocation in which the assertion of `set_range` fails for the range that is taken is excluded by `Allocatable`, because the original panics there.
- MemoryAllocation.MemoryAllocator.ReserveMemory: so is a reservation in which it fails, by `Reservable`; the same goes for `DefineUsedMemory`.
- MemoryAllocation.MemoryAllocator.InsertEntry: the call that chains the unchanged neighbour at its own size again is omitted, because it returns at once.
- MemoryAllocation.MemoryAllocator.AlreadyFree: the test of the next entry is made before the entry found is joined; the original asserts that it has not been joined by then.
- PageOrders.AlignAddressAndSizeMeaning: addresses are unbounded integers below `ADDRESS_LIMIT` and masks are arithmetic; overflow of `usize` near 2^64 is not modelled.
- Unsafe aliasing of pool entries: they are elements of one array and are named by their index.

Of the stage 2 tables:

- Stage2Mapping.Stage2Mapper.MapAddressStage2: pages for tables come from a list of distinct unused pages in place of the allocator; addresses stay below 2^50 and within the root, as the format and the tables demand; TLB and cache maintenance and the registers themselves are left out; the size must be positive, because with size 0 the original subtracts below zero.

Of the spin lock:

- SpinLock.RunIsSafe: accesses are sequentially consistent, guards of a frame are dropped in last-in first-out order, and SError, NMI and synchronous exceptions while a lock is held are not modelled.
- SpinLock.StepKeepsBase: other code writes DAIF (`SetMask`) only while its CPU holds no guard; that is an assumption of the model.
- SpinLock.NoDeadlock: ascending lock order is an assumption on the callers.

Of virtio:

- VirtioBlkMmio.VirtioBlkMmio.Operation: the queue is configured, with a power of two up to 1024 as its size, so the null pointers of src/mmio/virtio_blk.rs:51-76 do not occur; chains are acyclic; the guest does not change the queue during a notification; address translation, headers and results of the disk are parameters.
- VirtioBlkMmio.VirtioBlkMmio.WriteRegister: addresses are unbounded, so a queue whose parts reach 2^64 is not modelled.
- VirtioBlkDriver.VirtioBlk.OperationSync: the status the device stores is a parameter, and so the wait for it is not a loop; addresses of header and status on the stack are parameters.
- Set-up of the driver's registers (src/drivers/virtio_blk.rs:42-138) and register reads.

Of FAT32:

- Fat32Read.Read: cluster and sector numbers are unbounded, so overflow of `u32` is not modelled; the chain ends; which disk accesses succeed is fixed per address and length; a failed access leaves memory unchanged; whether a temporary buffer can be allocated is one flag per call; when a read fails for another reason than the chain (the disk, the allocator), nothing is said of stores behind the buffer unless `EndsWithChain` holds.
- Fat32Write.Write: as for `Read`; what the rest of the last sector holds after a request that does not fill it is left open (the bytes that follow the buffer).
- Fat32Write.ReadAfterWrite: the read and the write must both be supported and successful.
- The boot sector, directories, file names and the printing of errors.

Of the devicetree:

- DtbEnumeration.Enumerate: in a node properties come before children; padding of names is zero; bytes behind the blob read as zero; the target has no NUL; the header lies at a multiple of four.
- DtbCompatible.IsDeviceCompatible: nothing is said of lists whose last string has no NUL.
- Header checks (src/dtb.rs:54-63), `read_reg_property` and the array views of properties.

Not modelled at all: interrupt controller and its emulation, the PL011 console, timers, PSCI, ELF loading, exception vectors, start-up assembly.
