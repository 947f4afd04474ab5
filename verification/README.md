# A verified model of the jangri kernel

This project models four parts of the kernel and proves what they keep over whole runs.

**Physical pages.** `PagePool` is the page allocator on plain values: lists of free blocks by
size, the bitmap, the unused tail and the pages in clients' hands, page by page. `BitmapIndex`,
`FreeList` and `PhysicalPages` are the allocator as it is: packed 128-bit words, doubly linked
lists whose nodes lie in the free pages themselves, and in-place updates of memory. Each method
is proved to perform the step of the pool. Main results: after every run each page is in exactly
one place; allocation is best fit and first in first out; no operation changes a page that stays
with a client or hands out a page that is not zero; and the `unwrap` of an empty list under a
stale bitmap bit is characterised exactly, with a run that reaches it.

**Page tables.** `PageTree` gives the four-level tree as it lies in memory and the flat map from
36-bit page numbers to entries that it stands for. `Paging` holds `map`, `va2pa` and the walk,
working in place with pages from the allocator; `TableCleanup` the recursive clean-up;
`AddressSpaces` builds a process's memory and cleans it up; `Sv48` is the hardware's translation.
Main results: `map` extends the flat map by exactly a prefix of the request, whatever its outcome,
over pages that had no translation, and keeps the tables a tree whose pages are exactly those
taken from the allocator; the clean-up returns exactly the tables, each once; an address space
that is built by any requests and cleaned up leaves in clients' hands just what they had and the
pages granted for the process's data; after any sequence of legal requests the hardware translates
every canonical address as the software does.

**Processes.** `ProcessMachine` is the scheduler and the life of processes as a transition system;
`Kernel` has the same steps as methods on process objects, proved to perform them. Main results:
one running process, no lost wake-up, and bounded waiting, from the boot state on.

**Locks.** `SpinMutex` takes each atomic load, exchange and store of the spin lock as a step of
one of any number of harts. `ReadersWriter` runs on top of those steps, with the load and the
store of its reader count as steps of their own. `InterruptNesting` runs every lock operation
through its push, the steps of the lock and its pop, for any number of harts and locks and with
interrupt handlers between any two steps; `LockCalls` says what a whole call achieves there. Main
results: mutual exclusion; no writer beside a reader; the nesting level is the number of locks
that the hart owns, by the state of those locks, plus its failed tries; and an interrupt never
finds its hart owning a lock.

Memory is modelled in pages of 512 words, and addresses as frame number times 4096 plus offset.
Words are natural numbers below 2^64, and the bit operators are written out in `Bits`.

Things the code does that differ from what its names or checks suggest are kept as they are:
`push_front` appends at the end; the bump test is strict; `allocate` clears the bit of the
requested size, not of the emptied list; a failed `try_lock` leaves the nesting level raised; a
parent that spawns with wait goes on running until its next yield; page numbers that agree in 36
bits share an entry.

## Model

| member | source | states |
|---|---|---|
| `BitmapIndex.Bitmap.MarkAvailable` | allocator/src/bitmap.rs:17-25 | marking adds one size to the set that the words stand for, and no other |
| `BitmapIndex.Bitmap.MarkUnavailable` | allocator/src/bitmap.rs:41-49 | unmarking removes one size and no other |
| `BitmapIndex.Bitmap.IsAvailable` | allocator/src/bitmap.rs:28-39 | the test is membership |
| `BitmapIndex.Bitmap.FirstAvailable` | allocator/src/bitmap.rs:51-68 | the two nested loops return the least member not below the argument, or none if there is none |
| `FreeList.ChainIsAcyclic` | allocator/src/linked_list.rs:59-80 | a list in memory never meets a node twice, so every walk ends |
| `FreeList.LinksAreInverse` | allocator/src/linked_list.rs:59-101 | next and prev links are mutually inverse and null just at the ends |
| `FreeList.ChainIsUnique` | allocator/src/linked_list.rs:59-101 | the list is determined by its head |
| `FreeList.PushFront` | allocator/src/linked_list.rs:59-80 | appends the node at the end, touches only pages of the list and the node, and no magic check fails |
| `FreeList.PopFront` | allocator/src/linked_list.rs:82-101 | detaches the oldest node and touches only pages of the list |
| `FreeList.EncodeIsFresh` | allocator/src/linked_list.rs:16-29 | a node written into a page reads back with its size, id, null links and both magic numbers, and the rest of the page stays |
| `PagePool.AllocateIsSound` | allocator/src/page_allocator.rs:59-118 | allocation keeps every page in one place, hands out only pages nobody held, inside the memory, and every non-empty list keeps its bit |
| `PagePool.DeallocateIsSound` | allocator/src/page_allocator.rs:120-134 | deallocation of held pages keeps every page in one place and files the block as the newest of its size |
| `PagePool.RunIsSound` | allocator/src/page_allocator.rs:59-134 | whatever legal requests are made, no more being assumed of the run, both invariants hold after it |
| `PagePool.EveryPageInOnePlace` | allocator/src/page_allocator.rs:59-134 | after every run from a fresh allocator each page is in exactly one of: clients' hands, one block of one list, the unused tail |
| `PagePool.AllocateIsBestFit` | allocator/src/page_allocator.rs:72-105 | a block from the lists is the oldest of the smallest non-empty size that fits; the rest is filed under its own size; other lists stay |
| `PagePool.TailKeepsLists` | allocator/src/page_allocator.rs:107-117 | a request served from the unused tail takes its first pages and leaves every list and every bit as it was |
| `PagePool.NoMemoryIsHonest` | allocator/src/page_allocator.rs:107-117 | the tail is used, and failure reported, only when all lists that could serve are empty; failure means that the tail has at most the requested bytes; without stale bits also conversely |
| `PagePool.HaltsExactlyOnStaleBit` | allocator/src/page_allocator.rs:73-75 | the unwrap fails exactly when the least marked size that fits has an empty list |
| `PagePool.StaleBitsComeFromSplits` | allocator/src/page_allocator.rs:73-100 | from any sound pool: a request served from size v clears the stale bit of the remainder's size and leaves one, that of v, exactly when it splits the last block of size v; any other request changes no stale bit |
| `PagePool.CleanUntilSplit` | allocator/src/page_allocator.rs:73-100 | a pool without stale bits does not halt, and stays without them exactly unless the request splits the last block of the smallest size that fits |
| `PagePool.DeallocateLeavesNoStaleBit` | allocator/src/page_allocator.rs:120-134 | deallocation makes no bit stale and cures that of its size, and no other |
| `PagePool.OneSizeNeverHalts` | allocator/src/page_allocator.rs:59-134 | runs with requests of one size never halt |
| `PagePool.HaltingRun` | allocator/src/page_allocator.rs:73-77 | five legal requests on a fresh allocator reach the failing unwrap |
| `PhysicalPages.PageAllocator.constructor` | allocator/src/page_allocator.rs:40-57 | a new allocator represents the fresh pool |
| `PhysicalPages.PageAllocator.Allocate` | allocator/src/page_allocator.rs:59-118 | performs the step of the pool, panics just on bad sizes and stale bits, returns zeroed pages, changes no page of a client or outside the memory |
| `PhysicalPages.PageAllocator.AllocateFromList` | allocator/src/page_allocator.rs:73-105 | the branch served by a list |
| `PhysicalPages.PageAllocator.AllocateFromTail` | allocator/src/page_allocator.rs:107-117 | the branch served by the unused tail |
| `PhysicalPages.PageAllocator.Deallocate` | allocator/src/page_allocator.rs:120-134 | performs the step of the pool for every size that has a list, one to 2560 pages, panics at all others, changes no page that stays with a client |
| `PhysicalPages.PageAllocator.FileBlock` | allocator/src/page_allocator.rs:124-133 | writing the node into the block and queueing it represents the pool with the block filed |
| `PageTableEntries.FillIsExact` | arch/riscv/src/vm.rs:60-76 | on an all-zero entry the OR and the flag setters build exactly the intended word, for a leaf and for a pointer |
| `PageTableEntries.SetAddressIsExactIff` | arch/riscv/src/vm/pte.rs:45-50 | ORing an address in is right for every address exactly when the entry held none |
| `PageTableEntries.LeafReadsBack` | arch/riscv/src/vm/pte.rs:37-89 | the readers return the page and the permissions that were put in |
| `PageTree.LevelToIndexIsIdx` | hal/src/vm.rs:61-65 | shift and mask select the nine bits of the level |
| `PageTree.IndicesIdentifyPage` | hal/src/vm.rs:61-65 | different pages differ in some index |
| `PageTree.TreeIsUnique` | hal/src/vm.rs:81-105 | memory and root determine the tables, each reached at one place |
| `PageTree.WalkFollowsTree` | hal/src/vm.rs:81-108 | the walk finds the last-level table exactly when the tree has one, and reports the missing address otherwise |
| `PageTree.LinkKeepsTree` | hal/src/vm.rs:88-96 | linking a zeroed page as a table keeps the tree and maps nothing new |
| `PageTree.FillKeepsTree` | arch/riscv/src/vm.rs:52-77 | filling a final entry keeps the tree and changes the flat map at one page |
| `Paging.Riscv.GetPageTableEntryAddress` | hal/src/vm.rs:68-109 | returns the final entry, never changes the flat map, adds only tables on the way to the walked page, all taken from the allocator, and without allocation changes nothing; with allocation it fails, or halts, only when a table is missing and the allocator has no page, or meets a stale bit |
| `Paging.Riscv.NextTable` | hal/src/vm.rs:81-104 | one level: follow a valid entry, supply the missing table, or fail for one of the allocator's reasons |
| `Paging.Riscv.LinkNewTable` | hal/src/vm.rs:88-96 | the new table is exactly what the allocator handed out; a failure leaves the tree alone and means that the allocator has no page, a halt that it meets a stale bit |
| `Paging.Riscv.Map` | arch/riscv/src/vm.rs:17-85 | whatever the result, exactly the first pages of the request were added with the requested permissions, none of them mapped before; all tables taken are in the tree, on the way to one of those pages or the next; other client pages are untouched; each error and each halt comes with its cause at the page where it stopped |
| `Paging.MapRefinesFlatMap` | arch/riscv/src/vm.rs:42-84 | `va2pa` after `map`: added pages translate to the block with the requested permissions, all other addresses as before |
| `Paging.MapKeepsTranslations` | arch/riscv/src/vm.rs:53-58 | an address translated before the call keeps its entry, so its translation and permissions, whatever the result |
| `Paging.MappingCollides` | arch/riscv/src/vm.rs:53-58 | a page reported as mapped was mapped before the call |
| `Paging.OtherTreesAreKept` | arch/riscv/src/vm.rs:17-85 | another address space keeps its tables and its flat map |
| `Paging.Riscv.Va2Pa` | arch/riscv/src/vm.rs:113-133 | answers from the flat map with the byte offset added, names the missing address otherwise, and writes nothing |
| `TableCleanup.RecursiveClean` | arch/riscv/src/vm.rs:152-172 | ends, returns exactly the tables at and below the given one, each as one page, and changes no page left with a client |
| `TableCleanup.CleanUpPageTable` | arch/riscv/src/vm.rs:135-141 | returns exactly the tables of the tree, each once, and nothing that is only mapped |
| `TableCleanup.CleanupStopsAtLeafIff` | arch/riscv/src/vm.rs:160-167 | the clean-up stops at an entry written by `map` exactly when some permission was requested |
| `TableCleanup.MapKeepsLeavesPermitting` | arch/riscv/src/vm.rs:62-72 | requests with a permission keep the tree fit for clean-up |
| `AddressSpaces.BuildSpace` | kernel/src/process.rs:118-202 | from the root page through any requests for mappings and for image, stack and trap-frame pages, refused ones included: each mapping ends as it has to, the flat map holds just what the mappings added, the tables are just those that the requests need, and beside them exactly the granted blocks, which do not overlap, were handed out; it fails exactly when there is no page for the root |
| `AddressSpaces.BuildAndCleanUp` | kernel/src/syscall.rs:232-240 | after the clean-up clients have what they had, unchanged, and exactly the blocks granted to page requests; the kernel halts on the way only at a stale bit or past the last physical address, and even then what clients had is unchanged |
| `Sv48.HardwareFollowsTree` | hal/src/vm.rs:81-108 | the hardware's walk of sections 4.3.2 and 4.5 of the RISC-V Privileged Architecture reaches the same last-level table |
| `Sv48.CanonicalIffSignExtended` | hal/src/constants.rs:4-12 | the addresses that the hardware accepts are those whose bits 63 to 48 equal bit 47, so the trampoline and the pages below it are among them |
| `Sv48.HardwareAgreesIff` | arch/riscv/src/vm.rs:113-133 | at an entry written by `map`, hardware and software agree exactly when nothing is mapped, or the address is canonical, the page is below 2^56, the permissions are legal and not empty, and the hardware sets the accessed bit |
| `Sv48.HistoryIsLegal` | arch/riscv/src/vm.rs:42-84 | through any sequence of `map` calls with legal requests, from a zeroed root page and whatever else happens in between, every entry stays empty or legal |
| `Sv48.HardwareAgreesAlways` | arch/riscv/src/vm.rs:17-85 | after any such sequence, requests and memory lying below 2^56 and permissions legal and not empty, the hardware's translation is the software's at every address whose bits 63 to 48 equal bit 47, and a fault elsewhere; hardware that leaves the accessed bit to the kernel faults everywhere |
| `Sv48.HardwareSeesMapping` | arch/riscv/src/vm.rs:42-84 | the hardware translates an added page to the requested block exactly under that condition |
| `UserSlices.FirstTranslationSufficesIff` | janglib/src/memory.rs:31-34 | reading from the translation of the first address succeeds with the bytes that every address translates to exactly when all pages of the range are mapped and neighbouring ones adjoin |
| `UserSlices.SliceInsideOneMapping` | janglib/src/memory.rs:30-48 | inside one `map` request this holds for reads and for the shortened writes |
| `UserSlices.ByteAddressIsTranslation` | janglib/src/memory.rs:31-34 | the byte address used above is what `va2pa` answers, and there is one exactly when `va2pa` succeeds |
| `ProcessMachine.SearchIsFirstReady` | kernel/src/global_state.rs:99-122 | the search returns the first ready process in queue order and moves everything up to it behind the rest |
| `ProcessMachine.BootIsFine` | kernel/src/main.rs:119-127 | the machine after boot satisfies the invariant |
| `Kernel.Boot` | kernel/src/main.rs:105-127 | a new state and the first `assign_process` give the boot state: one ready process with pid 1 |
| `ProcessMachine.NextKeepsInv` | kernel/src/syscall.rs:129-243 | every step keeps: queue a duplicate-free permutation of the processes, one running process, waiting only for a living younger child |
| `ProcessMachine.ReachableRunning` | kernel/src/scheduler.rs:90-131 | in every reachable state at most one process runs, it is the current one, and none while the scheduler has control |
| `ProcessMachine.ReachableWaiting` | kernel/src/syscall.rs:148-168 | in every reachable state a waiting process waits for a living child of its own with a larger pid |
| `ProcessMachine.IdleIffAllTerminated` | kernel/src/global_state.rs:99-122 | the scheduler finds nothing exactly when every process has terminated |
| `ProcessMachine.WokenExactlyByExit` | kernel/src/syscall.rs:197-223 | a parked waiting process becomes ready at the exit of the process it waits for and changes at no other step |
| `ProcessMachine.TerminatedIsFinalInRuns` | kernel/src/syscall.rs:197-205 | a terminated process never changes again |
| `ProcessMachine.ExitStatusStays` | kernel/src/syscall.rs:197-205 | an exit's status is the state of the process in every later state |
| `ProcessMachine.BoundedWaiting` | kernel/src/global_state.rs:99-122 | a ready process at position i is dispatched within i + 1 dispatches, whatever else happens |
| `ProcessMachine.SpawnedIsDispatched` | kernel/src/syscall.rs:129-169 | a spawned process is dispatched within as many dispatches as there were processes, and one more |
| `Kernel.GlobalState.FindReadyProcess` | kernel/src/global_state.rs:99-122 | the loop performs the search and changes only the queue |
| `Kernel.GlobalState.AssignProcess` | kernel/src/process.rs:121-133 | adds a ready process without parent to map and queue |
| `Kernel.GlobalState.Schedule` | kernel/src/scheduler.rs:91-115 | performs the dispatch or the idle step |
| `Kernel.GlobalState.YieldCpu` | kernel/src/process.rs:97-109 | performs the yield step |
| `Kernel.GlobalState.SpawnProcess` | kernel/src/syscall.rs:129-169 | performs the spawn step, or the failing one when the image does not load |
| `Kernel.GlobalState.ExitProcess` | kernel/src/syscall.rs:197-223 | performs the exit step |
| `SpinMutex.NextKeepsInv` | sync/src/mutex.rs:49-100 | every atomic step of every hart keeps: one owner, flag set just while owned, holder field right |
| `SpinMutex.MutualExclusion` | sync/src/mutex.rs:49-100 | any number of harts, every interleaving: at most one is inside |
| `SpinMutex.DoubleLockPanicsExactly` | sync/src/mutex.rs:25-59 | the panic follows exactly when the calling hart holds the lock, despite the two loads |
| `SpinMutex.RefinesAtomicLock` | sync/src/mutex.rs:61-100 | ownership moves at the winning exchange and the clearing of the flag, and at no other step |
| `ReadersWriter.RwNextKeepsInv` | sync/src/rwlock.rs:21-71 | every step on top of the mutex's atomic steps, with separate load and store of the count, keeps: count equals read locks held, a loaded count is still current when it is stored back, a writer only at zero |
| `ReadersWriter.CallsAchieve` | sync/src/rwlock.rs:21-71 | from a call to its return, other harts' steps in between: the shared calls take or give back one read lock, the exclusive ones the write lock; a try comes back without only after a refusal; each call enters the mutex once, but `lock_exclusive` again after meeting readers; `unlock_exclusive` does not enter |
| `ReadersWriter.ReadersAndWritersExclude` | sync/src/rwlock.rs:21-71 | no writer with a reader or a second writer, no lost update of the count, and the decrement never underflows |
| `ReadersWriter.OnlyWritersReenter` | sync/src/rwlock.rs:21-65 | the double-lock panic strikes only a writer that enters again by a blocking call |
| `ReadersWriter.ReenteringWriterPanics` | sync/src/mutex.rs:25-59 | every such writer ends there: its own next two steps are the two loads and the panic, whatever other harts do |
| `InterruptNesting.NextKeepsInv` | sync/src/mutex.rs:49-100 | every step of push, lock, unlock, pop and of an interrupt handler, on any hart, keeps locks and bookkeeping consistent |
| `LockCalls.CallsAchieve` | sync/src/mutex.rs:49-100 | from a call to its return, handlers and other harts in between: `lock` takes the lock that was asked for, `try_lock` takes it or counts one more failed try, `unlock` gives it back, and the hart's other locks stay its own |
| `InterruptNesting.LevelCountsLocks` | sync/src/lib.rs:16-36 | in every reachable state each hart's level is the number of locks it owns plus its losing tries, plus one between a count and the outcome of its exchange or between the clearing of a flag and its decrement; interrupts are off while it is positive; the decrement never wraps |
| `InterruptNesting.InterruptsMeetNoLock` | sync/src/lib.rs:16-26 | whenever an interrupt can be taken its hart owns no lock and is in no lock's code |
| `InterruptNesting.OutermostPopRestores` | sync/src/lib.rs:28-36 | at level zero interrupts are what they were at the outermost push |
| `InterruptNesting.OuterIsRemembered` | sync/src/lib.rs:16-26 | that value is fixed at the outermost push and survives handlers and the steps of other harts |
| `InterruptNesting.HandlerLeavesNoTrace` | sync/src/lib.rs:16-36 | a handler that unlocks what it locks and loses no try leaves level, enable flag and interrupted code as they were, and owns nothing |
| `InterruptNesting.FailedTryLockSticks` | sync/src/mutex.rs:74-84 | after a failed `try_lock` interrupts stay off for good |

## Left out

- PhysicalPages.PageAllocator.constructor: takes a page-aligned start; the kernel aligns it before the call, and nodes and tables need it.
- PhysicalPages.PageAllocator.Deallocate: requires that the pages are held by the caller; the source does not check this, and no property survives a double return.
- Paging.Riscv.Map: page tables given to it must be trees of pages from the allocator, as all page tables of the kernel are. Overflow of the physical address is a panic, as in the development build. The address of a local variable in one error value is dropped.
- TableCleanup.CleanUpPageTable: requires that every valid last-level entry grants something; `TableCleanup.CleanupStopsAtLeafIff` says which requests give that.
- Sv48.HardwareAgreesIff: of the steps of section 4.3.2, the check of the access type and the privilege mode (step 5) is not modelled, nor is the dirty bit for stores (part of step 7). `map` leaves the accessed and dirty bits at zero, so hardware that does not set them itself faults at every access.
- AddressSpaces.BuildAndCleanUp: a failing request for the root page is an error here, where the kernel unwraps it; a later failing request ends neither the sequence nor the clean-up, where in the kernel it ends the creation of the process; the pages of image, stack and trap frame stay handed out, as the kernel never returns them; a request for no pages at all is not one of its steps.
- UserSlices.SliceInsideOneMapping: speaks of the addresses that are read or written, not of the copied bytes.
- SpinMutex.NextKeepsInv: the lock, the readers-writer lock and the nesting counter are modelled as atomic steps on values, because harts and handlers interleave inside their methods; memory order is sequentially consistent and spinning is not proved to end.
- InterruptNesting.NextKeepsInv: keeps a level for each hart; the source has one counter and runs one hart. Only the holder unlocks; guards that move to another hart are not modelled. A handler returns only after it has dropped its guards and without a failed `try_lock`: the source lets a handler return after a failed one, which switches interrupts on again at a raised level, so that `InterruptNesting.LevelCountsLocks` does not hold there.
- Entry setters of arch/riscv/src/vm/pte.rs are functions on words; the store to memory is a separate step of the calling method.
- Page-table access under the kernel's own locks is sequential, so paging and scheduling are not interleaved with the lock models.
- Processes: the state before `assign_process` marks a new process ready, which no other context sees; child lists, remove_process (not called), exits from exceptions, heap growth on page faults, the fields that concern memory, and overflow of the pid counter. ELF parsing is a yes or no input.
- `unmap`, `is_leaf_pte` and `LinkedList::remove`: not used by the parts modelled.
- Device tree, UART, PLIC, SBI calls, the shell, syscall transport, ramfs, boot assembly, context switch, TLB fences and the kernel heap: devices, foreign memory or foreign code.
