# Verified core of the EdgeX kernel

A Dafny model of three parts of the EdgeX kernel, with proofs of what they guarantee over every
input and every run.

**Page directories** (`kernel/memory/page_directory.c`). Physical memory is a heap of 512-entry table
frames, data frames and free frames. `PagingSystem` carries out map, unmap, flag changes, copying,
copy-on-write faults, creation, destruction and validation on it, entry by entry and with the
original's error paths. The proof has six layers.

- `PageForest`, `PagingSteps`, `TableChanges`: the tables of all live directories form a forest; each
  entry written changes the translations it governs and no others, and only tables of its directory.
- `Translation`: the walk written out bit by bit, as `get_physical_address` has it, and what requests do
  to single byte addresses.
- `AddressSpaces`, `PagingBridge`: each operation is an operation on flat page maps.
- `CowModel`: on page maps, copying lazily cannot be told from copying every page at once.
- `SaneSpaces`, `TableSession`: runs of requests over any frames, shared or not. Each request does what it
  should to the page maps, every directory validates, and unmapping undoes mapping anywhere in a run.
- `PagingSession`: a whole session of requests, loads and stores on the table heap, carried through all
  layers. Loads and stores stand for the processor's accesses, with write faults resolved by
  `handle_page_fault`.

`PageCensus` and `Validation` say when `validate_page_tables` accepts a directory. `Lean` follows which
tables carry no page, through every operation and for all directories at once. With `PagingLaws` it gives
the round trip of map and unmap down to the exact set of table frames.

**Message queues and semaphores.** `RingQueue` is the circular buffer of `kernel/ipc/message/message.c`,
an array shifted in place, and `RingLaws` its delivery order. `ListQueue` is the four-list queue of
`kernel/message.c`. `WaitQueue` and `Semaphores` are the wait queues and semaphores of `kernel/ipc.c`.
`RingProtocol` and `ListProtocol` interleave any number of senders and receivers, one step for each
semaphore operation and each section under the queue's lock.

**Scheduler queues** (`kernel/scheduler.c`). `TaskQueues` has the doubly linked queues, `Scheduler` the
seven of them with the running task, the counts and the timed wake-up. The ready queues and the
blocked and sleeping queues are kept in one array of heads, because the original passes a pointer to
the head of whichever queue is meant.

Allocation may fail at any time. The model of `alloc_pages` hands out some free frame or refuses, and
counts the refusals, so that contracts can say that a request fails for want of memory exactly when
the allocator refused. Clocks, task identities and allocator outcomes of the other parts are parameters
or results.

## What the code does not do

Some properties one would expect do not hold. Each is refuted by a concrete case or excluded by an
exact condition.

- A copy-on-write copy also marks read-only pages, which a later write fault then makes writable
  (`CowModel.CopyPermissions`, `CowModel.ReadOnlyPageBecomesStorable`).
- A mapping made with the PAGE_SIZE flag breaks validation, unless it only lays large leaves over pages
  mapped before: a 4K leaf carries the flag, and a large leaf over free pages is not counted
  (`Validation.MapValidates`, `Validation.LargeMapFailsValidation`).
- The page counter is copied although only the user half is; the copy validates exactly when the source
  has no kernel-half page (`Validation.CopyValidates`,
  `Validation.KernelPageFailsCopy`).
- A request for large pages is not stopped by pages already mapped: a leaf no larger than the new one is
  overwritten, and a table below the entry is orphaned (`PagingSystem.PagingSystem.MapOne`,
  `TableChanges.OrphansExactly`). Unmapping the range afterwards restores the page counter exactly when
  no large leaf was made (`PagingLaws.MapThenUnmap`).
- A copy without the copy-on-write flag shares writable frames; it is safe exactly when every page of the
  source is copy-on-write already (`CowModel.PlainCopyKeeps`, `CowModel.PlainCopyLeaks`).
- The last sharer of a copy-on-write frame does not free it, neither when unmapping nor when its fault is
  resolved (`CowModel.UnmapStrands`, `CowModel.FaultStrands`).
- `handle_page_fault` tests bit 0 of the error code for a write although
  `include/edgex/memory/page_directory.h` gives bit 1 that meaning. The model follows the code.
- The circular queue keeps LOW and NORMAL messages in order of arrival, although
  `tests/kernel/ipc/message/test_message.c:305-332` expects NORMAL first (`RingLaws.SendStrict`,
  `RingLaws.LowBeforeNormal`).
- Clean-up adjusts the priority counters by the message that moved up instead of the one removed
  (`RingLaws.CleanupExact`, `RingLaws.CleanupMiscounts`). It destroys the semaphores even while senders or
  receivers are half way through or blocked, which wakes the blocked ones without a token
  (`RingProtocol.SweepTokens`, `RingProtocol.SweepOvercommits`).
- The urgent counter follows the flag on the way in and the priority on the way out
  (`RingLaws.SendExact`, `RingLaws.UrgentFlagMiscounts`).
- In the four-list queue a sender that cannot allocate a node keeps its slot for good
  (`ListProtocol.BoundedBuffer` bounds the queue by what is left).
- `schedule` sets the flag that makes it return, so once the idle task runs, nothing else ever does
  (`Scheduler.Scheduler.Schedule`, `Scheduler.Scheduler.Drive`).

## Model

| member | source | states |
|---|---|---|
| `PageForest.OneSlotPerTable` | kernel/memory/page_directory.c:399-498 | tables stay a tree: two slots that point to the same table are the same slot, and the table is live |
| `PageForest.WalkFromTable` | kernel/memory/page_directory.c:1182-1234 | the walk from the root is the walk from any table it passes |
| `PageForest.TableAtPos` | kernel/memory/page_directory.c:1182-1234 | a table on the way to a page hangs in that directory, at that level and address prefix |
| `PageForest.WalkSameLeaf` | kernel/memory/page_directory.c:1182-1234 | every page under a 1G or 2M leaf is translated by that leaf |
| `PageForest.AttachKeeps` | kernel/memory/page_directory.c:399-498 | hanging a zeroed table into an absent entry keeps the forest and every translation of every directory |
| `PageForest.DetachKeeps` | kernel/memory/page_directory.c:729-772 | freeing a table without present entries and clearing its pointer keeps the forest and every translation |
| `PageForest.StoreKeeps` | kernel/memory/page_directory.c:500-518 | storing or clearing a leaf changes exactly the pages its entry governs, in one directory |
| `PageForest.NewRootKeeps` | kernel/memory/page_directory.c:116-166 | a new PML4 table maps nothing and leaves all other directories as they were |
| `PageForest.DropRootKeeps` | kernel/memory/page_directory.c:173-241 | freeing a PML4 table leaves all other directories as they were |
| `TableChanges.OnlyWalks` | kernel/memory/page_directory.c:399-498 | walks of directories other than the one worked on pass the same tables and end at the same leaves |
| `TableChanges.OrphansExactly` | kernel/memory/page_directory.c:428-473 | a large leaf orphans a table exactly when one hung on the way below it |
| `TableChanges.DetachOrphans` | kernel/memory/page_directory.c:729-772 | freeing a table without present entries orphans none |
| `TableChanges.SlotOrphans` | kernel/memory/page_directory.c:420-473 | an entry that is no table pointer orphans a table exactly when it overwrites a pointer |
| `Translation.ResolveIsWalk` | kernel/memory/page_directory.c:1182-1234 | indexing the four tables by address bits 39, 30, 21 and 12 finds the leaf of the model's walk, with its size in bytes |
| `Translation.FromWalk` | kernel/memory/page_directory.c:1182-1234 | the physical address is the frame of the page plus the offset, at every page size |
| `Translation.PagesTouched` | kernel/memory/page_directory.c:371-374 | a request for a byte range is about exactly the pages in which some byte of the range lies |
| `Translation.InstalledBytes` | kernel/memory/page_directory.c:371-518 | a finished map request translates every byte of its range to its place with the flags asked for; no other page's bytes change |
| `Translation.ClearedBytes` | kernel/memory/page_directory.c:555-783 | after an unmap request no byte of its range is mapped |
| `Translation.CopiedBytes` | kernel/memory/page_directory.c:274-275 | copied tables translate exactly the source's addresses below 2^47 |
| `Translation.MarkedBytes` | kernel/memory/page_directory.c:885-904 | marking moves no address and makes exactly the pages below 2^47 copy-on-write and not writable |
| `Translation.LevelInBytes` | kernel/memory/page_directory.c:423-466 | when a 1G or 2M leaf is chosen, on byte addresses |
| `AddressSpaces.InstalledSpaces` | kernel/memory/page_directory.c:385-518 | mapping adds exactly the requested run of pages to one flat page map, whatever leaf sizes carry it |
| `AddressSpaces.ClearedSpaces` | kernel/memory/page_directory.c:546-783 | unmapping removes exactly a run of pages from one flat page map |
| `AddressSpaces.CopiedSpaces` | kernel/memory/page_directory.c:916-1145 | copying tables gives the target the user half of the source's page map |
| `AddressSpaces.MarkedSpaces` | kernel/memory/page_directory.c:885-904 | marking makes every user page copy-on-write and not writable and changes nothing else |
| `PagingSystem.PagingSystem.constructor` | kernel/memory/page_directory.c:96-107 | no directory yet and all frames free is a well-formed start that satisfies the run invariant |
| `PagingSystem.PagingSystem.AllocData` | include/edgex/memory.h:45 | a data frame handed out is zeroed, was free, and no directory maps it yet |
| `PagingSystem.PagingSystem.EnsureTable` | kernel/memory/page_directory.c:399-498 | finds or creates the next table: no translation changes, no table is orphaned, no other directory is touched; fails exactly when the allocator refuses, and then nothing has changed |
| `PagingSystem.PagingSystem.MapOne` | kernel/memory/page_directory.c:399-518 | one step maps the largest leaf that is asked for, aligned and fits; EEXIST exactly when the page is mapped and no large leaf of at least that size suits; ENOMEM exactly on refusal; a table is orphaned exactly when a large leaf is laid over it; in bytes, a 1G or 2M leaf needs both addresses at multiples of its size and that many bytes left |
| `PagingSystem.PagingSystem.MapPages` | kernel/memory/page_directory.c:385-518 | whatever the loop returns, a prefix of the pages is newly mapped in order, only large leaves overwrite, the counter grew by the 4K leaves made, which are all pages exactly when no large leaf suits and none exactly when only large leaves do |
| `PagingSystem.PagingSystem.MapMemoryRange` | kernel/memory/page_directory.c:361-534 | the same for a byte range: new page map, counter, reason for stopping; tables come from free frames, none is orphaned or left idle by a 4K request that memory sufficed for, and no other directory's tables are touched; on success every byte of the range is translated to its place behind the page of `paddr`, with the writable and user flags asked for and not copy-on-write; addresses in pages without a byte of the range keep address and flags |
| `PagingSystem.PagingSystem.ScanEmpty` | kernel/memory/page_directory.c:729-737 | scans the 512 entries and tells whether none is present |
| `PagingSystem.PagingSystem.Prune` | kernel/memory/page_directory.c:729-772 | frees exactly the tables on the way that hold no present entry, or only the pointer to the table freed before, up to the first that holds more; no table is orphaned, every translation stays |
| `PagingSystem.PagingSystem.Locate` | kernel/memory/page_directory.c:1182-1234 | the table walk stops where the translation does and returns the tables passed |
| `PagingSystem.PagingSystem.UnmapOne` | kernel/memory/page_directory.c:558-778 | removes the leaf at a page with all its pages, frees its frames only if asked to and it is not copy-on-write, and frees exactly the tables that then hold no present entry |
| `PagingSystem.PagingSystem.UnmapMemoryRange` | kernel/memory/page_directory.c:546-783 | the page map loses exactly the range (to the end of its last leaf), the counter drops by the mapped pages, freed frames are those owned and not copy-on-write, every frame is accounted for, no table is orphaned, no other directory is touched; no byte of the range is mapped afterwards, and with 4K pages all addresses in other pages are translated as before |
| `PagingSystem.PagingSystem.SetPageFlags` | kernel/memory/page_directory.c:1246-1300 | changes the flags of the leaf translating the page, at any level, and no other translation; EFAULT exactly when unmapped |
| `PagingSystem.PagingSystem.MarkPagesCow` | kernel/memory/page_directory.c:885-904 | every mapped address below 2^47 keeps its translation and becomes copy-on-write and not writable, all others keep address and flags, no table falls idle |
| `PagingSystem.PagingSystem.HandleCowPageFault` | kernel/memory/page_directory.c:794-874 | exact error conditions; on success one page moves to a fresh frame, with the same contents if it was backed by a data frame, writable and not copy-on-write; nothing else changes |
| `PagingSystem.PagingSystem.HandlePageFault` | kernel/memory/page_directory.c:312-348 | succeeds exactly for write faults without the reserved bit on 4K copy-on-write pages when a frame is to be had; otherwise nothing changes |
| `PagingSystem.PagingSystem.LoadByte` | kernel/memory/page_directory.c:1182-1234 | a load returns the byte of the frame the page maps to, exactly when mapped |
| `PagingSystem.PagingSystem.StoreByte` | kernel/memory/page_directory.c:312-348 | a store with its fault resolved succeeds exactly when the page is writable or copy-on-write and no frame was refused, and is a write or a fault followed by the write |
| `PagingSystem.PagingSystem.CreatePageDirectory` | kernel/memory/page_directory.c:116-166 | a new directory maps nothing, counts nothing and disturbs no other |
| `PagingSystem.PagingSystem.DestroyPageDirectory` | kernel/memory/page_directory.c:173-241 | exactly the PML4 frame is freed; the lower tables stay allocated; other directories keep every translation |
| `PagingSystem.PagingSystem.CopyPageTables` | kernel/memory/page_directory.c:916-1145 | a prefix of the user pages is copied leaf by leaf, all of them on success, the source unchanged; on success every table of the copy carries a page; on success the target translates exactly the addresses below 2^47 that the source does, to the same place with the same flags |
| `PagingSystem.PagingSystem.CopyPageDirectory` | kernel/memory/page_directory.c:252-301 | the new directory has the user half of the source, both marked if asked; on failure all directories are as before; it fails exactly when the source is missing or the allocator refuses; no table of any directory falls idle and the copy has no idle table; the copy translates exactly the addresses below 2^47 that the source does, to the same place, and with the copy-on-write flag both become copy-on-write and not writable there and nowhere else |
| `PagingSystem.PagingSystem.ValidateTable` | kernel/memory/page_directory.c:1395-1609 | counting below a table yields the number of pages mapped below it and whether all leaves are in order |
| `PagingSystem.PagingSystem.ValidatePageTables` | kernel/memory/page_directory.c:1395-1634 | returns 0 exactly when the counter is the number of mapped pages, no entry is both copy-on-write and writable, no 4K entry carries the PAGE_SIZE flag and every page begins at a multiple of its size |
| `PageCensus.OrderOnBytes` | kernel/memory/page_directory.c:1485-1592 | the leaf test of validation, on the entries met byte by byte |
| `CowModel.StepKeeps` | kernel/memory/page_directory.c:252-301 | every operation keeps: shared frames are copy-on-write everywhere, counters exact, pages backed by data frames |
| `CowModel.RunKeeps` | kernel/memory/page_directory.c:252-874 | the invariant holds in every state of every run |
| `CowModel.StepSimulates` | kernel/memory/page_directory.c:794-904 | each operation shows what the same operation shows on private memories |
| `CowModel.CowRefinesEagerCopy` | kernel/memory/page_directory.c:252-301 | along every run of creates, maps, unmaps, copies, faults, reads and writes, every address space shows the contents it would have had every copy duplicated every page, and every read returns them |
| `CowModel.SharedFramesStayCow` | kernel/memory/page_directory.c:713-721 | along every run a frame behind two pages is copy-on-write and not writable in both, and unmap frees no frame a live directory still maps |
| `CowModel.FreedAreUnmapped` | kernel/memory/page_directory.c:713-721 | a frame freed by one unmap is mapped by no remaining page |
| `CowModel.WritableIsPrivate` | kernel/memory/page_directory.c:861-862 | a writable page shares its frame with no other page |
| `CowModel.LaidPage` | kernel/memory/page_directory.c:500-518 | a page just mapped has the frame, writable and user flags asked for and may be stored to exactly if writable was asked for |
| `CowModel.CopyPermissions` | kernel/memory/page_directory.c:885-904 | copying makes every page storable; permissions are kept exactly when all pages were storable |
| `CowModel.ReadOnlyPageBecomesStorable` | kernel/memory/page_directory.c:885-904 | a read-only page that a copy makes storable |
| `CowModel.PlainCopyKeeps` | kernel/memory/page_directory.c:284-288 | a copy without the copy-on-write flag keeps the run invariant if and only if every source page is copy-on-write already |
| `CowModel.PlainCopyLeaks` | kernel/memory/page_directory.c:284-288 | a store by one directory that the other reads after such a copy |
| `CowModel.UnmapStrands` | kernel/memory/page_directory.c:713-721 | the frame of an unmapped page ends up behind no page and not free if and only if it was to be kept or is copy-on-write, and nobody else maps it |
| `CowModel.FaultStrands` | kernel/memory/page_directory.c:850-866 | a resolved fault leaves the old frame behind no page and not free if and only if nobody else maps it |
| `PagingBridge.MapRefines` | kernel/memory/page_directory.c:361-534 | a 4K map on tables, over any frames, adds free pages to one page map and counts them |
| `PagingBridge.UnmapRefines` | kernel/memory/page_directory.c:546-783 | an unmap on tables is an unmap step on page maps |
| `PagingBridge.FaultRefines` | kernel/memory/page_directory.c:794-874 | a resolved fault on tables is a fault step on page maps |
| `PagingBridge.InvOwns` | kernel/memory/page_directory.c:713-721 | under the invariant the frames a directory may free, between any two pages, are its own |
| `Validation.InvValidates` | kernel/memory/page_directory.c:1395-1609 | every directory reached under the invariant validates |
| `Validation.MapValidates` | kernel/memory/page_directory.c:428-473 | whatever the range holds and however far the request comes, it keeps a directory valid if and only if PAGE_SIZE is not asked for, or only large leaves were made and every page of them was mapped before |
| `Validation.LargeMapFailsValidation` | kernel/memory/page_directory.c:428-514 | an empty directory validates; after one page is mapped with PAGE_SIZE it does not, whatever the counter |
| `Validation.UnmapValidates` | kernel/memory/page_directory.c:724-727 | unmapping keeps a directory valid for any page sizes |
| `Validation.MarkedValidates` | kernel/memory/page_directory.c:885-904 | marking the pages of a directory copy-on-write keeps it valid |
| `Validation.FaultValidates` | kernel/memory/page_directory.c:794-874 | a copy-on-write fault, resolved or not, keeps the directory valid, whatever frame was behind the page |
| `Validation.CopyValidates` | kernel/memory/page_directory.c:284-291 | the copy, marked copy-on-write or not, validates if and only if the source has no kernel-half page |
| `Validation.UserPageIsCopied` | kernel/memory/page_directory.c:274-275 | a directory with one page in the last PML4 slot of the user half, which every copy has |
| `Validation.KernelPageFailsCopy` | kernel/memory/page_directory.c:284-291 | a directory with one kernel-half page that validates and whose copy does not |
| `PagingLaws.PageSizeDoesNotShow` | kernel/memory/page_directory.c:385-518 | large and 4K mappings of the same range give every address of every directory the same translation |
| `PagingLaws.UnmapUndoesMap` | kernel/memory/page_directory.c:546-783 | unmapping what was mapped over a free range restores every translation, for any page sizes |
| `PagingLaws.RoundTripTables` | kernel/memory/page_directory.c:729-772 | with no idle table at the start, the round trip restores the exact set of table frames |
| `PagingLaws.RoundTripFrames` | kernel/memory/page_directory.c:729-772 | with the tables of the directory restored, every table frame and every free frame of the system is |
| `PagingLaws.MapThenUnmap` | kernel/memory/page_directory.c:361-783 | the two calls one after the other succeed exactly on a free range of a live directory when no frame is refused, and then restore translations and data; the counter comes back if and only if no large leaf suits in the range; for 4K requests from a directory without idle tables all table frames and all free frames come back |
| `Lean.LeanTablesIncluded` | kernel/memory/page_directory.c:729-772 | without idle tables the mapped pages determine the set of tables |
| `Lean.OnlyLean` | kernel/memory/page_directory.c:399-772 | an operation on one directory leaves no table of another idle |
| `Lean.LeanKept` | kernel/memory/page_directory.c:252-783 | an operation that keeps its own directory without idle tables keeps all directories so |
| `SaneSpaces.SaneDirectory` | kernel/memory/page_directory.c:1395-1609 | page maps of user pages, none large, none both copy-on-write and writable, counted right, are those of directories with 4K leaves that validate |
| `SaneSpaces.LayKeepsSane` | kernel/memory/page_directory.c:500-518 | 4K maps of free user pages to any frames keep all page maps so |
| `SaneSpaces.CopyKeepsSane` | kernel/memory/page_directory.c:252-301 | a copy-on-write copy keeps all page maps so, source and copy included |
| `SaneSpaces.MoveKeepsSane` | kernel/memory/page_directory.c:794-874 | so does a resolved fault |
| `TableSession.CarriedKeepsSane` | kernel/memory/page_directory.c:252-874 | so does every request a caller may make |
| `TableSession.HistoryKeepsSane` | kernel/memory/page_directory.c:252-874 | all page maps are so in every state of every run, whatever frames are mapped and shared |
| `TableSession.Perform` | kernel/memory/page_directory.c:116-874 | each request returns its error code exactly when it should and has exactly its effect on the page maps, counters and data; without a refused frame no directory gets an idle table |
| `TableSession.Session` | kernel/memory/page_directory.c:116-874 | the same along every run, state by state; at the end every directory has 4K leaves only and validates, and without refusals none has an idle table |
| `TableSession.RoundTripInHistory` | kernel/memory/page_directory.c:361-783 | anywhere in a run, a map request succeeds exactly on free pages when no frame is refused, and unmapping its range next restores all page maps, counters and data |
| `TableSession.RoundTripAfter` | kernel/memory/page_directory.c:361-783 | after any run from the start, mapping 4K pages and unmapping them succeeds exactly on free pages of a live directory when no frame is refused, and restores page maps, counters and data; if the run had no refusals, the free frames too |
| `PagingSession.Execute` | kernel/memory/page_directory.c:252-783 | every command on the page tables, range maps that stop part way included, is a run of the copy-on-write model; it does nothing when it names nothing that can be served, and otherwise is refused or cut short only at a mapped page or when the allocator refused; without refusals no directory gets an idle table |
| `PagingSession.Session` | kernel/memory/page_directory.c:252-904 | in every session, state by state, each command does what it stands for or is excused or refused a frame, and every load returns what it would return if each address space had a memory of its own and each copy had duplicated every page; every directory validates at the end; without refusals no directory has an idle table |
| `RingQueue.Ring.constructor` | kernel/ipc/message/message.c:90-160 | an empty queue with all slots free; capacity 0 means 64 |
| `RingQueue.Place` | kernel/ipc/message/message.c:434-455 | the place right after the last message of equal or higher priority |
| `RingQueue.Ring.FindPlace` | kernel/ipc/message/message.c:434-455 | walking back from the tail, across the wrap, finds that place |
| `RingQueue.Ring.ShiftUp` | kernel/ipc/message/message.c:468-476 | shifting from the tail opens one place and keeps all messages in order, across the wrap |
| `RingQueue.Ring.InsertByPriority` | kernel/ipc/message/message.c:424-486 | insertion right after the last message of equal or higher priority for HIGH and URGENT, at the end otherwise; refused exactly when full |
| `RingQueue.Ring.Send` | kernel/ipc/message/message.c:269-296 | with the urgent flag the message becomes the first; a message of priority 2 or 3 goes right behind the last of at least its priority; any other goes to the end; counters with it; refused exactly when full |
| `RingQueue.Ring.Receive` | kernel/ipc/message/message.c:330-353 | takes the first message and adjusts the counters; refused exactly when empty |
| `RingQueue.Ring.RemoveAt` | kernel/ipc/message/message.c:552-583 | removes one message from the middle, keeping the order of the others across the wrap |
| `RingQueue.Ring.Cleanup` | kernel/ipc/message/message.c:526-608 | terminates; afterwards no message queued was sent by the task or is addressed to it, and the messages kept are exactly the others, each once, in their old order; both semaphores show size and room if something was removed |
| `RingQueue.WithoutLeft` | kernel/ipc/message/message.c:552-583 | what is left is the messages neither sent by nor addressed to the task, at their positions in order |
| `RingLaws.WithoutIn` | kernel/ipc/message/message.c:552-583 | every other message keeps its multiplicity |
| `RingLaws.SendOrdered` | kernel/ipc/message/message.c:424-486 | a send keeps the queue in the order urgent, high, rest |
| `RingLaws.SendArrival` | kernel/ipc/message/message.c:434-465 | high messages, and likewise the rest, stay in order of arrival |
| `RingLaws.RunArranged` | kernel/ipc/message/message.c:269-353 | in every run of sends, receives and clean-ups the queue is the waiting messages: urgent, high in order of arrival, rest in order of arrival |
| `RingLaws.NextDelivered` | kernel/ipc/message/message.c:330-353 | in every run a receive delivers an urgent message if one waits, else a high one if one waits; among the high ones, and among the rest, the first to have arrived |
| `RingLaws.UrgentIsNext` | kernel/ipc/message/message.c:269-343 | a message sent with the urgent flag is the next one delivered, and the queue is then as it was |
| `RingLaws.RunExact` | kernel/ipc/message/message.c:269-343 | in every run of sends and receives both counters are exact and the capacity is kept |
| `RingLaws.SendExact` | kernel/ipc/message/message.c:269-286 | a send keeps the counters exact if and only if the urgent flag is not set on a message that is not urgent |
| `RingLaws.UrgentFlagMiscounts` | kernel/ipc/message/message.c:269-343 | a NORMAL message sent with the urgent flag stays counted as urgent after it is received |
| `RingLaws.FoundAgainstRemoved` | kernel/ipc/message/message.c:571-576 | how far the counter adjustment of a clean-up is off, for every queue |
| `RingLaws.CleanupExact` | kernel/ipc/message/message.c:552-583 | clean-up keeps the counters exact if and only if removed messages enter and leave stretches of a priority equally often |
| `RingLaws.CleanupMiscounts` | kernel/ipc/message/message.c:552-583 | a queue of two messages whose counter is wrong after clean-up |
| `RingLaws.SendStrict` | kernel/ipc/message/message.c:434-465 | a send keeps strict priority order if and only if the message is HIGH or URGENT or the last one queued has at least its priority |
| `RingLaws.LowBeforeNormal` | tests/kernel/ipc/message/test_message.c:305-332 | LOW then NORMAL is delivered LOW first |
| `RingProtocol.StepTokens` | kernel/ipc/message/message.c:254-302 | every step keeps both token sums |
| `RingProtocol.RunTokens` | kernel/ipc/message/message.c:254-361 | in every interleaving free, reserved, filled and unreturned slots add up to the capacity, and announced, claimed and unannounced messages to the size |
| `RingProtocol.NoSurprises` | kernel/ipc/message/message.c:280-283 | neither branch for a full queue after a reserved slot nor for an empty queue after a claim is ever taken; with nobody half way through, blocked or not, the semaphores show size and room |
| `RingProtocol.SweepTokens` | kernel/ipc/message/message.c:586-602 | clean-up keeps the token sums if and only if it removes nothing or nobody is half way through or blocked |
| `RingProtocol.SweepOvercommits` | kernel/ipc/message/message.c:586-602 | a full queue, a blocked sender and a clean-up: one free slot and two claims on it |
| `RingProtocol.RunOrder` | kernel/ipc/message/message.c:254-361 | in every interleaving the delivery order of the queue holds |
| `WaitQueue.Waiters.Add` | kernel/ipc.c:108-130 | appends one waiter, or nothing if no record could be allocated |
| `WaitQueue.Waiters.Remove` | kernel/ipc.c:135-162 | deletes the first entry for the task and no other; head, tail and count agree |
| `WaitQueue.Waiters.Wake` | kernel/ipc.c:167-195 | removes and unblocks the first n waiters, all if n is 0, in order |
| `WaitQueue.Waiters.CheckTimeouts` | kernel/ipc.c:200-237 | keeps exactly the waiters whose time is not up, in order, and unblocks exactly the others, in order; ticks may wrap |
| `WaitQueue.SelectPartitions` | kernel/ipc.c:200-237 | the sweep loses no waiter and sorts them by whether their time is up |
| `WaitQueue.NoLimitNoSweep` | kernel/ipc.c:209-211 | waiters without a time limit are never swept |
| `WaitQueue.ExpiredAfter` | kernel/ipc.c:209-211 | after a number of ticks, across the wrap, time is up exactly if there is a limit and it is at most that number |
| `Semaphores.Semaphore.constructor` | kernel/ipc.c:425-447 | the unsigned initial value as a signed one, nobody waiting |
| `Semaphores.Semaphore.Wait` | kernel/ipc.c:471-499 | takes a token if the value is positive, otherwise joins the queue |
| `Semaphores.Semaphore.TryWait` | kernel/ipc.c:504-522 | takes a token exactly when the value is positive |
| `Semaphores.Semaphore.Post` | kernel/ipc.c:527-551 | hands the token to the longest waiter, or raises the value; refused exactly at the maximum 2^31 - 1 |
| `Semaphores.RunConserves` | kernel/ipc.c:425-551 | in every run value plus grants equals initial value plus posts, nobody waits while the value is positive, hand-offs follow the order of arrival |
| `Semaphores.InitialGrants` | kernel/ipc.c:425-499 | from an initial value up to 2^31 - 1 exactly that many waits are granted before the first one queues; from a larger one, none |
| `Semaphores.SweepDoesNothing` | kernel/ipc.c:200-237 | the timeout sweep never changes a semaphore |
| `ListQueue.Turn` | kernel/message.c:255-279 | the earliest message among those of highest clamped priority |
| `ListQueue.TurnIsHead` | kernel/message.c:262-275 | the head of the highest list that is not empty is that message, and removing it leaves the other lists alone |
| `ListQueue.TurnIsDue` | kernel/message.c:214-217 | that message is due by the raw priority field, a priority above 3 counting as 1 |
| `ListQueue.Lists.constructor` | kernel/message.c:113-124 | four empty lists |
| `ListQueue.Lists.Enqueue` | kernel/message.c:212-250 | appends to the waiting messages in order of arrival; lists, tails and counters agree |
| `ListQueue.Lists.Dequeue` | kernel/message.c:255-299 | takes out the message due by its priority field: none waiting has a higher one, and none of the same arrived earlier, a priority above 3 counting as 1; nothing exactly when none waits; count equals sent less received equals total length |
| `ListProtocol.StepKeeps` | kernel/message.c:304-371 | every step keeps slots and tokens accounted for and the semaphore queues equal to the waiting tasks |
| `ListProtocol.RunInv` | kernel/message.c:304-371 | the same in every state of every interleaving |
| `ListProtocol.BoundedBuffer` | kernel/message.c:212-371 | in every interleaving the queue holds at most its capacity less the slots lost to failed allocations, a receiver with a token finds a message, no post is refused, nobody waits for what is there |
| `TaskQueues.Append` | kernel/scheduler.c:162-186 | walks to the end and links the task there, both ways |
| `TaskQueues.Unlink` | kernel/scheduler.c:191-215 | takes the task out of the middle or off either end; a task on no queue changes nothing |
| `Scheduler.Scheduler.AddReady` | kernel/scheduler.c:220-238 | the task goes to the end of the ready queue of its priority, of priority 2 if it is above 4; state, count and the order of readiness with it |
| `Scheduler.Scheduler.GetNext` | kernel/scheduler.c:243-262 | takes the task due by its priority field: no ready task has a higher one, and none of the same became ready earlier, a priority above 4 counting as 2; the idle task exactly when none is ready |
| `Scheduler.Highest` | kernel/scheduler.c:245-247 | the highest ready queue with a task on it |
| `Scheduler.LinedLess` | kernel/scheduler.c:225-262 | the first task of the highest ready queue is due by the raw priority field among all ready tasks, in the order in which they became ready |
| `Scheduler.Scheduler.ReadyAre` | kernel/scheduler.c:220-262 | the tasks in that order are exactly those whose state is ready, the idle task aside |
| `Scheduler.Scheduler.SwitchTo` | kernel/scheduler.c:436-504 | the task runs with a fresh time slice; one that was still running goes to the end of its ready queue |
| `Scheduler.Scheduler.ScheduleNext` | kernel/scheduler.c:509-520 | the task chosen so from all ready tasks runs and leaves the order of readiness |
| `Scheduler.Scheduler.Schedule` | kernel/scheduler.c:525-538 | never switches: nothing but the flag is written |
| `Scheduler.Scheduler.Sleep` | kernel/scheduler.c:561-590 | the running task joins the sleeping queue with its wake tick and the next task runs; every task stays in exactly one place; who runs is the ready task of highest priority that became ready first |
| `Scheduler.Scheduler.Block` | kernel/scheduler.c:618-644 | the running task joins the blocked queue and the next task runs; every task stays in exactly one place; who runs is the ready task of highest priority that became ready first |
| `Scheduler.Scheduler.Resume` | kernel/scheduler.c:595-667 | a sleeping (blocked) task moves to the end of its ready queue; any other call changes nothing |
| `Scheduler.Scheduler.CheckSleeping` | kernel/scheduler.c:672-691 | exactly the tasks whose tick has come move, in order, to the ends of their ready queues; the others keep their order; they join the order of readiness behind all others |
| `Scheduler.DueSplits` | kernel/scheduler.c:672-691 | the sweep loses nobody and splits the sleepers by their wake tick |
| `Scheduler.Scheduler.Tick` | kernel/scheduler.c:696-728 | one tick: the sweep at the new count, one tick charged to the running task, no switch |
| `Scheduler.Scheduler.Drive` | kernel/scheduler.c:509-728 | any sequence of calls keeps every task in exactly one place with states and counts matching, and once the idle task runs it runs for ever while ready tasks keep their places |
| `Scheduler.Scheduler.constructor` | kernel/scheduler.c:220-238 | one task running and the others ready in order is a well-formed start |

## Left out

- PagingSystem.PagingSystem.UnmapMemoryRange: starts at the first page of a leaf, because unmapping from the middle of a large page reads its contents as a table (lines 594-637); with `free_phys` the frames of the range that are not copy-on-write must be data frames mapped once in it, since freeing others returns memory the allocator never handed out.
- PagingSystem.PagingSystem.UnmapOne: the same for one leaf.
- PagingSystem.PagingSystem.MapMemoryRange: the range lies in the first 2^48 bytes; higher canonical addresses, whose indices are masked, are not modelled, and `vaddr + size` does not wrap.
- Translation.InstalledBytes: `get_physical_address` returns NULL both for an address that is not mapped and for physical address 0; the model tells them apart.
- PagingSystem.PagingSystem.SetPageFlags: the bits changed do not include the present and page-size bits; its only caller changes the writable and copy-on-write bits.
- PagingSystem.PagingSystem.CopyPageDirectory: directories of 4K pages only, because the copy loop advances by a page count where it should advance by bytes at large pages (lines 982 and 1049).
- PagingSystem.PagingSystem.CopyPageTables: directories of 4K pages only, for the same reason, and into a directory that maps nothing, as its only caller has it.
- PagingSystem.PagingSystem.MarkPagesCow: directories of 4K pages only, for the same reason.
- PagingSystem.PagingSystem.HandleCowPageFault: what memory other than data frames holds is not modelled, so a copy of such a frame has any contents.
- PagingSystem.PagingSystem.HandlePageFault: the same, and addresses below 2^48.
- PagingSystem.PagingSystem.LoadByte: in states of the run invariant, as the processor's access to a 4K page over a data frame.
- PagingSystem.PagingSystem.StoreByte: the same.
- PagingSystem.PagingSystem.ValidateTable: recursion over levels stands for four nested loops.
- PagingSystem.PagingSystem.Locate: a loop over levels stands for the walk written out level by level.
- TableSession.Session: requests a caller may make: maps of 4K pages in the user half, because PAGE_SIZE and kernel-half pages break validation as `Validation.MapValidates` and `Validation.CopyValidates` say exactly; frames to be freed are data frames mapped once in the range.
- TableSession.Perform: the same.
- TableSession.RoundTripAfter: restores the free frames after a run without refusals; a refused request leaves tables without pages behind, which a later unmap may free.
- PagingSession.Session: maps are of 4K user pages to data frames no directory maps, because a frame mapped twice without copy-on-write is no longer a memory of one's own; `TableSession.Session` has runs over any frames.
- PagingSession.Execute: the same.
- RingProtocol.SweepTokens: the semaphores of this queue are declared elsewhere; destroying one is taken to wake its waiters, who go on as if granted, as `destroy_semaphore` and `semaphore_wait` in kernel/ipc.c do.
- TaskQueues.Unlink: a task that is on another queue than the one given is not modelled.
- Scheduler.Scheduler.ScheduleNext: called once the running task is blocked or asleep, as `sleep_task` and `block_task` call it; the call in `schedule` is never reached, and termination is left out.
- Scheduler.Scheduler.Block: only for the running task; blocking a queued one goes through links of a queue it is not on.
- Semaphores.Semaphore.Wait: one step up to joining the queue. The original enables interrupts between joining and blocking, so a post in that window unblocks a task that is not blocked yet and then blocks with its token in hand; the token is accounted for, the task's progress is not. The caller goes on when it is unblocked; a wake-up by other means is not modelled.
- Entries are records of a frame number and flags; the packing into 64 bits, the no-execute bit and access rights of the user bit are not modelled.
- `total_user_pages`, which is updated from an entry already cleared, and all statistics and logs.
- TLB flushes, CR3, locks inside `page_directory.c` and the pointers passed as NULL; a missing directory is modelled.
- Contended mutexes: sections under a lock are single steps, because the lock's wake-up path does not test ownership again.
- 32-bit overflow of the message, waiter and task counts, which would need more objects than memory holds; the ring's priority counters do wrap.
- Creating and terminating tasks, the context switch and the start-up of the idle task, which leaves it both queued and running.
- `kernel/event.c`, shared memory, the physical frame allocator, the queue registry, interrupts, boot and drivers.
- Message payloads, replies, time limits of queue operations and their statistics.
