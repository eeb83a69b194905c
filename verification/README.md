# Guest memory, scanner, relaunch and corpus models

A Dafny model of Xenia's guest memory manager and of two small protocols and
one compiler beside it, with proofs of what each of them keeps.

- **Heaps** (`FreeBlocks`, `PageTable`, `BaseHeap`). A page table of regions,
  the tracker of maximal free runs that indexes it, and the host protection
  behind it. One invariant, `Sound`: the tracker is the one a rebuild gives, the
  count is right, reserved pages form whole regions, and no committed page has
  less access on the host than the guest asked for. Every operation keeps it,
  but that a fixed allocation that cuts through a region keeps only the tracker
  and the count (`Valid`). The search for a range is complete and finds the best
  one.
- **Physical aliases** (`PhysicalAlias`, `PhysicalHeap`). Views with different
  page sizes pin what a shared parent allocated, at an offset. `Coherent` says
  each alias region is one parent region of the same bytes and no two aliases
  share one.
- **Access watches** (`Bits`, `WatchWords`, `GuestAccess`, `Watches`,
  `DroppedReads`, `WatchOutcomes`, `GuestProtect`, `WatchedHeap`). One-shot
  watches in 64-bit words, armed in batches and fired with a window negotiated
  with callbacks. Each operation says what becomes of every page, which calls it
  makes of the callbacks, and what it adds to the history of requests, reports
  and agreements to unwatch. `Safe` says a watched page faults on a write and
  the pages watched for one are those requested and not settled since, so a
  write that lands was announced. `Opened` says an unwatched page the guest may
  write is writable, so a write it may make lands by its second try. `Serving`
  says the same of reads. The word loops are proved against one-page functions,
  and what those come to is stated without them.
- **User mode views** (`UserTable`, `UserPieces`, `UserMapping`, `UserStates`,
  `UserViews`). A software TLB over a page table the guest edits. `Ok` holds in
  every reachable state: each piece shows, allows and waits for what the words
  it was mapped from say, the reverse map from physical memory is exact, and the
  host's protection or the JIT's tables agree with every piece. `UpToDate` says
  the table still has those words, up to the changed bit. A flush establishes
  it, every step of the emulator keeps it, and only an edit of a shown piece's
  words can break it.
- **Directory scanner** (`Scanner`). Workers, sleeps, notifications and cancels
  as a state machine, with its critical sections as methods of a class.
- **Relaunch** (`Relaunch`). Numbered requests, a recursive lock and a flag, in
  the same form.
- **xamgen** (`XamgenFormat`, `XamgenRuns`, `XamgenExecutor`, `Xamgen`).
  Scenario steps, their compiled bytes, the executor that interprets them and
  the decoder of its results, with exports as an arbitrary function. What a run
  is, is stated apart, byte by byte, and proved to be what those do.

Host calls are writes to a field that holds the host's protection, and a
parameter that says whether the host refuses. Vectors and bitmaps are sequences
or sets in fields that methods reassign; the watch words keep their 64 bits.
Unsigned 32-bit arithmetic is written out where the code relies on it. Callbacks
are a function from the range they are told of to their answers.

Eight things the code does differently from what its own comments or callers
suggest are proved as they are, each with its condition and an input:

- Pinning rounds a size up to its alignment and the parent does not, so an
  allocation of a size that is no whole number of alignments leaves the aliases
  incoherent (`PhysicalHeaps.PinMatchesParent`,
  `PhysicalHeaps.PhysicalHeap.MisfitIsIncoherent`,
  `PhysicalHeaps.SixtyFourKBPinTakesTooMuch`).
- A guest Protect that is not aligned to guest pages can make a watched page
  writable unreported (`GuestProtects.WhenProtectIsSafe`,
  `GuestProtects.UnalignedProtectIsUnsafe`).
- So can a read-only Protect of a guest page smaller than a system page, beside
  a writable one (`GuestProtects.WhenProtectIsSafe`,
  `GuestProtects.SharedProtectIsUnsafe`).
- A writable Protect the heaps refuse unwatches pages without making them
  writable, and a write the guest may make then faults forever
  (`GuestProtects.WhenRefusedKeepsOpen`, `GuestProtects.RefusedProtectCloses`,
  `WatchOutcomes.FaultOpens`).
- A write that drops the read watch of a page the guest may only read leaves the
  page inaccessible on the host, and a read of it then faults forever
  (`WatchOutcomes.WhenWriteServes`, `WatchOutcomes.WriteStrandsReadOnly`,
  `WatchOutcomes.ReadFaultServes`).
- One 64 KB view can show memory no entry names at two pages of a skewed window
  (`UserMapping.RightExactlyWhereAlike`, `UserMapping.ScatteredIsHidden`).
- A failed relaunch can drop a request that comes after it
  (`Relaunch.WhenLastIsDropped`, `Relaunch.FailureDropsLast`).
- Decommitting no pages at the start of a heap decommits all of it
  (`BaseHeaps.WhatDecommitTakes`, `BaseHeaps.WrappedDecommitTakesAll`).

## Model

| member | source | states |
|---|---|---|
| FreeBlocks.IndexIsUnique | src/xenia/memory.cc:2453-2471 | Two trackers that agree with the same free flags are the same map, so an index kept up to date is the one a rebuild gives. |
| FreeBlocks.RunInsideOneBlock | src/xenia/memory.cc:2662-2814 | A run of free pages never spans two blocks of the tracker, which is what makes searching blocks complete. |
| FreeBlocks.BlocksApart | src/xenia/memory.cc:2505-2528 | Two blocks never touch: freed runs are always merged. |
| FreeBlocks.TotalIsFreeCount | src/xenia/memory.cc:2619-2649 | The lengths of the blocks add up to the number of free pages. |
| PageTable.RegionsDisjoint | src/xenia/memory.h:105-124 | Two regions of a page table are the same or share no page. |
| PageTable.RegionKeepsPartition | src/xenia/memory.cc:2619-2649 | Making a range of whole regions and free pages one region leaves every reserved page in the whole region it names. |
| PageTable.FreeKeepsPartition | src/xenia/memory.cc:2865-2925 | Freeing a region removes exactly that region and keeps every other. |
| PageTable.AlignRoundsUp | src/xenia/memory.cc:2668-2670 | Masking a 32-bit size gives the smallest multiple of the alignment that is no smaller, where that fits in 32 bits, and zero where it does not; a multiple stays as it is. |
| PageTable.PageCountIsZero | src/xenia/memory.cc:65-67 | A request counts no pages exactly when rounding its size up wraps around at 32 bits. |
| PageTable.PageCountCovers | src/xenia/memory.cc:65-67 | Where it does not, the pages counted hold the size and one fewer would not; no bytes count one page. |
| BaseHeaps.ScanFreeRuns | src/xenia/memory.cc:2453-2471 | One scan of the page table finds exactly its maximal free runs. |
| BaseHeaps.BaseHeap.constructor | src/xenia/memory.cc:2293-2311 | A new heap has one free block, the right count and nothing allocated. |
| BaseHeaps.BaseHeap.Reset | src/xenia/memory.cc:2530-2540 | Every page is free, and the tracker and the count say so. |
| BaseHeaps.BaseHeap.RemoveFreeBlock | src/xenia/memory.cc:2473-2503 | Splitting the holding block leaves exactly the maximal runs of what is still free. |
| BaseHeaps.BaseHeap.InsertFreeBlock | src/xenia/memory.cc:2505-2528 | Merging with both neighbours leaves exactly the maximal runs of what is now free. |
| BaseHeaps.BaseHeap.FindTopDown | src/xenia/memory.cc:2694-2733 | The highest aligned fit in the window cut at the last multiple of the stride in it, or no fit there exists at all. |
| BaseHeaps.BaseHeap.FindBottomUp | src/xenia/memory.cc:2734-2771 | The lowest aligned fit in the window, or no fit exists at all. |
| BaseHeaps.BaseHeap.AllocRange | src/xenia/memory.cc:2662-2814 | Takes the best fit of its request as one new region, says there is none only when nothing fits, changes nothing when it fails, and keeps the tracker, the count, the regions and host access sound. A top-down search ends at the last multiple of the stride in the window. The region is exactly the pages the asked bytes are in at the address, which is aligned as asked. |
| BaseHeaps.BaseHeap.WindowOverlaps | src/xenia/memory.cc:2672-2692 | The window of a request is every page but the last with a byte between its addresses, the low one aligned first. |
| BaseHeaps.TooBig | src/xenia/memory.cc:2681-2684 | A count larger than the window, even one whose ends are out of order, fits nowhere. |
| BaseHeaps.BaseHeap.AllocFixed | src/xenia/memory.cc:2564-2660 | Fails exactly on a range past the table, on a pure reservation that meets a page in use or on a host refusal, and a failure changes nothing. Else each page of the range is reserved, committed where asked, and protected; a commit of reserved pages leaves them in their regions, and everything else makes the range one region. |
| BaseHeaps.BaseHeap.FixedCovers | src/xenia/memory.cc:2564-2590 | Those pages hold the bytes asked for and end at the next multiple of the alignment. |
| BaseHeaps.BaseHeap.FixedStaysSound | src/xenia/memory.cc:2619-2649 | A fixed allocation that covers whole regions and free pages, or commits inside regions, keeps the heap sound. |
| BaseHeaps.BaseHeap.Decommit | src/xenia/memory.cc:2834-2863 | Only the commit state of pages goes, from the first page of the range to the last that 32-bit arithmetic gives, both cut to the table. |
| BaseHeaps.WhatDecommitTakes | src/xenia/memory.cc:2834-2863 | For a range inside the table those are exactly its pages, unless it is of no pages at page 0: that decommits the whole heap. |
| BaseHeaps.WrappedDecommitTakesAll | src/xenia/memory.cc:2834-2863 | So does decommitting 0xFFFFFFFF bytes at the start of a heap of 4 KB pages, whose rounding wraps to no pages. |
| BaseHeaps.BaseHeap.Release | src/xenia/memory.cc:2865-2925 | Succeeds exactly on a page its own entry names as base, except page 0 of a heap based at 0; then it frees exactly that region and reports its size, and a refusal changes nothing. |
| BaseHeaps.BaseHeap.Protect | src/xenia/memory.cc:3066-3132 | Succeeds exactly on committed pages of one region base that the host accepts, and sets exactly the pages that share a byte with its range, and their host pages. |
| BaseHeaps.BaseHeap.ApplyHostProtect | src/xenia/memory.cc:2927-3029 | Each touched host page gets the join of the accesses of all its guest pages, whichever of the exact and the shared path runs. |
| BaseHeaps.BaseHeap.MostPermissive | src/xenia/memory.cc:2992-3006 | The early-out scan computes the join of the accesses of a host page. |
| BaseHeaps.BaseHeap.CommitHostPages | src/xenia/memory.cc:3031-3064 | Committing sets each touched host page to the join of its guest pages. |
| BaseHeaps.HostAfterPermits | src/xenia/memory.cc:2927-3029 | After such a change every committed guest page, neighbours on shared host pages included, keeps at least its own access on the host. |
| BaseHeaps.HostAfterIsJoin | src/xenia/memory.cc:2927-3029 | A host page that holds no page of the range keeps its access; one that holds some permits what each guest page on it may do and is what one of them may. |
| BaseHeaps.HostPageBytes | src/xenia/memory.cc:2940-2966 | A guest page is on a host page exactly where its bytes are, for any shift of the heap in the host range. |
| PhysicalAlias.RegionsNeverOverlap | src/xenia/memory.cc:3347-3394 | In a coherent state, allocations made through different views share no byte of physical memory. |
| PhysicalAlias.FreeParentFreeAlias | src/xenia/memory.cc:3376-3390 | Pages the parent has free are free in every alias, so pinning never meets a reserved page. |
| PhysicalAlias.PinKeepsCoherent | src/xenia/memory.cc:3444-3490 | Allocating in the parent and pinning in one alias keeps every alias region one parent region of the same bytes. |
| PhysicalAlias.ReleaseKeepsCoherent | src/xenia/memory.cc:3515-3539 | Releasing from both heaps keeps that. |
| PhysicalAlias.EmptyIsCoherent | src/xenia/memory.cc:3315-3345 | Empty alias heaps are coherent with any partitioned parent. |
| PhysicalAlias.EmptyJoins | src/xenia/memory.cc:3315-3345 | One more empty alias is coherent with any that are. |
| PhysicalHeaps.PhysicalHeap.constructor | src/xenia/memory.cc:3315-3345 | A new alias over an empty table joins the coherent aliases of its parent, which establishes what every operation keeps. |
| PhysicalHeaps.PhysicalHeap.Alloc | src/xenia/memory.cc:3347-3394 | Takes the highest fit in the whole alias, pins it as one alias region and keeps all aliases coherent; a refusal leaves the alias alone and the parent as free as it was, but for a range at parent page 0. |
| PhysicalHeaps.PhysicalHeap.AllocRange | src/xenia/memory.cc:3444-3490 | The parent range taken is the best fit of the request, and lies between the addresses asked for; the pinning itself never fails, so an allocation is refused only for want of a fit or by the host. A refusal leaves the alias alone and the same parent pages free, except that a range at parent page 0 stays taken, as page 0 is never released. |
| PhysicalHeaps.PhysicalHeap.AddressIsInFile | src/xenia/memory.cc:395-456 | The physical address of a byte of an alias is the byte of the file behind guest memory that is mapped at its address, with the 4 KB skew at 0xE0000000. |
| PhysicalHeaps.PhysicalHeap.PinOrRelease | src/xenia/memory.cc:3376-3392 | Pins what the parent gave as one region, or gives exactly it back unless it is at page 0, with the aliases coherent either way. |
| PhysicalHeaps.PhysicalHeap.Release | src/xenia/memory.cc:3515-3539 | Frees one region in the alias and exactly its mirror in the parent, or nothing in either; it succeeds exactly from the first parent page of a region other than page 0. |
| PhysicalHeaps.PinMatchesParent | src/xenia/memory.cc:3376-3392 | Pinning takes as many bytes as the parent gave exactly when the rounded size is a multiple of the rounded alignment. |
| PhysicalHeaps.PinTakesTooMuch | src/xenia/memory.cc:3376-3392 | For any power of two page size, one page at an alignment of two is one page in the parent and two in the alias. |
| PhysicalHeaps.SixtyFourKBPinTakesTooMuch | src/xenia/memory.cc:3376-3392 | Such a request with 64 KB pages. |
| PhysicalHeaps.UnequalPinIsIncoherent | src/xenia/memory.cc:3376-3392 | Where the counts differ the alias has a region that is none of the parent, so the aliases are not coherent. |
| PhysicalHeaps.PhysicalHeap.MisfitIsIncoherent | src/xenia/memory.cc:3347-3394 | So every allocation that succeeds with a size that is no whole number of alignments, once both are in pages, leaves the aliases incoherent. |
| PhysicalHeaps.ForeignReleaseIsIncoherent | src/xenia/memory.cc:3515-3524 | Nor are they once the parent releases a region another alias pinned. |
| PhysicalHeaps.AnyAliasNext | src/xenia/memory.cc:3444-3490 | Whichever alias acts next, the state is coherent from its side. |
| WatchWords.AnyFlag | src/xenia/memory.cc:3936-3951 | The word loop finds a watched page in a range exactly when there is one. |
| WatchWords.ClearFlags | src/xenia/memory.cc:4129-4141 | The masked word loop clears exactly the flags of a range and leaves every other bit. |
| WatchWords.AllFlags | src/xenia/memory.cc:3641-3654 | A whole word is skipped exactly where each of its selected pages is flagged. |
| GuestAccess.MostPermissive | src/xenia/memory.h:234-258 | The most permissive access of the pages that count: it permits each of them and is one of theirs. |
| Watches.Negotiate | src/xenia/memory.cc:3981-4002 | Where the answers contain the request, the narrowed range is exactly what every callback can do without. |
| Watches.UnwatchWindow | src/xenia/memory.cc:3981-4025 | The pages unwatched cover the request, stay inside the bitmap, and are exactly those touched by the intersection of the answers, the 4 MB blocks of the request and the heap. |
| Watches.UnwatchedIsNear | src/xenia/memory.cc:4003-4025 | Those blocks are the ones from that of the first byte of the request to that of its last. |
| Watches.AnswerIsRange | src/xenia/memory.cc:3981-4002 | An answer is the bytes of its start and length, one where it has none, cut to 32 bits. |
| Watches.ReportCovers | src/xenia/memory.cc:3971-3980 | The range callbacks are told of is exactly the bytes the system pages of the request show, cut to the heap. |
| Watches.RegisteredAnswerAround | src/xenia/memory.cc:3981-4002 | A list of registered callbacks answers around every range it is told of exactly when each callback does, and one that answers with the range itself does. |
| Watches.WhenReachIsReported | src/xenia/memory.cc:3541-3563 | A guest protection change sets only system pages it reported exactly when its range touches every system page of its guest pages. |
| Watches.UnalignedReachesUnreported | src/xenia/memory.cc:3541-3563 | 4 KB at the second 4 KB of a 64 KB guest page sets sixteen system pages and reports one. |
| GuestProtects.WhenProtectIsSafe | src/xenia/memory.cc:3541-3563 | An accepted Protect keeps a watched page faulting and exactly the pages owed a report watched, in every such state, exactly when one of two holds: guest pages are whole system pages, and it lets the guest write nothing or touches every system page of its guest pages; or they are smaller, and it is writable or shares no system page with a writable page outside it. |
| GuestProtects.SharedProtectIsUnsafe | src/xenia/memory.cc:2968-3015 | A read-only Protect of a 4 KB page beside a writable one, with 16 KB system pages, opens a watched page unreported. |
| GuestProtects.HostSetIsApplied | src/xenia/memory.cc:2968-3015 | What a Protect sets on system pages that guest pages share is what the heap sets for it: the join of their guest pages. |
| GuestProtects.WhenRefusedKeepsOpen | src/xenia/memory.cc:3541-3563 | A Protect the heaps refuse keeps unwatched pages the guest may write writable on the host exactly when it unwatches none of them. |
| GuestProtects.RefusedProtectCloses | src/xenia/memory.cc:3541-3562 | A view of one watched page, which a refused writable Protect leaves unwatched and read-only. |
| GuestProtects.AcceptedKeepsOpen | src/xenia/memory.cc:3541-3563 | An accepted one does where the guest may write afterwards only what the host was given, or what it could write before. |
| GuestProtects.AcceptedServes | src/xenia/memory.cc:3541-3563 | It keeps reads served where the guest may do with each page it sets what the host is given, and elsewhere what it could before. |
| GuestProtects.AllocatedServes | src/xenia/memory.cc:3347-3394 | So does an allocation that commits. |
| GuestProtects.GuestIsHost | src/xenia/memory.h:415-470 | Which holds of guest pages in use that are whole system pages: the guest may access each of their system pages as the host lets it. |
| GuestProtects.SmallGuestIsHost | src/xenia/memory.h:415-470 | So it does of smaller ones, where all that share the system page are in use: both resolve it the same way. |
| GuestProtects.FreeIsParents | src/xenia/memory.h:455-466 | Where pages of the view over a system page are free and none in use is writable, the guest may do what the most permissive of the committed pages of the parent over the same bytes may, unless that is nothing and some are in use. |
| GuestProtects.TableAfterShares | src/xenia/memory.cc:3117-3129 | An accepted Protect changes exactly the guest pages that have bytes of its range. |
| GuestProtects.UnalignedProtectIsUnsafe | src/xenia/memory.cc:3541-3563 | A read-write Protect of 4 KB at the second 4 KB of a 64 KB guest page opens a watched page unreported. |
| WatchOutcomes.OwedIsUnsettled | src/xenia/memory.cc:3827-4144 | The pages owed a report after a history are exactly those armed with no report and no agreement to unwatch them since. |
| WatchOutcomes.NoticeShows | src/xenia/memory.cc:4055-4072 | The bytes read callbacks are told of are exactly those the dropped pages show. |
| WatchOutcomes.CallsTell | src/xenia/memory.cc:3965-4087 | A write tells invalidation callbacks of exactly the heap bytes its system pages show. It tells read callbacks of those from the first to the last page whose read watch it drops: as discarded where the request discards all of the page, and as written elsewhere. |
| WatchOutcomes.ReadTells | src/xenia/memory.cc:3881-3900 | A read that finds a read watch tells read callbacks of exactly the heap bytes its system pages show, and no one anything else; one that finds none tells no one. |
| WatchOutcomes.FaultOpens | src/xenia/memory.cc:3936-3963 | A fault on a page the guest may write makes it writable where there is a watch to settle; where there is none it is reported handled and changes nothing, so that the write faults forever. With every unwatched page the guest may write writable there always is one. A fault is handled exactly where there is a watch or the guest may write. |
| WatchOutcomes.ReadFaultServes | src/xenia/memory.cc:3857-3934 | The same of reads: a fault on a page the guest may access makes it readable where it is read watched, and where it is not changes nothing. While every such page without a read watch is readable there always is one. |
| WatchOutcomes.ServesIsOpen | src/xenia/memory.cc:3627-4144 | A view whose reads are served lets the guest write what is unwatched, too. |
| WatchOutcomes.WhenWriteServes | src/xenia/memory.cc:4089-4141 | A write trigger keeps that, and no page more than the guest has and unwatched ones at what it has, exactly when it drops no watch of a page the guest may only read and that watch keeps from the host. |
| WatchOutcomes.WriteStrandsReadOnly | src/xenia/memory.cc:4089-4141 | A read-watched page the guest may only read, on which a write trigger leaves no watch and no host access: a read of it then faults forever. |
| Watches.WindowIsAgreed | src/xenia/memory.cc:3981-4025 | Where every answer starts and ends between system pages, the callbacks agreed to unwatch every heap byte the pages of the window show. |
| WatchedHeaps.WatchedHeap.constructor | src/xenia/memory.cc:3315-3345 | A new view watches nothing, owes nothing, has told nothing and is safe, whatever host access it starts with. |
| Watches.WhenWholeGuestPages | src/xenia/memory.cc:3541-3563 | It touches them all exactly when it starts in the first and ends in the last system page of its guest pages, which a guest page aligned range does. |
| WatchedHeaps.WatchedHeap.EnableAccessCallbacksInner | src/xenia/memory.cc:3627-3753 | Whole-word skipping and coalesced Protect calls leave every page of the range the guest may write write watched, where that is asked, and every one it may access read watched. No watch goes, no other page gets one, a page newly read watched is inaccessible on the host, one newly write watched alone is read-only and any other keeps its access. The history has the request, with every page of it the guest may write. |
| WatchedHeaps.WatchedHeap.ArmPages | src/xenia/memory.cc:3627-3753 | The loop itself, with the same effect on each page. |
| WatchedHeaps.WatchedHeap.EnableAccessCallbacks | src/xenia/memory.cc:3572-3625 | Arms exactly the system pages showing the physical range, cut to the view, with that effect on each, and records the request; a range outside arms nothing. |
| WatchedHeaps.WatchedHeap.UnprotectPages | src/xenia/memory.cc:4089-4127 | The run-coalescing loop opens exactly the watched pages the guest may write. |
| WatchedHeaps.WatchedHeap.TriggerWrite | src/xenia/memory.cc:3936-4144 | Every call made of the invalidation callbacks and of the read callbacks whose watches it drops, the pages unwatched and those of them opened, every page before and after, and which pages are owed a report since; exactly the pages armed and not settled are still watched. With nothing watched and no need to tell, nothing changes. Reads stay served exactly where it strands no page. |
| WatchedHeaps.WatchedHeap.TriggerRead | src/xenia/memory.cc:3857-3934 | Tells read callbacks of the bytes of its pages exactly where one is read watched. Those watches go and no other, and with protection lifted each of their pages the guest may access is read-only where a write watch stays and as the guest has it elsewhere, so that reads stay served. Otherwise nothing changes. |
| DroppedReads.NotifyDropped | src/xenia/memory.cc:4027-4087 | Every page from the first read watch a write drops to the last is told of exactly once and in order, one call for each run, as discarded exactly where the request discards all of it, and nothing is told where none is dropped. |
| DroppedReads.FindDiscarded | src/xenia/memory.cc:4040-4053 | The pages discarded are exactly those wholly inside the range named. |
| WatchedHeaps.WatchedHeap.TriggerCallbacks | src/xenia/memory.cc:3827-4144 | A trigger cut to the heap does exactly what its read or write half does to the part inside, and nothing outside; it keeps a watched page unwritable and a page owed a report watched, and with protection lifted keeps writes let through and, but for pages it strands, reads. |
| WatchedHeaps.WatchedHeap.Allocate | src/xenia/memory.cc:3347-3394 | An allocation reports its range as discarded, watched or not, leaves each of its system pages unwatched with the access it was given, or where guest pages share one what the most permissive of them needs, and touches no other page, watch or report owed. A reservation gives no host access. |
| WatchedHeaps.WatchedHeap.ReleaseOrDecommit | src/xenia/memory.cc:3499-3539 | Release and Decommit report and unwatch exactly the pages of their range, by the access they had in the view, and touch no other. |
| WatchedHeaps.WatchedHeap.GuestProtect | src/xenia/memory.cc:3541-3563 | A change that lets the guest write reports and unwatches exactly its range, whichever of the two heaps accepts it; one both accept then sets exactly the host pages of its guest pages, shared ones to what their guest pages need. The view stays safe under the exact condition proved beside it. |
| WatchedHeaps.WatchedHeap.Write | src/xenia/memory.cc:3936-4144 | A write lands exactly on a host-writable page, and then every request to watch that page in the whole history was followed by a report to every callback or their agreement to unwatch; one that faults has exactly the effect of its trigger, and where the guest may write and unwatched pages are open the next try lands. Reads stay served exactly where it strands no page. |
| WatchedHeaps.WatchedHeap.Read | src/xenia/memory.cc:3857-3934 | A read lands exactly on a host-accessible page and changes nothing then; one that faults has exactly the effect of its trigger, and where the guest may access the page and reads are served the next try lands. |
| UserTable.Locate | src/xenia/memory.cc:1187-1247 | An address has an entry exactly where the translation gets as far as one, and it is inside the descriptor or a table page in physical memory. |
| UserTable.TableIsArray | src/xenia/memory.cc:1196-1247 | A table page is an array of the entries of 8 MB or 128 MB of addresses in order, and the descriptor of those of 16 MB pages. |
| UserTable.WhenMapped | src/xenia/memory.cc:1187-1279 | An address is mapped exactly where its entry is not zero and there is memory for what it names: the kernel's, or all the physical memory one view of it would show. |
| UserTable.FrameAndOffset | src/xenia/memory.cc:1248-1262 | An entry with a frame names the address's bytes of the page in that frame. |
| UserTable.FramesShow | src/xenia/memory.cc:1248-1279 | Physical frames show what the kernel's aliases of physical memory do, and an entry of a virtual heap without a frame shows what its own address does. |
| UserTable.KeyDetermines | src/xenia/memory.cc:2065-2091 | For a fixed allocation state the key of a piece determines the address, protection and changed bits its translation gives, for each page size. |
| UserTable.KeyIsNotSentinel | src/xenia/memory.cc:2065-2091 | The sentinel is no key. |
| UserTable.AgreeingKeys | src/xenia/memory.cc:2118-2125 | A key the flush takes for unchanged names the same address and protection, and has the changed bit unless the older one waited for it. |
| UserTable.ChangedKeepsKey | src/xenia/memory.cc:1924-1928 | Setting the changed bit changes nothing else a key says. |
| UserTable.KeyWithChanged | src/xenia/memory.cc:1924-1928 | Setting an entry's changed bit sets it in the keys of exactly the pieces the entry maps. |
| UserMapping.PageBlockIsContiguous | src/xenia/memory.cc:1281-1307 | True exactly when all sixteen entries are mapped, consecutive and alike in access. |
| UserMapping.WholeViewRefinesPieces | src/xenia/memory.cc:1309-1449 | One 64 KB view shows and allows for each of its pieces what that piece's own entry would, for each page size and with the skew, where the page starts in a segment like that of the fault. Only kernel frames can leave a piece with no entry of its own. |
| UserMapping.FallbackIsKernel | src/xenia/memory.cc:1479-1524 | What a piece shows with no entry is what the kernel has at the same address, with and without the skew, or for user mode's aliases of physical memory that memory. |
| UserMapping.WithoutSkewStartsAlike | src/xenia/memory.cc:1329-1345 | That holds of every page but the two at 0xE0000000 and 0xF0000000 of a skewed window. |
| UserMapping.RightExactlyWhereAlike | src/xenia/memory.cc:1339-1345 | For given segment kinds, one view is right whatever the entries are exactly where the page starts in a segment like that of the fault. |
| UserMapping.ScatteredIsHidden | src/xenia/memory.cc:1339-1345 | Everywhere else there are entries for which the contiguity check is skipped and one view shows a piece other memory than its entry names. |
| UserPieces.ErasedElements | src/xenia/memory.cc:2040-2048 | Erasing a piece from a block list removes it and nothing else. |
| UserPieces.TrackKeepsInverse | src/xenia/memory.cc:1639-1655 | A piece that starts to show a page is added to the reverse map, which stays the exact inverse without duplicates. |
| UserPieces.UntrackKeepsInverse | src/xenia/memory.cc:2040-2048 | A piece that stops showing one is removed from it. |
| UserPieces.ShownBy | src/xenia/memory.h:988-996 | Iterating a block and filtering by page meets every piece that shows the page and no other. |
| UserPieces.TlbIndexInjective | src/xenia/memory.cc:1752-1762 | No two pieces share a table entry, with the skew. |
| UserPieces.TlbReaches | src/xenia/memory.cc:1747-1784 | Adding a table entry to a guest address reaches the byte the piece shows where the access is allowed, and the window elsewhere. |
| UserStates.CurrentPieceMatchesTable | src/xenia/memory.cc:2093-2146 | A piece whose key is current shows and allows exactly what the table says now, up to the changed bit; with no entry it shows the kernel address space. |
| UserStates.LandedWritesAreRecorded | src/xenia/memory.cc:1930-2021 | Between a flush and the next edit of a shown entry, a user write that lands is to no watched page, and where its entry lets user mode write the changed bit is set and the memory written is the entry's. |
| UserStates.WhenAccessesLand | src/xenia/memory.cc:1657-1682 | In such a state a read of a piece shown with nothing waived lands exactly where the protection bits of its entry are not 00, and a write exactly where they are 10, no first write is awaited and the memory is not watched. |
| UserStates.WatchesKeepReads | src/xenia/memory.cc:1669-1682 | Reads of a piece do not depend on what is watched. |
| UserStates.ResolvedPieceOk | src/xenia/memory.cc:1526-1584 | A piece mapped alone is recorded as its key says. |
| UserStates.WholePieceOk | src/xenia/memory.cc:1409-1446 | So is each piece of a whole view, from its own key. |
| UserStates.ChangedKeepsCurrent | src/xenia/memory.cc:1947-2021 | Setting the changed bit of an entry keeps every piece current, those unlocked and those of other views. |
| UserStates.MarkedIsClean | src/xenia/memory.cc:1947-2021 | A waiting piece that is current has an entry to set the bit in, so the first write through an entry keeps everything current. |
| UserStates.FiringUnlocksItsPieces | src/xenia/memory.cc:1903-1922 | Firing a watch gives each piece showing the page its entry's access, short of a changed bit still awaited, and no other piece anything. |
| UserStates.PagesOfBytes | src/xenia/memory.cc:1882-1901 | The pages watched for a range are those its bytes of physical memory are in. |
| UserStates.MappingKeepsClean | src/xenia/memory.cc:1309-1449 | Mapping keeps everything current. |
| UserStates.FlushedIsClean | src/xenia/memory.cc:2093-2146 | What survives a flush is current, and no waived piece survives. |
| UserStates.WhenPageChanged | src/xenia/memory.cc:2108-2134 | A page is dropped exactly where a piece it shows has other words now than it was mapped from, but for a changed bit set since. |
| UserViews.UserViews.constructor | src/xenia/memory.cc:2148-2210 | The views start empty, with every page watched and the tables at the window. |
| UserViews.UserViews.UpdateUserTlb | src/xenia/memory.cc:1747-1784 | Every entry of the run agrees with its piece afterwards, and no other entry changes. |
| UserViews.UserViews.ProtectUserPieces | src/xenia/memory.cc:1684-1704 | One call for each run alike leaves every piece of the range with exactly its own access. |
| UserViews.UserViews.ProtectPiecesShowing | src/xenia/memory.cc:1706-1714 | Every piece that shows a page has its access afterwards. |
| UserViews.UserViews.WatchUserWrites | src/xenia/memory.cc:1882-1901 | Exactly the pages the byte range overlaps become watched, no piece that shows one is writable, and every piece can be read that could. |
| UserViews.UserViews.TriggerUserWriteWatch | src/xenia/memory.cc:1903-1922 | Reports the page a piece shows exactly when it was watched, and stops watching it. |
| UserViews.UserViews.TrackUserPieces | src/xenia/memory.cc:1639-1655 | The pieces of a run show the physical pages of their file pages, and the reverse map stays exact. |
| UserViews.UserViews.MapUserPiece | src/xenia/memory.cc:1526-1584 | A piece already shown stays as it is; otherwise it shows its entry, or the kernel address space where asked, exactly when one resolves and the host grants it. From an entry it allows nothing exactly where its protection bits are 00 and writes exactly where they are 10. |
| UserViews.UserViews.SplitUserPage | src/xenia/memory.cc:1451-1477 | Shows exactly the pieces of the page that resolve to an entry, each as it would be alone. |
| UserViews.UserViews.ChooseView | src/xenia/memory.cc:1329-1356 | The choice between one view, a view a piece and none. |
| UserViews.UserViews.PageHasEntry | src/xenia/memory.cc:1362-1379 | Whether the table has an entry for any piece of the page. |
| UserViews.UserViews.MapUserPage | src/xenia/memory.cc:1309-1449 | Nothing shown changes, what starts to show is what the table says now, with the access the protection bits of its own entry give, kernel memory is shown only where asked or by a kernel frame, and no entry of the page is hidden. With the host's consent it fails only for a piece with no entry and no fallback asked. |
| UserViews.UserViews.MarkUserPieceChanged | src/xenia/memory.cc:1947-2021 | Sets the bit in the entry of a waiting piece and unlocks exactly the waiting pieces of the page that entry maps, so that none of them waits any more; everything current stays so. |
| UserViews.UserViews.AllowAccess | src/xenia/memory.cc:935-963 | Waives a forbidden access for one piece, to be dropped at the next flush. |
| UserViews.UserViews.UserAccessViolation | src/xenia/memory.cc:927-1030 | A fault that is handled leaves its piece shown and, for a write, neither waiting nor watched, or changes nothing where the guest takes it; on 4 KB hosts the access to a shown piece then lands, short of a watch to fire. A piece it starts to show allows what the bits of its entry do. Pages stop being watched only when reported; the only change to the table is the changed bit of the entry of that piece, by a write, and certain where the piece waited for it. |
| UserViews.UserViews.ReleaseUserPage | src/xenia/memory.cc:2023-2051 | Forgets what the pieces of one page showed, in the reverse map, the host and the tables too, and nothing else. |
| UserViews.UserViews.FlushUserPageTable | src/xenia/memory.cc:2053-2063 | Nothing stays mapped and every watch stays. |
| UserViews.UserViews.HasChanged | src/xenia/memory.cc:2107-2126 | Whether some shown piece of a page was mapped from other words than the table has now. |
| UserViews.UserViews.FlushChangedUserPages | src/xenia/memory.cc:2093-2146 | Keeps exactly the pages each of whose shown pieces has the words it was mapped from, but for a changed bit set since, keeps them as they are, and leaves everything current. |
| UserViews.UserViews.EditTable | src/xenia/memory.cc:1187-1279 | Whatever the guest writes into its table, each piece goes on showing what it was mapped from; edits that leave the words of shown pieces alone leave everything current. |
| Scanner.StepHolds | src/xenia/app/directory_scanner.cc:289-344 | Every step of any worker or canceller keeps the queue invariant. |
| Scanner.ScanIsComplete | src/xenia/app/directory_scanner.cc:289-327 | In every run of any number of workers, one that leaves uncancelled leaves with the queue empty, nothing in flight and every directory the scan leads to taken exactly once, each that a path leads to among them; taken and queued directories never exceed those. |
| Scanner.ReachedByPath | src/xenia/app/directory_scanner.cc:289-327 | The scan leads to exactly the directories that a path does, through directories whose scan does not stop short. |
| Scanner.NeverAllAsleep | src/xenia/app/directory_scanner.cc:289-344 | No reachable state has all remaining workers asleep. |
| Scanner.AwakeCanStep | src/xenia/app/directory_scanner.cc:289-344 | A worker that is awake has a step, or whoever holds the lock does. |
| Scanner.DirectoryScanner.constructor | src/xenia/app/directory_scanner.cc:261-273 | The scan starts with the root queued and every worker ready. |
| Scanner.DirectoryScanner.TakeTurn | src/xenia/app/directory_scanner.cc:289-309 | Takes the oldest directory, leaves when cancelled or when all is done, or waits. |
| Scanner.DirectoryScanner.EnqueueSubdirs | src/xenia/app/directory_scanner.cc:332-344 | All that a scan found goes to the back of the queue in order. |
| Scanner.DirectoryScanner.Finish | src/xenia/app/directory_scanner.cc:320-327 | The last scan to end with nothing queued wakes the sleepers. |
| Scanner.DirectoryScanner.RequestCancel | src/xenia/app/directory_scanner.cc:210-214 | The flag goes up before the lock is taken. |
| Scanner.DirectoryScanner.NotifyCancel | src/xenia/app/directory_scanner.cc:210-214 | Every sleeper is woken under the lock. |
| Relaunch.StepHolds | src/xenia/emulator.cc:1766-1884 | Every step of any request keeps the protocol invariant. |
| Relaunch.SkippedIsReplaced | src/xenia/emulator.cc:1770-1776 | A relaunch is skipped only for a request with a higher number. |
| Relaunch.QuietIsNotRelaunching | src/xenia/emulator.cc:1823-1830 | Whenever every request is over the flag is down and the lock free, although a failure that a newer request replaced leaves it up. |
| Relaunch.FlagHasOwner | src/xenia/emulator.cc:1823-1830 | While the flag is up, a request that will take it down has the lock or waits for it with the newest number. |
| Relaunch.TearsDownWithFlag | src/xenia/emulator.cc:1823-1830 | No request tears a title down with the flag down. |
| Relaunch.WhenLastIsDropped | src/xenia/emulator.cc:1766-1830 | In every run, the last relaunch asked for never runs if it came while a failed one was between its look at the counter and its reset, and is never skipped if it did not: once over, it was skipped exactly in the first case. |
| Relaunch.FailureDropsLast | src/xenia/emulator.cc:1825-1829 | A run in which that happens. |
| Relaunch.Emulator.TakeNumber | src/xenia/emulator.cc:1770-1771 | A request gets a number above every earlier one before it has the lock. |
| Relaunch.Emulator.StartRelaunch | src/xenia/emulator.cc:1771-1784 | It starts, raising the flag, exactly when it is still the newest. |
| Relaunch.Emulator.FinishRelaunch | src/xenia/emulator.cc:1877-1877 | A relaunch that worked takes the flag down. |
| Relaunch.Emulator.FailRelaunch | src/xenia/emulator.cc:1825-1830 | A failure resets and reports exactly when it is the newest; otherwise the newest request is waiting. |
| Relaunch.Emulator.Reset | src/xenia/emulator.cc:1881-1933 | A reset takes the flag down when it ends. |
| XamgenFormat.WaitCountTells | tools/xamgen/xamgen.py:239-271 | The recorded count tells after how many sleeps the word stopped pending, the last one included, and is zero exactly where it did not. |
| XamgenExecutor.ApplyPatches | tools/xamgen/xamgen.py:160-186 | Reads exactly the patches of a record and overlays them on the arena in order. |
| XamgenExecutor.LoadArgs | tools/xamgen/xamgen.py:188-230 | Gives the sixteen slots what the step's arguments mean, with zeros after them. |
| XamgenExecutor.WaitFor | tools/xamgen/xamgen.py:239-271 | The polling loop. |
| XamgenExecutor.CaptureRanges | tools/xamgen/xamgen.py:273-299 | Adds each captured range to the results, padded to eight. |
| XamgenExecutor.StoreVariables | tools/xamgen/xamgen.py:301-333 | Stores r3, a word or a doubleword in each variable in order. |
| XamgenExecutor.ExecuteStep | tools/xamgen/xamgen.py:149-335 | Consumes exactly one record and does to the machine and the results what the step does when run directly. |
| XamgenExecutor.Execute | tools/xamgen/xamgen.py:133-342 | Interpreting a compiled blob consumes it exactly and leaves the machine and the results file that running the steps directly gives, whatever the exports do. |
| Xamgen.FindThunk | tools/xamgen/xamgen.py:648-651 | Each export has one thunk, found again by later steps. |
| Xamgen.EmitStep | tools/xamgen/xamgen.py:652-687 | The bytes of one record. |
| Xamgen.CompileSection | tools/xamgen/xamgen.py:629-698 | A scenario's steps in order, the first that runs writing the image before its own patches, those that fault described and not compiled. The bytes a call sees by it are stated in Xamgen.PlanRuns. |
| Xamgen.CompileCorpus | tools/xamgen/xamgen.py:629-698 | Compiles exactly when every export is known, to the records of the steps that run, their results size and a description of each step. What running those steps means is stated in Xamgen.PlanRuns. |
| Xamgen.PlanRuns | tools/xamgen/xamgen.py:629-698 | Running the compiled steps is running the corpus: at the first call of a scenario each byte of the arena is that of the last of the step's patches over it, else of the image, else what it was, at later calls the same without an image; each call gets its arguments, each variable the last value stored in it, and each report what its step gave. |
| Xamgen.RunSize | tools/xamgen/xamgen.py:689-690 | A run writes exactly the results size. |
| Xamgen.DecodeCaptures | tools/xamgen/xamgen.py:787-792 | The captured ranges of a step by name. |
| Xamgen.RangeIsDecoded | tools/xamgen/xamgen.py:787-792 | A captured range is decoded unless a later one of its step has its name. |
| Xamgen.SharedNameIsLost | tools/xamgen/xamgen.py:787-792 | Where a later one has, the earlier is lost. |
| Xamgen.Decode | tools/xamgen/xamgen.py:761-798 | From the results of a run, every r3, wait count and named range of every described step; of any other data, nothing unless the header fits the build. |
| Xamgen.RunCorpus | tools/xamgen/xamgen.py:629-798 | Compiling, executing and decoding a corpus of known exports does and reports what running it does, by those laws of the bytes each call sees, the slots it gets and the variables and ranges it leaves, and with no plan or record in them. |
| XamgenRuns.CorpusRunsOnce | tools/xamgen/xamgen.py:629-798 | Those laws leave nothing open: a corpus has at most one final machine and one list of reports by them. |
| Xamgen.Scenario.Alloc | tools/xamgen/xamgen.py:530-544 | Ranges are aligned to eight, after all laid out before, and hold their data and then the fill; with no room nothing changes. |
| Xamgen.Scenario.Write | tools/xamgen/xamgen.py:550-560 | Data is written only inside its range, before the next call that runs. |
| Xamgen.Scenario.Call | tools/xamgen/xamgen.py:574-589 | A step takes what is pending, and leaves it for the next where it faults. |

## Left out

- UserMapping.WholeViewRefinesPieces: only where the page starts in a segment like that of the fault, which is every page but two of a skewed window; UserMapping.RightExactlyWhereAlike proves that to be the exact condition. The piece at window offset 0xE0000000 of a skewed window has no guest address and is exempt.
- UserViews.UserViews.MapUserPage: faults at a piece the guest can name, in a page of that kind.
- UserViews.UserViews.SplitUserPage: the reservation for a split page is taken to be granted.
- UserStates.LandedWritesAreRecorded: the memory behind frames is held fixed, as keys do not cover it (src/xenia/memory.cc:2098); guest edits fall between steps, and the descriptor lies apart from the table pages.
- UserViews.UserViews.UserAccessViolation: whether the guest's fault hook takes a forbidden access is a parameter, it is not asked to fill in a missing entry, and whether the host can run an access past its window is a parameter.
- UserStates.WhenAccessesLand: where the tables of the JIT decide, an entry past the window is taken to be another than one into it; UserStates.ApartBypasses gives that from the window and the alias of the file being different memory of the host.
- Views of host pages larger than a piece (src/xenia/memory.cc:1586-1623, 1716-1745): on such hosts the model has the tables of the JIT and each piece's access, not the protection of the host page.
- A thread using a table entry just before it changes, which src/xenia/memory.h:1114 marks as open.
- WatchedHeaps.WatchedHeap.TriggerRead: keeps the safety of write watches. A guest Protect to read-only does not touch a read watch, so read watches are not claimed to survive it.
- WatchedHeaps.WatchedHeap.Opened: kept by arming and by triggers that lift protection, and by a Protect as proved; allocation and release change what the guest may access and are not claimed to keep it.
- WatchedHeaps.WatchedHeap.Serving: kept by arming and read triggers, by write triggers exactly as proved, and by a Protect and an allocation as proved; release changes what the guest may access and is not claimed to keep it.
- WatchedHeaps.WatchedHeap.GuestProtect: guest pages that tile system pages or are whole ones, as heap initialisation asserts; the new table of the parent is given.
- WatchedHeaps.WatchedHeap.Write: callbacks answer with a range around what they are told of, as they are documented to.
- Backing of memory after a fault on a page nothing is allocated at, and of read-watched pages (src/xenia/memory.cc:876-905, 3755-3825).
- PhysicalHeaps.PhysicalHeap.AllocRange: sizes that are a multiple of their alignment once rounded, where neither rounding wraps; the exact condition is proved beside it. PhysicalHeap::AllocFixed, which can replace live pages of the parent, is not modelled.
- PhysicalHeaps.PhysicalHeap.Release: addresses in a live region of this alias; the parent releases one of another alias too, which PhysicalHeaps.ForeignReleaseIsIncoherent shows to break the invariant.
- BaseHeaps.BaseHeap.AllocRange: sizes and alignments whose rounding does not wrap to zero, which PageTable.PageCountIsZero characterises.
- BaseHeaps.BaseHeap.AllocFixed: ranges that do not end exactly one page past the table, which the range check lets through, and sizes whose rounding does not wrap to zero.
- BaseHeaps.BaseHeap.Release: not the free page 0 of a heap based above 0, which passes the base test and would free past the table.
- BaseHeaps.BaseHeap.ApplyHostProtect: not heaps pinned writable on the host, where it does nothing; guest pages larger than a host page that do not tile it are refused as by the host.
- BaseHeaps.BaseHeap.Protect: the old protection it can report.
- BaseHeap::Alloc and AllocSystemHeap, which call AllocRange with fixed ranges, the queries of region information, and the options to scribble or protect on release.
- Save and Restore, which rebuild the index but not the count, Dispose, and Memory::Reset, which does not reset the aliases.
- Heap initialisation at fixed addresses, MMIO ranges and the kernel's own page table.
- Scanner.ScanIsComplete: a directory's subdirectories, and whether a scan of it stops short, are given by the tree; probing files and progress counters are not modelled. Fairness of the host's scheduler is not modelled, so that workers get to take their steps is not claimed.
- Relaunch.StepHolds: what tearing down and launching a title do, the flag being raised by a reset in the step that takes the lock.
- XamgenExecutor.Execute: exports change the arena, the variables and the console, not the corpus or the results; thunks are exports by name; PowerPC encoding, printing, progress words and the writing of the results file are not modelled.
- Xamgen.CompileCorpus: steps whose ranges lie in the arena and whose counts fit their fields.
- Xamgen.Scenario.Call: a step that faults keeps the patches pending when it was added; later ones, which the source appends to the same list, never reach a compiled step.
- Xamgen.EmitStep: a patch that writes a recorder's address holds it as its four bytes.
- Recorder routines, import tables and the building of the title.
