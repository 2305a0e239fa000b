# The JX kernel core: garbage collection, shared memory, and waking threads

A Dafny project that models central parts of the JX kernel and proves what they promise.  `dafny verify
dfyconfig.toml` checks everything.

- **The semispace collector** (`HeapLayout`, `HeapGraph`, `ObjectWords`, `ScanInvariant`, `Finalization`, `AllocationFrame`,
  `LogicalHeap`, `Collector`).
  Memory is one array of words.  Roots are forwarded, to-space is scanned by a loop whose bound moves while it runs, flag
  words are overwritten by tagged forwarding pointers, the old heap is parsed again for the finalizers, the spaces are
  flipped.  Main results: the object graph is preserved, with every word of every kind of object, to-space suffices, the
  scan ends, the old heap still parses, each dead proxy is finalized exactly once, and an allocation succeeds exactly if
  the object fits next to the reachable ones and a handle is free.  A ghost map numbers the logical objects; over any run
  of allocations and collections every reachable logical object keeps its kind, size, words and references, and every
  handle and root denotes the same one (`LogicalHeap.KeptHeap`).  What the proofs found about the code: gc_new_init
  compares the bytes of a heap with a reserve that the allocation takes in words, so it admits heaps in which nothing can
  be allocated (`Collector.ReserveLeavesRoom`).
- **The shared memory manager** (`DZChains`, `DZRefs`, `DZSplices`, `DZRevoke`, `DZLaws`, `MemoryManager`, `DZScenarios`).  A
  pool of nodes that are free or linked in chains over allocated blocks; pointers are indices, and -1 is null.  `Valid()`
  of the manager says that the nodes split into the free list and the chains, that a chain is dead or covers exactly one
  allocated block without gaps, with neighbours agreeing on who owns their boundary, that every count is the number of
  proxies, and that every block under management comes from one request to jxmalloc.  Every operation keeps it, so it
  holds over every run; the one exception is `memory_revoke` on a chain with a boundary that the caller does not own.
  What the proofs found about the code:
  - `memory_revoke` on a chain with a boundary of somebody else leaves dead pieces linked into the live chain, and may write
    through a variable that has not been set; the pool keeps its structure exactly if the caller owns every inner boundary
    (`MemoryManager.Manager.Revoke`, `DZScenarios.SplitAndRevoke`).
  - `memory_revoke` on a chain of more than one piece makes pieces whose count no proxy accounts for, so that a chain that
    holds one is never given back (`DZLaws.RevokedCountsMatch`, `DZScenarios.SplitAndRevoke`; the field `pinned` records
    them).
  - Memory created with an alignment is freed with another start or size than it was allocated with
    (`DZLaws.FreedIsAllocated`).
- **Both together** (`DomainProxies`): the memory proxies in the heap of a domain are proxies of the manager, and a
  collection, also one that the allocation of a proxy starts, drops exactly those that cannot be reached.
- **Moving bytes** (`MemoryMove`): `memory_move` and `memory_copy` on overlapping ranges.  Their range tests bound the
  offsets from above only (`MemoryMove.MoveStaysInsideExactly`).
- **Waking threads** (`ThreadBlocking`, `AtomicVariables`): runs of atomic operations on thread states, and the waiter lists of
  atomic variables.  In every run blockIfNotUnblocked sleeps exactly if no unblock has found the thread awake since it
  cleared its flag (`ThreadBlocking.BlocksExactly`); with the plain block operation a wake-up that comes first is lost
  (`ThreadBlocking.PlainBlockLosesWakeUp`).  A thread that is on a waiter list and is woken by `CPUManager.unblock` may be
  pushed a second time; the list is then cyclic (`AtomicVariables.PushKeepsList`, `AtomicVariables.BlockTwice`).
- **The heap profiler** (`ProfileLog`, `InternTables`, `AddressOrder`): the compressed log and the sorted intern tables.  Four
  of the five tables compare addresses by their 32-bit difference, which orders them exactly if they fit into one half of
  the address space (`AddressOrder.DomainCmpOrdersExactly`, `PairCmpOrdersExactly`).  For the table of domains the exact
  condition for being a finite map is proved, too (`AddressOrder.TableIsMapExactly`, `NoneAroundExactly`).
- **The marking collector** (`BitmapCollector`): bit map, recursive marking, sweep.

The configuration modelled is the one of the kernel build without debugging: arrays of 32-bit elements, no magic words, old
portal calls, one processor, eager service cleanup; ASSERT does nothing.  Words are unbounded integers except where bits are
taken apart (forwarding tags, class bitmaps, the bit map, frame lengths, address differences).  Operations that run with
interrupts disabled are atomic.  The current domain, the blocks that jxmalloc hands out and the class descriptors are
parameters.

## Model

| member | source | states |
|---|---|---|
| HeapLayout.ForwardingRoundTrip | src/Memory/gc_impl.h:32-40 | a word-aligned address comes back from its forwarding word, and no object flags look like a forwarding word |
| ObjectWords.ReferenceWords | src/Memory/gc_impl.h:70-86 | which words the collector visits, by number: data word 8 * i + k of an object exactly if bit k of byte i of its reference map is set, each element of an array of references, words 9 and 10 of a service, word 2 of an atomic variable, no other word |
| ObjectWords.VisitsReferences | src/Memory/gc_move.c:60-78 | taking the bits of the reference map by halving visits exactly the words that the map marks |
| ObjectWords.KeepsWords | src/Memory/gc_move.c:80-97 | the shallow copy of each kind carries over exactly the words in use: all data words, all elements, all fields; only the rounding word behind a plain object comes along besides |
| ObjectWords.NextObject | src/Memory/gc.h:176-280 | where the next object begins, for each kind: the sizes by which the heap is walked |
| HeapLayout.SameHeaderSameShape | src/Memory/gc_common.c:61-110 | size, kept words and reference slots depend on the header words only, so a shallow copy parses like its original |
| HeapGraph.TilingPrefix | src/Memory/gc_common.c:150-270 | a heap tiled by objects splits at the start of any of them |
| HeapGraph.TilingDisjoint | src/Memory/gc_common.c:150-270 | different objects of a tiled heap do not overlap |
| HeapGraph.ClosedHoldsReachable | src/Memory/gc_new.c:485-545 | a set that contains the roots and the targets of its members contains every reachable object |
| HeapGraph.ImageInjective | src/Memory/gc_move_common.c:191-297 | two references have the same image only if they denote the same object |
| HeapGraph.SlotCommutes | src/Memory/gc_move_common.c:191-297 | slot k of the copy refers to the copy of what slot k of the original referred to, and to no other copy |
| HeapGraph.EdgesCommute | src/Memory/gc_new.c:439-571 | between reachable objects there is an edge before the collection exactly if there is one between their copies after it |
| HeapGraph.NoGarbageLeft | src/Memory/gc_new.c:439-571 | after a collection every object of the new heap is reachable from the new roots |
| ScanInvariant.InvStart | src/Memory/gc_new.c:439-500 | the scan invariant holds when nothing has been copied |
| ScanInvariant.NoOverflow | src/Memory/gc_new.c:271-284 | copied words plus unforwarded words equal the used words of from-space, so to-space is never exceeded |
| ScanInvariant.RoomForCopy | src/Memory/gc_new.c:271-284 | the next copy fits below heapBorder2, although allocHeap2 tests before it bumps |
| ScanInvariant.CopyKeepsInv | src/Memory/gc_move_common.c:191-297 | copying an unforwarded object and installing the forwarding pointer keeps the scan invariant |
| ScanInvariant.SlotKeepsInv | src/Memory/gc_move_common.c:191-297 | replacing a from-space reference of the object under the scan by its image keeps the scan invariant |
| ScanInvariant.SkipKeepsInv | src/Memory/gc_common.c:164-270 | moving the scan pointer over words that hold no references keeps the scan invariant |
| ScanInvariant.PendingSlot | src/Memory/gc_common.c:164-270 | a reference slot at or above the scan pointer still holds the original reference |
| ScanInvariant.ForwardingInjective | src/Memory/gc_move_common.c:191-297 | no two objects are forwarded to the same copy |
| ScanInvariant.ScannedReachable | src/Memory/gc_new.c:485-545 | when the scan has caught up, exactly the reachable objects have been forwarded |
| ScanInvariant.ScanEndsWf | src/Memory/gc_new.c:485-571 | the new space is a well-formed heap, and the forwarded roots are well-formed in it |
| ScanInvariant.ScanEndsPreserved | src/Memory/gc_new.c:439-571 | the collection preserves the object graph: a bijection from the reachable objects to the new objects that keeps kinds, sizes, kept words and every reference slot |
| ScanInvariant.InteriorIntact | src/Memory/gc_move_common.c:191-297 | in from-space only flag words of forwarded objects change during a collection |
| ScanInvariant.OldHeapParses | src/Memory/gc_common.c:164-270 | after forwarding, the walk over the old heap still finds true kind and size of each object, through the forwarding pointer if there is one |
| Finalization.DeadProxiesMembers | src/Memory/gc_new.c:371-405 | the memory finalizer is called for an object exactly if it is an unforwarded memory proxy, with its DZMemoryProxy |
| Finalization.DeadProxiesOnce | src/Memory/gc_new.c:371-405 | the calls are in address order, each proxy once |
| Finalization.DeadPortalsMembers | src/Memory/gc_new.c:384-418 | a service count is dropped exactly for the unforwarded portals whose target domain is not null, is another domain, and has the id that the portal recorded |
| Finalization.DeadPortalsOnce | src/Memory/gc_new.c:384-418 | the calls are in address order, each portal once |
| Finalization.FinalizedExactlyOnce | src/Memory/gc_new.c:371-405 | over a whole collection memory_deleted is called once for each unreachable memory proxy and never for a reachable one |
| AllocationFrame.HeapFrame | src/Memory/gc_new.c:180-214 | writing to free words leaves the heap well-formed |
| LogicalHeap.KeptTrans | src/Memory/gc_new.c:69-214 | what is kept over two steps is kept over both: every reachable logical object with its kind, its size and every word of its kind, where a reference denotes the same logical object or is the same null or external word; and every root with its object |
| LogicalHeap.StepKeeps | src/Memory/gc_new.c:180-214 | a step of an allocation, which writes free words only, keeps every reachable logical object with its contents |
| Collector.Domain.constructor | src/Memory/gc_new.c:711-770 | two equal semispaces, an empty heap and an empty handle table satisfy the invariant of the domain; every field has its start value |
| Collector.Domain.ShallowCopyObject | src/Memory/gc_move.c:38-58 | flags, vtable and all fields arrive, including the overrun of two words behind the object |
| Collector.Domain.ShallowCopyArray | src/Memory/gc_move.c:270-301 | flags, vtable, class, size and all elements arrive |
| Collector.Domain.ShallowCopyPortal | src/Memory/gc_move.c:317-336 | all words of the portal arrive |
| Collector.Domain.ShallowCopyMemory | src/Memory/gc_move.c:23-36 | vtable, size, mem and dz arrive |
| Collector.Domain.ShallowCopyCAS | src/Memory/gc_move.c:338-353 | all words of the CAS object arrive |
| Collector.Domain.ShallowCopyDomain | src/Memory/gc_move.c:355-371 | all words of the domain proxy arrive |
| Collector.Domain.ShallowCopyAtomVar | src/Memory/gc_move.c:396-412 | value and blockedThread arrive, listMode does not |
| Collector.Domain.ShallowCopyService | src/Memory/gc_move.c:80-97 | all words of the service arrive but the rounding word |
| Collector.Domain.AllocHeap2 | src/Memory/gc_new.c:271-284 | bumps heapTop2 by the size asked for |
| Collector.Domain.MoveObject | src/Memory/gc_move_common.c:22-189 | the copy of each kind keeps the kept words and nothing outside the copy and its overrun changes |
| Collector.Domain.MoveReference | src/Memory/gc_move_common.c:191-297 | null and external references stay, references into from-space become their image; the scan invariant is kept and forwarding only grows |
| Collector.Domain.CopyObject | src/Memory/gc_move_common.c:215-293 | the object is copied to the top of to-space and its flag word becomes the forwarding pointer; the scan invariant is kept |
| Collector.Domain.ForwardSlot | src/Memory/gc_move_common.c:191-297 | one reference slot of the object under the scan is replaced by its image |
| Collector.Domain.WalkContentObject | src/Memory/gc_move.c:60-78 | all reference fields given by the class bitmap are forwarded, no other word is touched |
| Collector.Domain.WalkContentArray | src/Memory/gc_move.c:303-315 | all elements of a reference array are forwarded, those of a primitive array are passed over |
| Collector.Domain.WalkContentService | src/Memory/gc_move.c:118-138 | object and proxy of a service are forwarded |
| Collector.Domain.WalkContentAtomVar | src/Memory/gc_move.c:414-422 | the value of an atomic variable is forwarded |
| Collector.Domain.ScanObject | src/Memory/gc_common.c:164-270 | the object at the scan pointer is scanned completely and its size returned |
| Collector.Domain.ScanHeap2 | src/Memory/gc_common.c:150-270 | the scan with a bound that moves while it runs ends, with everything scanned |
| Collector.Domain.WalkRegistereds | src/Memory/gc_impl.c:170-184 | every non-null handle entry is replaced by its image |
| Collector.Domain.WalkRootSet | src/Memory/gc_impl.c:326-343 | every root slot and every handle entry is replaced by its image |
| Collector.Domain.FinalizeMemory | src/Memory/gc_new.c:401-409 | the walk over the old heap makes exactly the calls that DeadProxies lists |
| Collector.Domain.FinalizePortals | src/Memory/gc_new.c:411-417 | the walk over the old heap makes exactly the calls that DeadPortals lists |
| Collector.Domain.ParseOldObject | src/Memory/gc_common.c:164-270 | flags, size and forwarding state of an object of the old heap are found after the copying |
| Collector.Domain.Gc | src/Memory/gc_new.c:439-571 | a whole collection: the domain invariant holds again and the spaces are flipped; exactly the reachable objects are copied, each with every word of its kind, where a reference to an object becomes one to its copy and any other word stays; roots and handles lead to the copies; the graph and the logical objects are preserved (Collected); the used words are those of the reachable objects; the finalizers have run |
| Collector.Domain.Flip | src/Memory/gc_new.c:555-571 | the semispaces change roles and the old one becomes empty |
| Collector.Domain.RegisterObject | src/Memory/gc.c:112-150 | the first empty handle entry is filled, all others stay; a full table is reported |
| Collector.Domain.UnregisterObject | src/Memory/gc.c:152-170 | the entry is read and cleared, all others stay |
| Collector.Domain.MakeRoom | src/Memory/gc_new.c:107-180 | succeeds exactly if the object fits, or outside an interrupt handler would fit next to the reachable objects; one collection exactly if it does not fit at once, none in an interrupt handler; every reachable logical object keeps its contents, and every root and handle denotes what it denoted |
| Collector.Domain.AllocDataInDomain | src/Memory/gc_new.c:69-214 | the outcome as a function of the state before: in an interrupt handler a panic exactly if the object does not fit or the handle table is full; otherwise an exception exactly if it does not fit even next to the reachable objects alone, a panic exactly if it fits and the table is full; allocated in all other cases, with a collection exactly if it did not fit at once. The object is zeroed, flagged and registered in an empty entry; everything reachable is kept |
| Collector.Domain.AllocObjectInDomain | src/Memory/gc_alloc.c:260-288 | exact outcome as above; a new logical object of the class with all data words zero joins the heap; every reachable logical object keeps its contents, and every root and handle denotes what it denoted |
| Collector.Domain.AllocArrayInDomain | src/Memory/gc_alloc.c:447-505 | exact outcome as above; a new logical array with its class and length and all elements zero joins the heap; everything else is kept as for an object |
| Collector.Domain.AllocMemoryProxyInDomain | src/Interface/zero_Memory_org.c:2114-2145 | exact outcome as above; a new registered memory proxy with vtable, size, memory and DZMemoryProxy joins the heap; everything else is kept; the finalizer calls of the collection it may start are those for the dead proxies |
| Collector.CollectionResult | src/Memory/gc_new.c:439-571 | the finished scan yields a well-formed heap, well-formed roots and the preserved graph |
| Collector.ReserveLeavesRoom | src/Memory/gc_new.c:107-113 | in a heap no longer than the reserve, taken in words, nothing can be allocated outside an interrupt handler; in an empty heap an object fits exactly if the heap is that much longer |
| Collector.CollectedWord | src/Memory/gc_move.c:23-97 | word k of a copy, spelled out for every kind of object: equal to word k of the original, or the image of the reference that is there |
| Collector.AllCopied | src/Memory/gc_move_common.c:191-297 | when the scan has ended, every copied object has its copy in every word, and every root leads to the copy of what it led to |
| Collector.LiveIsCopied | src/Memory/gc_new.c:545-571 | the words that are in use after a collection are those of the reachable objects |
| LogicalHeap.HandlesKept | src/Memory/gc_impl.c:170-184 | an empty handle stays empty, and no other one becomes empty |
| Collector.CollectionKeeps | src/Memory/gc_new.c:439-571 | a collection keeps every reachable logical object with its contents, and what every root denotes |
| Collector.ObjectPreserved | src/Memory/gc_move_common.c:191-297 | the copy of a reachable object is the same logical object with the same kind, size, words and references |
| Collector.RefPreserved | src/Memory/gc_move_common.c:191-297 | an image denotes the logical object that the reference denoted; null and external words stay |
| DZChains.LiveOrder | src/Interface/zero_Memory_org.c:509-664 | pieces of a live chain are ordered by address |
| DZChains.ValidPiecesApart | src/Interface/zero_Memory_org.c:509-664 | in every reachable state two valid pieces never overlap, whether of one block or of two |
| DZChains.FreeIsValid2 | src/Interface/zero_Memory_org.c:224-261 | a node is on the free list exactly if its valid field is 2 |
| DZChains.SpliceKeepsStructure | src/Interface/zero_Memory_org.c:509-664 | replacing a run of pieces by fresh ones that cover the same range keeps the whole structure: one chain per block without gaps, agreed boundaries, partition of all nodes |
| DZChains.RelinkedIsSpliced | src/Interface/zero_Memory_org.c:528-549 | relinking only the two neighbours of the run is enough |
| DZChains.CreateKeepsStructure | src/Interface/zero_Memory_org.c:733-751 | a fresh block becomes a chain of one piece |
| DZChains.CountKeepsStructure | src/Interface/zero_Memory_org.c:204-222 | changing a count keeps the structure as long as the chain stays referenced |
| DZChains.FreeKeepsStructure | src/Interface/zero_Memory_org.c:325-391 | a chain whose nodes have all gone to the free list has left the structure together with its block |
| DZChains.BrokenLink | src/Interface/zero_Memory_org.c:1862-1926 | an invalid piece that is still linked to a valid one belongs to no chain: such a pool has no structure |
| DZRefs.PayProxy | src/Interface/zero_Memory_org.c:2114-2145 | a new proxy takes the reference that a fresh piece was created with |
| DZRefs.CopyKeepsRefs | src/Interface/zero_Memory_org.c:1983-2016 | copying a proxy to another domain keeps every count equal to its number of references |
| DZRefs.DropKeepsRefs | src/Interface/zero_Memory_org.c:204-213 | dropping a proxy keeps every count equal to its references, also while fresh pieces wait for their proxies |
| DZRefs.FreedKeepsRefs | src/Interface/zero_Memory_org.c:325-391 | no proxy leads to a freed node, also while fresh pieces wait for their proxies |
| DZSplices.RunMaximal | src/Interface/zero_Memory_org.c:1594-1613 | the run found by joinAll is the maximal one around self whose inner boundaries the caller owns |
| DZSplices.SizesAreBlock | src/Interface/zero_Memory_org.c:355-373 | the sizes that free_chunk adds up are the size of the block |
| DZSplices.TailIsFreed | src/Interface/zero_Memory_org.c:355-385 | what is passed to jxfree is the start and size of the block of a live chain, and nothing for a dead one |
| DZSplices.ReplacedKeepsStructure | src/Interface/zero_Memory_org.c:509-664 | every replacement of a run in a live chain keeps the structure |
| DZRevoke.RevokedReplaces | src/Interface/zero_Memory_org.c:1862-1926 | revoking a fully owned chain is a valid replacement of all its pieces |
| DZRevoke.RevokedAt | src/Interface/zero_Memory_org.c:1862-1926 | position by position the fresh pieces have the ranges of the originals, and the originals are dead |
| DZRevoke.RevokeRefs | src/Interface/zero_Memory_org.c:1862-1930 | after revoke one fresh piece is held by the new proxy; each other one has a count that no proxy accounts for |
| DZRevoke.OwnedIsWhole | src/Interface/zero_Memory_org.c:1862-1926 | the caller owns every inner boundary of the chain exactly if the run that memory_revoke duplicates is the whole chain |
| DZRevoke.TornEither | src/Interface/zero_Memory_org.c:1862-1926 | a run that ends inside the chain leaves a dead piece linked to a live one, so the pool has no structure |
| DZLaws.SplitJoinJoinRestores | src/Interface/zero_Memory_org.c:509-664 | split3 followed by two joins restores range, neighbours and outer owners of the piece, and changes nothing else |
| DZLaws.Split3IsSplit2Twice | src/Interface/zero_Memory_org.c:509-618 | split3 gives the ranges, owners and neighbours that split2 applied twice gives |
| DZLaws.BytesConserved | src/Interface/zero_Memory_org.c:509-664 | no replacement changes the bytes of the live chain, nor the block it covers |
| DZLaws.RevokedCountsMatch | src/Interface/zero_Memory_org.c:1862-1930 | after revoke counts equal proxies on the new chain exactly if the chain has one piece; otherwise the count of every other piece is one too high |
| DZLaws.AlignedInside | src/Interface/zero_Memory_org.c:771-795 | the aligned memory lies inside the block that was allocated for it |
| DZLaws.FreedIsAllocated | src/Interface/zero_Memory_org.c:771-795 | every call of jxfree answers one request to jxmalloc; it passes the block that was handed out exactly if no alignment was asked for |
| DZLaws.SettledBalanced | src/Interface/zero_Memory_org.c:377-385 | giving a block to jxfree settles exactly one open request |
| DZLaws.AskedBalanced | src/Interface/zero_Memory_org.c:771-795 | a new block comes from exactly one new request |
| MemoryManager.Manager.constructor | src/Interface/zero_Memory_org.c:224-253 | all nodes but dzInvalid are free, and the manager invariant holds |
| MemoryManager.Manager.AllocDZ | src/Interface/zero_Memory_org.c:263-302 | the head of the free list is taken, with count 1 |
| MemoryManager.Manager.CreateDZMemory | src/Interface/zero_Memory_org.c:733-751 | a valid, unlinked piece for the range, with count 1 |
| MemoryManager.Manager.DZSplit3 | src/Interface/zero_Memory_org.c:509-564 | fails exactly for a range outside the piece, without effect; otherwise exact ranges, owners and links of the three pieces, and the structure is kept |
| MemoryManager.Manager.DZSplit2 | src/Interface/zero_Memory_org.c:575-618 | the same for two pieces |
| MemoryManager.Manager.DZJoin | src/Interface/zero_Memory_org.c:629-664 | exact range, owners and links of the joined piece; its parts form a dead chain |
| MemoryManager.Manager.DZJoinAll | src/Interface/zero_Memory_org.c:1594-1636 | exactly the maximal owned run gives way to one piece |
| MemoryManager.Manager.FindTop | src/Interface/zero_Memory_org.c:1594-1597 | climbs to the start of the maximal owned run |
| MemoryManager.Manager.MarkRun | src/Interface/zero_Memory_org.c:1599-1613 | invalidates exactly the rest of the maximal run and adds up its sizes |
| MemoryManager.Manager.FreeChunk | src/Interface/zero_Memory_org.c:325-391 | frees the chain exactly if no piece of it is referenced: all its nodes join the free list, and the block goes to jxfree once; otherwise nothing changes |
| MemoryManager.Manager.CreateMemory | src/Interface/zero_Memory_org.c:771-826 | a chain of one aligned piece inside the granted block, and its proxy; the request is recorded |
| MemoryManager.Manager.AllocMemory | src/Interface/zero_Memory_org.c:2101-2112 | a fresh block becomes a chain of one piece with one proxy; the manager invariant is kept |
| MemoryManager.Manager.CopyMemory | src/Interface/zero_Memory_org.c:1983-2016 | in the same domain nothing changes; otherwise one more proxy and one more count |
| MemoryManager.Manager.MemoryDeleted | src/Interface/zero_Memory_org.c:199-213 | the chain goes back exactly if no reference to any of its pieces is left; the manager invariant is kept, also while fresh pieces wait for their proxies |
| MemoryManager.Manager.FinalizeProxies | src/Memory/gc_new.c:371-405 | a list of finalizer calls drops exactly its proxies; counts equal the remaining references, also while fresh pieces wait for their proxies, and these pieces keep their ranges |
| MemoryManager.Manager.Split3 | src/Interface/zero_Memory_org.c:1421-1464 | order of the checks, no effect on failure, and on success the split at its place in the chain with three new proxies for the bytes before, in and behind the range; the manager invariant is kept |
| MemoryManager.Manager.Split2 | src/Interface/zero_Memory_org.c:1383-1419 | the same for two: the bytes before the offset, and the others |
| MemoryManager.Manager.JoinPrevious | src/Interface/zero_Memory_org.c:1466-1519 | panics exactly if the boundary does not belong to the caller or there is no predecessor; otherwise joins, and the new proxy covers the bytes of both; the manager invariant is kept |
| MemoryManager.Manager.JoinNext | src/Interface/zero_Memory_org.c:1522-1568 | refuses without effect if the boundary does not belong to the caller; otherwise joins, and the new proxy covers the bytes of both; the manager invariant is kept |
| MemoryManager.Manager.JoinAll | src/Interface/zero_Memory_org.c:1571-1652 | the maximal owned run around self is replaced by one piece that covers it, from the start of its first to the end of its last piece; outer neighbours and owners stay; the manager invariant is kept |
| MemoryManager.Manager.Revoke | src/Interface/zero_Memory_org.c:1835-1938 | whatever the unset dzmCurNew holds: the pool has its structure afterwards exactly if the caller owns every inner boundary of the chain, and then every piece is duplicated with its range and owners, every original is dead, and the manager invariant is kept |
| MemoryManager.Manager.DuplicateBefore | src/Interface/zero_Memory_org.c:1862-1881 | the first loop duplicates exactly the pieces from the revoked one up to the start of the owned run |
| MemoryManager.Manager.DuplicateAfter | src/Interface/zero_Memory_org.c:1893-1920 | the second loop duplicates exactly the pieces down to the end of the owned run |
| DZScenarios.SplitJoinJoin | src/Interface/zero_Memory_org.c:1421-1568 | memory_split3 and two calls of memory_joinNext put one piece at the same position of the chain, with the same range, neighbours and outer owners; only dead chains are left in addition |
| DZScenarios.SplitAndRevoke | src/Interface/zero_Memory_org.c:1835-1938 | create, split2, revoke: a piece is left with a count that no proxy accounts for if the caller owns the boundary, and the pool loses its structure if it does not |
| DomainProxies.CollectDomain | src/Memory/gc_new.c:371-571 | a collection of a domain and the memory_deleted calls it makes: the manager loses exactly the proxies the domain cannot reach, every count is again the number of references, and every memory proxy in the heap is still the proxy of the manager with its words |
| DomainProxies.AllocProxyInDomain | src/Interface/zero_Memory_org.c:2114-2145 | the same for the collection that the allocation of a proxy may start; exact outcome as for AllocDataInDomain; the fresh piece gets its proxy, in the heap, with vtable, range and DZMemoryProxy, and in the manager |
| DomainProxies.CallsNumbers | src/Memory/gc_new.c:371-405 | the finalizer calls of a collection name every dead proxy of the manager once, with its piece |
| DomainProxies.CollectedRepresents | src/Memory/gc_new.c:439-571 | after a collection the memory proxies in the heap are those of the manager that could be reached, with the same words |
| DomainProxies.NewRepresents | src/Interface/zero_Memory_org.c:2114-2145 | a new proxy at the end of the heap keeps the correspondence |
| MemoryMove.Move | src/Interface/zero_Memory_org.c:1134-1158 | memory_move is the simultaneous copy, for every overlap, every count and every offset, negative ones included; out of range it has no effect |
| MemoryMove.MoveStaysInsideExactly | src/Interface/zero_Memory_org.c:1134-1142 | what passes the range test leaves the bytes outside the object alone exactly if the destination is not negative or nothing is really moved |
| MemoryMove.MoveUp | src/Interface/zero_Memory_org.c:1143-1147 | the upward copy with its byte, word and double word steps is the simultaneous copy |
| MemoryMove.MoveDown | src/Interface/zero_Memory_org.c:1148-1156 | so is the downward copy, whose pointers run four bytes below the end |
| MemoryMove.Copy | src/Interface/zero_Memory_org.c:1182-1199 | the byte loop of memory_copy leaves old[from + i mod (to - from)] at to + i where it overtakes its source, and the source byte otherwise; negative offsets included |
| MemoryMove.CopyIsMoveExactly | src/Interface/zero_Memory_simple.c:88-131 | memory_copy gives what memory_move gives, whatever the contents, exactly if to <= from or from + len <= to |
| MemoryMove.SmearedRepeats | src/Interface/zero_Memory_org.c:1182-1199 | otherwise the result repeats with period to - from |
| MemoryMove.WrapIsModulo | src/Interface/zero_Memory_org.c:1182-1199 | the repetition is the remainder of the division |
| ThreadBlocking.CPUManager.BlockIfNotUnblocked | src/Interface/zero_CPUManager.c:126-133 | with the flag clear the thread is blocked and nothing else changes, with the flag set nothing changes; this is the step of the state machine |
| ThreadBlocking.CPUManager.ClearUnblockFlag | src/Interface/zero_CPUManager.c:135-138 | the flag of the thread is cleared and nothing else changes; this is the step of the state machine |
| ThreadBlocking.CPUManager.Unblock | src/Interface/zero_CPUManager.c:235-271 | returns whether the thread was asleep; if so it is runnable, otherwise its flag is set, and nothing else changes; this is the step of the state machine |
| ThreadBlocking.BlocksExactly | src/Interface/zero_CPUManager.c:126-138 | in every run: blockIfNotUnblocked puts the thread to sleep exactly if no unblock has found it awake since it cleared its flag; otherwise nothing happens |
| ThreadBlocking.FlagSince | src/Interface/zero_CPUManager.c:135-138 | since the thread cleared its flag, the flag is set exactly if an unblock has found the thread awake |
| ThreadBlocking.NoLostWakeUp | src/Interface/zero_CPUManager.c:126-271 | in every interleaving a thread asleep through blockIfNotUnblocked has not been unblocked since, and every earlier unblock that found it awake was cleared by the thread itself before it slept |
| ThreadBlocking.HandshakeWakes | src/Interface/zero_CPUManager.c:126-271 | a waiter that clears its flag before it looks, and a waker that unblocks it after that, never leave the waiter asleep |
| ThreadBlocking.PlainBlockLosesWakeUp | src/Interface/zero_CPUManager.c:114-124 | the handshake with the plain block operation, in every run: if nothing else wakes the waiter or puts it to sleep, it sleeps at the end exactly if the wake-up came first |
| ThreadBlocking.SleepsUntilWoken | src/Interface/zero_CPUManager.c:114-124 | after the plain block operation a thread sleeps exactly as long as nothing wakes it, whatever came before |
| ThreadBlocking.LostWakeUp | src/Interface/zero_CPUManager.c:114-124 | there is a run of the handshake in which the wake-up is lost |
| AtomicVariables.PushKeepsList | src/Interface/zero_AtomicVariable.c:56-69 | pushing a waiter keeps the list finite exactly if the waiter is not on it yet; otherwise it becomes a cycle |
| AtomicVariables.SameList | src/Interface/zero_AtomicVariable.c:26-31 | the list from a head is unique |
| AtomicVariables.ListDistinct | src/Interface/zero_AtomicVariable.c:26-31 | a list that ends holds no thread twice |
| AtomicVariables.OthersLeaveWaiters | src/Interface/zero_AtomicVariable.c:18-52 | operations on threads that do not wait leave the waiters as they are |
| AtomicVariables.UnblockKeepsWaitersExactly | src/Interface/zero_CPUManager.c:235-271 | a plain unblock keeps the waiters of a variable in order exactly if its target is not one of them |
| AtomicVariables.AtomicVariable.BlockIfEqual | src/Interface/zero_AtomicVariable.c:54-71 | sleeps exactly if the value equals the test, with links and states exactly as stated; the waiters stay in order exactly if the thread can wait: in list mode it is not on the list, otherwise no other thread waits |
| AtomicVariables.AtomicVariable.BlockIfNotEqual | src/Interface/zero_AtomicVariable.c:73-91 | the same for inequality |
| AtomicVariables.AtomicVariable.AtomicUpdateUnblock | src/Interface/zero_AtomicVariable.c:18-52 | exactly the stated threads wake up; the waiters stay in order exactly if no sleeping thread other than the waiter is named outside list mode |
| AtomicVariables.WaitsExactly | src/Interface/zero_AtomicVariable.c:54-91 | putting a thread to sleep keeps the waiters in order exactly if it can wait |
| AtomicVariables.BlockTwice | src/Interface/zero_AtomicVariable.c:54-71 | block, CPUManager.unblock, block: the list of waiters is a cycle |
| AtomicVariables.AtomicVariable.ActivateListMode | src/Interface/zero_AtomicVariable.c:93-96 | list mode begins with no waiters |
| ProfileLog.FrameAppended | src/Memory/gc_pa.c:118-163 | a pool of frames with one more frame at its end unpacks to the old contents and the new block |
| ProfileLog.Encode32 | src/Memory/gc_pa.c:136-139 | the four bytes of a length, low byte first, give it back |
| ProfileLog.StoreRoomCheck | src/Memory/gc_pa.c:127-139 | the room check of paStore admits a frame that ends behind paEnd in exactly one case |
| ProfileLog.Log.Store | src/Memory/gc_pa.c:118-146 | exactly when a store succeeds: if the pool has room for the longest frame before each of the blocks that are written (HasRoom), in particular if the data fits into the buffer; then what a reader unpacks, and the pending buffer, grow by exactly the data; otherwise by a prefix of it, the pool has no room for another frame, and what is left does not fit into the buffer |
| ProfileLog.RoomShift | src/Memory/gc_pa.c:127-141 | there is room for all frames exactly if there is room for the first one and, behind it, for the others |
| ProfileLog.StoredBehind | src/Memory/gc_pa.c:136-141 | writing the first block and storing the rest behind it stores the whole |
| ProfileLog.Log.Flush | src/Memory/gc_pa.c:148-163 | the whole log is in the pool and unchanged, or nothing has changed if there was no room |
| InternTables.BinSearch | src/Memory/gc_pa.c:167-181 | for every comparison function: an index where the key compares equal, or a place where it fits between its neighbours |
| InternTables.SearchFindsExactly | src/Memory/gc_pa.c:167-181 | in a sorted table whose keys are ordered together with the key, the search finds the key exactly if it is there, and otherwise its place |
| InternTables.InsertKeepsSorted | src/Memory/gc_pa.c:183-213 | inserting an ordered key keeps the table sorted and adds the key exactly if it was not there |
| InternTables.RunKeepsSorted | src/Memory/gc_pa.c:183-223 | over every run of insertions of ordered keys the table is sorted, holds exactly these keys, and each once |
| InternTables.MappedExactly | src/Memory/gc_pa.c:183-223 | a key has an offset exactly if it is among the keys of the table |
| InternTables.OneToOne | src/Memory/gc_pa.c:183-223 | in a table without double keys equal keys have one offset, different keys different ones |
| InternTables.EntryPut | src/Memory/gc_pa.c:194-213 | a new record and its entry put the key at its place, map it to its offset and leave all other keys theirs |
| InternTables.OtherRecordsKept | src/Memory/gc_pa.c:194-206 | records added for other tables do not disturb a table |
| InternTables.RecordsApart | src/Memory/gc_pa.c:189-206 | different records share no byte |
| InternTables.SizedPut | src/Memory/gc_pa.c:189-206 | each record of a table takes up as many bytes as its records have, a string one more than it has characters |
| InternTables.Table.Insert | src/Memory/gc_pa.c:183-223 | for every comparison function the keys change as InsertKey says and no record is lost; if it orders the keys, a finite map that only grows: known keys keep their offset, a new one gets the next; both overflows have no effect |
| AddressOrder.DomainCmpOrdersExactly | src/Memory/gc_pa.c:70-73 | ddcmp orders a set of addresses exactly if it fits into one half of the address space |
| AddressOrder.PairCmpOrdersExactly | src/Memory/gc_pa.c:75-92 | eipcmp and thrcmp order a set of records exactly if the first addresses fit into one half of the address space, and so do the second addresses of all records with the same first one |
| AddressOrder.TableIsMapExactly | src/Memory/gc_pa.c:70-223 | for every set of addresses: the table of domains has no double entry after any run of insertions over them exactly if no four of them lie around the address space (NoneAround) |
| AddressOrder.NoneAroundExactly | src/Memory/gc_pa.c:70-73 | for five or more addresses this is so exactly if they fit into one half of the address space; for fewer, fitting suffices |
| AddressOrder.WindowRun | src/Memory/gc_pa.c:167-223 | in one half of the address space every run gives exactly its keys, each once, however many they are |
| AddressOrder.FewRun | src/Memory/gc_pa.c:167-223 | up to four addresses of which no four lie around: every run gives a table without double entries in which all keys are found |
| AddressOrder.SomeAround | src/Memory/gc_pa.c:70-73 | five or more addresses that do not fit into one half of the address space include four that lie around it |
| AddressOrder.AroundFails | src/Memory/gc_pa.c:167-213 | four keys around the address space and five insertions give a double entry, for every comparison function that sees them so |
| AddressOrder.FailingTable | src/Memory/gc_pa.c:167-213 | a concrete run with a double entry |
| AddressOrder.DifferenceComparesExactly | src/Memory/gc_pa.c:70-92 | comparing addresses by their 32-bit difference is right exactly if they are less than 2^31 apart |
| BitmapCollector.BitOfSlot | src/Memory/gc_bitmap.c:192-203 | slot c has bit c % 8, from the lowest, of byte c / 8 of the map |
| BitmapCollector.SetBitAddsSlot | src/Memory/gc_bitmap.c:199-203 | setting the bit of a slot adds exactly that slot to the set |
| BitmapCollector.Bitmap.HasSpace | src/Memory/gc_bitmap.c:139-154 | exactly if the slots from current on exist and are free |
| BitmapCollector.Bitmap.Mark | src/Memory/gc_bitmap.c:192-213 | exactly these slots are added, the free count drops by their number |
| BitmapCollector.Bitmap.NextFree | src/Memory/gc_bitmap.c:124-136 | the next free slot, going round once; fails exactly if there is none |
| BitmapCollector.Bitmap.Clear | src/Memory/gc_bitmap.c:75-80 | no slot is marked, all are counted free |
| BitmapCollector.Bitmap.MarkAddr | src/Memory/gc_bitmap.c:327-339 | marks an object exactly if it was not marked |
| BitmapCollector.Bitmap.MarkRef | src/Memory/gc_bitmap.c:341-376 | the recursion ends; it marks the target, only objects reachable from it through the words of the heap, and all children of what it marks |
| BitmapCollector.Bitmap.ClearHeap | src/Memory/gc_bitmap.c:106-121 | exactly the slots that are not marked become zero |
| BitmapCollector.Bitmap.Gc | src/Memory/gc_bitmap.c:591-640 | exactly the objects reachable from the roots through the words of the heap are marked: the least set that holds what the roots and the reference words of its members lead to; the slots with their words are untouched, all others zero; free slots are counted right |
| BitmapCollector.ReachableHolds | src/Memory/gc_bitmap.c:341-376 | the reachable objects are the least set that holds what the roots and the reference words of its members lead to |
| BitmapCollector.Swept | src/Memory/gc_bitmap.c:106-121 | the sweep keeps the references of the marked objects and clears all others |
| BitmapCollector.MarkedIsReachable | src/Memory/gc_bitmap.c:341-376 | a closed set of marked objects that holds the roots and only reachable objects is the set of reachable objects |
| BitmapCollector.ObjectSlots | src/Memory/gc_bitmap.c:327-339 | the slots of an object are all free or all taken |
| BitmapCollector.RangeIs | src/Memory/gc_bitmap.c:192-213 | a range of k slots has k members, so the free count stays exact |

## Left out

- Collector.Domain.Gc: requires two words between heapTop and heapBorder, because the shallow copy of a plain object overruns it by two words; allocation outside interrupt handlers guarantees them through HEAP_RESERVE, interrupt handlers may use them up.
- Collector.Domain.WalkContentService: the receiver thread of a service is copied but not updated, because threads and CPU states are not part of this model.
- Collector.Domain.WalkContentAtomVar: the blockedThread of an atomic variable is copied but not updated, because threads and CPU states are not part of this model.
- Collector.Domain.WalkRootSet: the root slots of stacks, statics, services and specials are one array in walk order; how stacks are parsed is not part of this model.
- Collector.Domain.AllocDataInDomain: 32-bit overflow of sizes is not modelled.
- DomainProxies.AllocProxyInDomain: the operations of MemoryManager.Manager make their proxies without a collection in between; a collection between the proxies of a split, a join, a copy or a revocation is covered by this method and by FinalizeProxies, which run while fresh pieces wait for their proxies, but the whole operations are not stated with it. A DZMemoryProxy pointer in the heap is the index of the node.
- MemoryManager.Manager.Revoke: if the caller does not own every inner boundary, what exactly the pool looks like is not stated beyond its having lost its structure.
- MemoryManager.Manager.Split3: the result array is represented by its size; sums of offset and length that wrap around in 32 bits are not modelled, nor is the collection of all domains that dzmemory_alloc starts when no free node is left (enough free nodes are required).
- MemoryManager.Manager.CreateMemory: what jxmalloc returns is a parameter, required not to overlap the blocks in use; quotas and zeroing are left out.
- MemoryManager.Manager.CopyMemory: the quota of the copy is left out.
- MemoryManager.Manager.JoinNext: the state of the interrupt flag is not modelled; the source leaves interrupts disabled when it refuses.
- MemoryMove.Move: counts are not negative; the source takes a negative one for a large unsigned one. The bytes that negative offsets lead to must exist.
- MemoryMove.Copy: the bytes that negative offsets lead to must exist.
- AtomicVariables.AtomicVariable.ActivateListMode: requires that no thread waits, as the source leaves the link of a waiter that is already there unset; plain `set` wakes nobody and is left out.
- AddressOrder.PairCmpOrdersExactly: for the tables of records with two addresses the exact condition is proved for the order, and that order suffices for a finite map (InternTables.RunKeepsSorted); that a table fails in some run whenever the order does is proved for the table of domains only.
- InternTables.Table.Insert: moves the entries behind the new one only; the source passes memmove a byte count that is larger than these entries. Keys are what the comparison looks at; a null string is replaced by the caller.
- ProfileLog.Log.Store: the compressor is a parameter with an inverse and the output bound of LZO. The pool of the model is one byte longer than paEnd, so the one byte that the room check admits too much (StoreRoomCheck) is stored like the others.
- BitmapCollector.Bitmap.MarkRef: which words of an object are references, in walking order, and how long it is, is given as a map from slots to layouts; guessing types of interior pointers, conservative stack scanning and decoding the headers of the kinds are left out.
- BitmapCollector.Bitmap.Gc: reachability is over these layouts and the words of the heap.
- BitmapCollector.Bitmap.NextFree: requires current to be a slot; bitmap_alloc may leave it behind the last slot and is left out.
- memory_getSubRange: passes a node where a proxy is expected, so its effect on the counts is not defined.
- nonatomic_memorySetValid, redirection of invalid nodes, read-only and device memory: not part of this model.
- CAS loops on several processors, gc_chunked.c, gc_org.c, gc_compacting.c, portal tables, domain creation, schedulers, hardware: not part of this model.
- Stacks, CPU states, service pools, foreign CPU states, interceptors, credentials: not part of this model.
