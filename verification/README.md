# Verification of the ELF loader's core

A Dafny model of the loader's own machinery: its lock, its heap, its lists, its thread-local storage, its symbol
index, the mapping of files and what they need, and the unloading of files nobody can reach. Each component is a
module of the same name as its file.

Most components come in two layers. A value-level specification (a state, what each operation computes, the runs it
can take) carries the properties that hold over every run. Imperative code on classes, arrays and fields, written as
the C code is, is proved to compute exactly that specification.

| component | specification and laws | code |
|---|---|---|
| futex mutex, one step per atomic operation | `Futex` | `Futex.Machine` |
| thread-local storage | `TlsRuntime`, `TlsHistory`, `TlsImage`, `TlsSpace`, `StaticTls`, `Align` | `TlsLoader`, `StaticTls.StaticArea` |
| heap | `HeapModel` | `HeapCode` |
| unloading: collector, scopes, any number of closers | `Unload`, `History`, `Finalizing`, `Graph` | `Gc`, `Dl`, `Fini`, `LinkMap` |
| symbol lookup | `SymbolIndex`, `Scope` | `SymbolIndex.LookupIterator`, `Scope` |
| dependency mapping and segments | `Deps`, `Segment` | `Deps.Mapper`, `Segment.AddressSpace` |
| lists and orders | `Seqs`, `ListModel`, `Breadth`, `Depth` | `List`, `Sort` |
| printf and byte copies | `Digits`, `Printf`, `Format`, `FormatSpec`, `FormatC99`, `FormatText`, `FormatRefusals` | `Printf`, `Format`, `Mem` |

`Files` holds the records of files and contexts that the collector, the scopes and dlclose share, `Common` a few
definitions that several modules use.

Where the code does not do what it is for, the model keeps the code and says exactly when it does:

- An index of the thread-local vector is never reused, so after an unload a live index can exceed the size of a new
  vector (`TlsRuntime.UnloadBreaksIndexing`); over every run, a new vector fits exactly when every index given up is
  above every live one (`TlsRuntime.FreshDtvFitsExactly`). Accesses in a run are those whose index is within the
  updated vector.
- A file that a closer has claimed can still be found by name while dlclose has dropped the lock. Opening
  it leaves a counted file that the closer unmaps (`Unload.ReopeningAClaimedFile`). An open keeps the store valid
  exactly when neither the requested file nor what the new files depend on is claimed (`Unload.OpenKeepsExactly`), and
  the runs of `Unload.NothingDangles` and `Unload.ClosersInterleave` take such opens only.
- The large branch of free compares a chunk's base with a block's address and never unmaps
  (`HeapModel.BlockIsNoChunk`); such blocks are leaked ranges of the partition.
- A lookup in a single scope that misses goes on to walk a null list (`Scope.NullScopeExactly`). Nothing in the loader
  sets those two lookup types.
- Removing a file that is not on the link map loses the whole map (`LinkMap.Globals.Remove`); that no closer does so is
  part of `Unload.ClosersInterleave`.
- vdl_memcpy counts in a signed 32-bit integer (`Mem.CopyIsWholeExactly`), and vdl_memmove writes through a null
  pointer exactly for a non-empty range onto itself (`Mem.MemMove`).
- Printing zero with the 0 flag and no precision writes one character too few, and padding beyond 127 wraps
  (`Printf.WritesC99Exactly`, `FormatC99.SpecPrintsC99`); a sign is written ahead of the whole field and not counted
  in its width (`Printf.SignedMatchesExactly`).
- The format "%.$" loops for ever (`Format.DollarInPrecisionLoops`); a format ends exactly unless its walk comes to
  stand at '$' in a precision and the arguments carry it there (`Format.LoopEndsExactly`).
- A range inserted into its own list ends exactly unless the position lies inside the range
  (`ListModel.SelfInsertEndsExactly`); the loader only inserts ranges of other lists.
- vdl_list_sort is not stable: it reverses equivalent elements (`ListModel.InsertionSortSorts`).

Parameters stand for the outside: the addresses mmap returns, the order in which threads run and the kernel wakes them,
both hash functions, the verdict of version matching, the result of searching for a file, and the bytes of a file.

## Model

| member | source | states |
|---|---|---|
| `Futex.MutualExclusion` | futex.c:26-47 | In every reachable state of any number of threads, holders plus slow unlockers that have not stored 0 number one if the word is non-zero and none otherwise; two threads never hold the lock; the word stays at most 2; no decrement underflows |
| `Futex.NoWakeupIsLost` | futex.c:26-47 | In every reachable state a sleeper implies word 2, a releasing thread or an awake contender; so when all threads are idle or asleep, all are idle |
| `Futex.EveryoneCanFinish` | futex.c:26-47 | From every reachable state, without new lock calls or spurious wakeups, at most seven operations a thread bring every thread out of the lock and the word to 0 |
| `Futex.EveryCooperativeRunEnds` | futex.c:26-47 | From every reachable state of n threads, every schedule without new lock calls and spurious wakeups has at most (3n+1)(5n+1)+3n operations |
| `Futex.StoppedRunIsIdle` | futex.c:26-47 | A schedule that cannot go on without a new lock call or a spurious wakeup has brought every thread out of the lock |
| `Futex.ExclusiveKept` | futex.c:26-47 | Each atomic step, spurious wakeups included, keeps the count of owners tied to the word |
| `Futex.NoLostWakeupKept` | futex.c:26-47 | Each atomic step keeps the no-lost-wakeup condition |
| `Futex.ProgressStep` | futex.c:26-47 | Outside rest, some step other than a new lock call or a spurious wakeup lowers the work left |
| `Futex.UncontendedLock` | futex.c:26-38 | A lock that finds the word 0 takes one operation and leaves it 1 |
| `Futex.QuietWithoutContention` | futex.c:26-47 | Over every run in which no thread has entered the lock loop the word is at most 1 and every thread is idle or holding: nobody stores 0, waits or wakes |
| `Futex.WordChangesExactly` | futex.c:26-47 | While one thread at most owns the lock, the six ways in which an operation changes the word, each with the values before and after and where it leaves the thread |
| `Futex.Machine.LockStep` | futex.c:26-38 | One operation of futex_lock on the shared word is the protocol's step |
| `Futex.Machine.UnlockStep` | futex.c:40-47 | One operation of futex_unlock, with the kernel's wake of one sleeper, is the protocol's step |
| `Futex.Machine.CompareAndExchange` | futex.c:29-36 | The old word is returned; the word changes only on equality |
| `Futex.Machine.AtomicDec` | futex.c:42 | The decrement of a 32-bit word, wrap-around included |
| `Futex.Machine.constructor` | futex.c:18-21 | A new futex is the protocol's initial state |
| `TlsRuntime.AddressIsStable` | vdl-tls.c:329-478 | Over any run in which the module stays loaded, a later access by the same thread returns the base of the earlier one, through generation changes, updates and resizes; the fast path returns that base or 0 |
| `TlsRuntime.UpdateIsExact` | vdl-tls.c:329-428 | In every reachable state, entry by entry: an update keeps the entries of loaded modules and the static ones, empties all others, gives a grown vector the static modules it did not reach, and frees each dropped block exactly once and nothing else |
| `TlsRuntime.BlocksNeverLeakOrAlias` | vdl-tls.c:329-478 | Over every run the live heap blocks are exactly those the threads' vectors own |
| `TlsRuntime.DistinctBlocks` | vdl-tls.c:442-471 | Two threads, or two modules of a thread, never share a lazily allocated block |
| `TlsSpace.NothingOverlaps` | vdl-tls.c:442-478 | Over every run the live blocks of all threads have the size their module needs, and the blocks and the static areas of the threads are pairwise disjoint byte ranges |
| `TlsSpace.AccessStaysInside` | vdl-tls.c:442-478 | After every run a byte that an access changes lies in the block the access makes or in the static area of its thread |
| `TlsSpace.OtherBlockUntouched` | vdl-tls.c:442-478 | An access changes no byte of another live block |
| `TlsSpace.OtherAreaUntouched` | vdl-tls.c:399-423 | An access changes no byte of another thread's static area |
| `TlsSpace.NewBlockIs` | vdl-tls.c:457-470 | A new block has 8 bytes more than template and zeros, the address returned is 8 above it, and the word in front reads back as that size |
| `TlsSpace.BytesReadBack` | vdl-tls.c:459 | A number that fits reads back from the bytes it was stored in |
| `TlsSpace.FirstAccessFindsBytes` | vdl-tls.c:461-464 | Byte by byte: the first access finds the template and then zeros at the address it returns |
| `TlsHistory.EveryRunIsTold` | vdl-tls.c:17-155 | After every run the generation has counted every load and unload, the next index every load, the vector count the difference, and each load that was not undone has left exactly the module it asked for, with its index, generation, template and zeros |
| `TlsRuntime.StaticBase` | vdl-tls.c:399-423 | A static module is always found at its offset from the thread pointer |
| `TlsRuntime.UpdatedValid` | vdl-tls.c:329-428 | After an update every non-zero non-static entry belongs to a live module of its generation, so the repeated call of the slow path succeeds |
| `TlsRuntime.FreshIsCurrent` | vdl-tls.c:220-267 | The vector of a new thread has the current generation and needs no update, and its entries are those of the loaded modules |
| `TlsRuntime.FreshDtvFitsExactly` | vdl-tls.c:220-267 | Over every run: a new vector has room for every live module exactly when every index given up by an unload is above every live index |
| `TlsRuntime.FittingIsGapless` | vdl-tls.c:220-267 | A new vector that has room has none to spare: the live indexes are 1 to n |
| `TlsRuntime.UnloadBreaksIndexing` | vdl-tls.c:42-49 | Concrete run: after one unload a live index exceeds the size of a new vector |
| `TlsRuntime.GaplessIsInBounds` | vdl-tls.c:42-49 | Without gaps every live module is within an updated vector |
| `TlsRuntime.StepKeeps` | vdl-tls.c:17-478 | Every load, unload, thread start, update and access keeps the run-time invariant |
| `TlsLoader.Runtime.Load` | vdl-tls.c:17-53 | Loading appends a module with the next index, the current generation and the bytes asked for, and raises the three counters |
| `TlsLoader.Runtime.Unload` | vdl-tls.c:141-155 | Unloading raises the generation, lowers the vector count, and takes exactly that module off the link map |
| `TlsLoader.Runtime.FindFileByModule` | vdl-tls.c:269-281 | The loaded file with that module index, or none |
| `TlsLoader.Runtime.DtvAllocate` | vdl-tls.c:220-232 | A vector of the current count, with the current generation |
| `TlsLoader.Runtime.DtvInitialize` | vdl-tls.c:234-267 | The loop stays inside the vector exactly when a new vector fits the live modules; then the vector is the specified fresh one and the static blocks are filled in link-map order |
| `TlsLoader.Runtime.RefreshEntry` | vdl-tls.c:344-375 | One entry is kept, freed or cleared as specified |
| `TlsLoader.Runtime.RefreshEntries` | vdl-tls.c:341-376 | All entries are refreshed and exactly the dropped blocks freed |
| `TlsLoader.Runtime.DtvUpdate` | vdl-tls.c:329-428 | The vector, the heap and the memory become the updated ones, with and without resizing; newly reached static blocks get template and zeros |
| `TlsLoader.Runtime.GrowDtv` | vdl-tls.c:387-427 | A new vector takes over the entries of one that is too small and gets those of the new area |
| `TlsLoader.Runtime.ReachNewModules` | vdl-tls.c:399-423 | The loop over the new area: every entry of a grown vector and the blocks of the static modules it reaches |
| `TlsLoader.Runtime.InitializeEntry` | vdl-tls.c:244-262 | One module of the link map: its entry and, when static, its block |
| `TlsLoader.Runtime.GetAddrFast` | vdl-tls.c:429-441 | The fast base plus the offset, or 0 |
| `TlsLoader.Runtime.AllocateBlock` | vdl-tls.c:451-471 | The heap is asked for 8 bytes more than template and zeros; that size goes in the word in front, the template and zeros behind it; the entry names the block |
| `TlsLoader.Runtime.GetAddrSlow` | vdl-tls.c:442-478 | The slow path terminates, and its address, vector, heap and memory are those of the specified access |
| `TlsLoader.Runtime.UpdateAndRetry` | vdl-tls.c:472-477 | The update and the repeated call together are the specified access |
| `TlsLoader.UpdateKeepsBlocksLive` | vdl-tls.c:341-376 | After an update every block still referred to is live |
| `TlsImage.UpdatedIsCurrent` | vdl-tls.c:472-477 | Once updated, a vector needs no further update, and the access through it is the access through the old one |
| `TlsImage.LiveIsBlocks` | vdl-tls.c:341-471 | The blocks live in the heap after an access are those of the system of threads |
| `TlsImage.FirstAccessFindsContents` | vdl-tls.c:399-471 | The first access of a thread to a module, lazily allocated or static and newly reached, finds the template and zeros behind it at the address it returns |
| `TlsImage.AccessWritesNothingElse` | vdl-tls.c:329-478 | An access changes no byte but those of the block it makes and of static blocks the vector did not reach before |
| `TlsImage.AllFilledHold` | vdl-tls.c:241-263 | Filling static blocks that do not overlap, one after the other, leaves each with its template and zeros |
| `TlsImage.FilledHolds` | vdl-tls.c:461-464 | Template, then zeros: the block holds both whenever the template is below 2^31 bytes |
| `StaticTls.StaticBlocksAreLaidOut` | vdl-tls.c:90-139 | After start-up and any later successful openings the static blocks are pairwise disjoint, lie within the total size below the TCB, and each offset is a multiple of its alignment |
| `StaticTls.StartedHasBlock` | vdl-tls.c:101-120 | Every static image of the start keeps a block of its size and alignment through all openings |
| `StaticTls.OpenedHasBlock` | vdl-tls.c:127-139 | So does every static image of an opening whose size stays below the total, to the end of the run |
| `StaticTls.OffsetsAreBlocks` | vdl-tls.c:108-113 | The offset a file got is that of its block |
| `StaticTls.StartupLeavesRoom` | vdl-tls.c:169-182 | Start-up leaves between 1000 bytes and one alignment more, and the total is a multiple of the alignment |
| `StaticTls.MaxAlignIsGreatest` | vdl-tls.c:115-118 | The alignment is at least the initial one and that of every placed image, and is one of them |
| `StaticTls.BlocksLaid` | vdl-tls.c:101-120 | One pass lays its blocks apart, aligned, between the old and the new size |
| `StaticTls.OpenedValid` | vdl-tls.c:127-139 | An opening that succeeds keeps the layout, one that fails leaves it |
| `StaticTls.StaticArea.InitializeStaticTls` | vdl-tls.c:90-125 | The loop computes the size, the alignment and every offset as specified |
| `StaticTls.StaticArea.InitializeMain` | vdl-tls.c:169-182 | Start-up sets current size, total size and alignment |
| `StaticTls.StaticArea.Initialize` | vdl-tls.c:127-139 | Success exactly when the new size stays below the total; then the area is the opened one |
| `Align.AlignDownIs` | vdl-utils.c:203-211 | The greatest multiple at or below the value |
| `Align.AlignUpIs` | vdl-utils.c:212-220 | The least multiple at or above the value |
| `HeapModel.HeapIsPartitioned` | alloc.c:47-197 | Over every sequence of mallocs and frees of live pointers each chunk below its break splits exactly into header, live, free and leaked blocks, all disjoint; bucket b holds blocks of 2^(b+3); live blocks hold their request and header |
| `HeapModel.AllocatedValid` | alloc.c:94-124 | Every allocation keeps the partition and hands out a block that holds the request and was not live |
| `HeapModel.FreedValid` | alloc.c:126-160 | Freeing a live block keeps the partition |
| `HeapModel.FreeThenAllocate` | alloc.c:94-136 | A freed small block is the one the next allocation of its bucket returns |
| `HeapModel.BlockIsNoChunk` | alloc.c:137-159 | No block is a chunk with its rounded size: the large branch of free never unmaps |
| `HeapModel.DefaultChunkSuffices` | alloc.c:61-75 | After mapping one chunk the repeated search succeeds: alloc_brk calls itself at most once |
| `HeapModel.MapsOnlyWhenFull` | alloc.c:61-75 | A chunk is added exactly when none has room; otherwise the first that has gives the block and only its break moves |
| `HeapModel.WithChunkIs` | alloc.c:47-59 | A new chunk is whole pages, larger than asked for by at most one, and starts with a header of 32 bytes |
| `HeapModel.RoundToIs` | alloc.c:37-45 | The next multiple strictly above the value |
| `HeapModel.BucketIsTight` | alloc.c:76-92 | A bucket's size is the least power of two of at least 8 that holds the request |
| `HeapModel.BlocksDisjoint` | alloc.c:61-75 | Different blocks of a valid heap do not overlap |
| `HeapCode.Alloc.AllocChunk` | alloc.c:47-59 | A new chunk, rounded to pages, at the head of the chunk list |
| `HeapCode.Alloc.AllocBrk` | alloc.c:61-75 | The block is cut from the first chunk with room, or from a new one |
| `HeapCode.Alloc.DoMalloc` | alloc.c:94-124 | Reuse, cut or map, as the specified allocation |
| `HeapCode.Alloc.Malloc` | alloc.c:183-189 | The user pointer is 8 bytes past a block that was not live and holds the request and 8 bytes; the word in front is the size |
| `HeapCode.Alloc.DoFree` | alloc.c:126-160 | The heap becomes the freed one; the intrusive free list gets the block at its head |
| `HeapCode.Alloc.Free` | alloc.c:191-197 | The size is read back from the header and the block returned |
| `HeapCode.Alloc.SizeToBucket` | alloc.c:76-87 | The shift loop computes the bucket |
| `Unload.NothingDangles` | vdl-dl.c:213-255 | Over every interleaving of closes, bindings and opens that meet no claimed file, the dependencies, bindings and local scope of every unclaimed file and every global scope name mapped, unclaimed files, and a file with a count is never claimed |
| `History.EveryRunIsTold` | vdl-dl.c:153-398 | After every run: each count is the opens less the closes, each record holds the bindings of the run latest first, each scope is what was opened or published without what has been claimed, in order, and the link map is what was mapped without what was unmapped, in order |
| `History.CountIsOpensLessCloses` | vdl-dl.c:211-351 | A mapped file is held as often as it was opened and not closed, the loader once more |
| `History.BindingHolds` | vdl-lookup.c:460-464 | If a symbol of one file was found in another during a run and the first is still unclaimed, the other is mapped and unclaimed |
| `History.CloseKeepsExactly` | vdl-dl.c:340-376 | After the first half of a close the unclaimed files are exactly those a held file still reaches; each keeps of its local scope, and each context of its global scope, exactly its unclaimed entries in order; but for one count nothing else changes |
| `History.BindRecords` | vdl-lookup.c:460-464 | A binding to another file comes first in the record, the older ones stay behind it, and no other record or list changes |
| `History.OpenPublishes` | vdl-dl.c:216-227 | An RTLD_GLOBAL open leaves the old global entries in front and lists every file of the scope once; any other leaves the lists alone |
| `Finalizing.FinalizedInOrder` | vdl-dl.c:371-398 | Whatever other threads do meanwhile, the files a close claims are finalized in the order they were sorted into, each once, and all of them before it unmaps them |
| `Unload.ClosersInterleave` | vdl-dl.c:340-398 | Over every interleaving of any number of closers, bindings and opens that meet no claimed file, each file is finalized, taken off the link map and unmapped at most once, in that order, and every step, opens included, touches only mapped files and those it maps itself |
| `Unload.QuietMeansAllActive` | vdl-dl.c:340-398 | When no close is under way no file is left claimed |
| `Unload.LiveIsActive` | vdl-gc.c:16-92 | What the collector keeps is mapped, unclaimed, closed under references and contains every held file |
| `Unload.CloseBegunValid` | vdl-dl.c:340-376 | The first half of a close keeps the store valid, and garbage once claimed stays garbage |
| `Unload.CloseEndedValid` | vdl-dl.c:380-388 | The second half of a close keeps the store valid |
| `Unload.BoundValid` | vdl-lookup.c:460-464 | Recording a binding keeps the store valid |
| `Unload.OpenedValid` | vdl-dl.c:211-255 | A successful open that meets no claimed file keeps the store valid |
| `Unload.OpenKeepsExactly` | vdl-dl.c:153-255 | For a valid store and whatever a mapping can return, a successful open keeps the store valid exactly when neither the requested file nor an older dependency of the new files has been claimed by a closer |
| `Unload.ReopeningAClaimedFile` | vdl-dl.c:340-398 | Concrete run: a library opened and half closed, opened again while the lock is dropped, has a count of one and is unmapped by the closer |
| `Unload.HalfClosedIsReached` | vdl-dl.c:340-376 | The state of that example is reached by an open and the first half of a close |
| `Unload.TouchedIsMapped` | vdl-dl.c:153-398 | Whatever a step reads or writes is a mapped file, or one the step itself maps |
| `Unload.StepKeeps` | vdl-dl.c:153-398 | Every step of every thread, opens that meet no claimed file among them, keeps the whole invariant |
| `Dl.RemoveFromScopes` | vdl-dl.c:322-338 | The file leaves every local scope and its global scope |
| `Dl.RemoveAllFromScopes` | vdl-dl.c:359-369 | All garbage leaves the kept files' scopes |
| `Dl.FiniLock` | vdl-fini.c:52-74 | Exactly the files nobody had claimed are returned, in order, and all are claimed |
| `Dl.Loader.SearchFile` | vdl-dl.c:99-111 | Found exactly when the handle is on the link map |
| `Dl.Loader.DlcloseBegin` | vdl-dl.c:340-376 | The records and lists in memory become those of the first half of a close; the claimed files are the garbage stably sorted by depth without those other closers have claimed; an unknown handle changes nothing |
| `Dl.Loader.DlcloseEnd` | vdl-dl.c:378-388 | The records and lists become those of the second half of a close |
| `Dl.Loader.RemoveRange` | vdl-linkmap.c:57-64 | The files leave the link map |
| `Dl.Loader.Bind` | vdl-lookup.c:460-464 | Another file goes to the front of the record, and everything else stays |
| `Dl.Loader.OpenScope` | vdl-dl.c:213-215 | The scope of an opening is the breadth-first listing of the requested file's dependencies |
| `Dl.Loader.DlopenCommit` | vdl-dl.c:211-255 | The records and lists become those of the open: count, global scope, local scopes, lookup types, link map |
| `Gc.GcRun` | vdl-gc.c:94-126 | Unload is exactly what no held file reaches through bindings and dependencies, the rest is kept, both in link-map order |
| `Gc.WhiteListNew` | vdl-gc.c:16-92 | The collector terminates and returns exactly the unreached files in list order |
| `Gc.Sweep` | vdl-gc.c:20-38 | The first sweep establishes the tri-colour invariant |
| `Gc.Blacken` | vdl-gc.c:42-74 | Blackening one file keeps it, with no edge from black to white, and leaves fewer files unfinished |
| `Gc.Shade` | vdl-gc.c:47-59 | The white files among the references turn grey, each pushed once |
| `Gc.SecondPassFindsNothing` | vdl-gc.c:116-119 | On the kept files the collector finds nothing white |
| `Gc.WhiteIsUnreached` | vdl-gc.c:77-89 | With no grey file left, white is unreached |
| `Gc.ClosedIsCollectable` | vdl-gc.c:94-99 | A duplicate-free link map closed under references meets the collector's precondition |
| `Sort.BreadthFirst` | vdl-sort.c:49-74 | Every file reachable through dependencies exactly once, the root first, in non-decreasing shortest distance; terminates on any finite graph |
| `Sort.ListDeps` | vdl-sort.c:61-70 | Expanding one file keeps the frontier ordered by distance |
| `Sort.IncreasingDepth` | vdl-sort.c:23-47 | A stable sort by depth, none before a file of smaller depth |
| `Depth.StablySortedElements` | vdl-sort.c:23-47 | A stable sort by depth has the same elements, and is duplicate-free when its input is |
| `Breadth.FrontierExtended` | vdl-sort.c:65-69 | A file not yet listed is one step further away than the file being expanded |
| `Breadth.NearFirst` | vdl-sort.c:49-74 | No file stands before one that is closer to the root |
| `SymbolIndex.GnuYieldsTheScan` | vdl-lookup.c:79-114 | Through DT_GNU_HASH exactly the hashed, named and defined symbols of that text, in increasing order |
| `SymbolIndex.SysvYieldsTheScan` | vdl-lookup.c:115-136 | Through DT_HASH exactly the defined symbols of the name, each once |
| `SymbolIndex.BloomDropsNothing` | vdl-lookup.c:93-103 | When the Bloom filter fails the name has no hashed symbol |
| `SymbolIndex.BucketHoldsMatches` | vdl-lookup.c:105-112 | All matches of a name lie in its bucket, and the low bits mark where it ends |
| `SymbolIndex.LookupIterator.Begin` | vdl-lookup.c:63-143 | What the new iterator will yield is what the file's index stands for |
| `SymbolIndex.LookupIterator.HasNext` | vdl-lookup.c:145-221 | True exactly when something remains; nothing is skipped |
| `SymbolIndex.LookupIterator.ElfHasNext` | vdl-lookup.c:152-177 | The chain walk stops just before the next match |
| `SymbolIndex.LookupIterator.GnuHasNext` | vdl-lookup.c:178-213 | The bucket walk stops at the next match or at the end mark |
| `SymbolIndex.LookupIterator.Next` | vdl-lookup.c:224-263 | The first of what remains, which is a match, and the rest remains |
| `SymbolIndex.LookupIterator.GnuNext` | vdl-lookup.c:240-255 | Stepping past a match, or past the end of the bucket |
| `Scope.ResolveIsFirstAcceptable` | vdl-lookup.c:419-520 | The walk answers with the first file of the scope that has an acceptable match and the best match of that file, and misses exactly when there is none |
| `Scope.LookedIsFirstAcceptable` | vdl-lookup.c:543-573 | For each of the four lookup types: the best match of the first acceptable file of the scopes, one after the other, and no hit exactly when none of their files is acceptable |
| `Scope.InFileIs` | vdl-lookup.c:439-514 | In a file: the first perfect match, or else the first ambiguous one |
| `Scope.UnicizeKeepsLookups` | vdl-list.c:278-292 | Unicizing a scope changes no lookup |
| `Scope.GrowthKeepsResolved` | vdl-dl.c:216-227 | Appending files to any scope and unicizing keeps every resolved lookup; the new files answer only what was missed |
| `Scope.PublishingMoves` | vdl-dl.c:216-227 | Exactly when publishing files in the global scope moves a two-scope lookup |
| `Scope.NullScopeExactly` | vdl-lookup.c:543-573 | The null second scope is walked exactly when a single-scope lookup misses |
| `Scope.WalkFile` | vdl-lookup.c:447-505 | The loop over one file's matches chooses the specified one |
| `Scope.LookupWithScope` | vdl-lookup.c:419-520 | The scope walk computes the specified answer and records the binding for the requesting file |
| `Scope.Lookup` | vdl-lookup.c:522-575 | The first acceptable file of global and then local scope, or the reverse, by lookup type; the file found is recorded |
| `Scope.Record` | vdl-lookup.c:460-464 | A binding to another file goes to the front of the list; none to itself or without a file |
| `List.LinkedList.constructor` | vdl-list.c:27-36 | Two sentinels linked to each other |
| `List.LinkedList.Insert` | vdl-list.c:88-99 | One item more, before the given position |
| `List.LinkedList.Erase` | vdl-list.c:157-171 | One item less; the next position is returned |
| `List.LinkedList.EraseRange` | vdl-list.c:172-193 | Exactly the range is cut and the size lowered by its length |
| `List.LinkedList.Clear` | vdl-list.c:151-156 | Only the sentinels are left |
| `List.LinkedList.FindFrom` | vdl-list.c:139-150 | The first occurrence from the position on, or end |
| `List.LinkedList.Remove` | vdl-list.c:194-203 | All occurrences go, the order stays |
| `List.LinkedList.Reverse` | vdl-list.c:204-226 | The list is reversed in place, item by item |
| `List.LinkedList.InsertRange` | vdl-list.c:100-108 | The range of another list is copied in; the other list is unchanged |
| `ListModel.SelfInsertEndsExactly` | vdl-list.c:100-108 | A range inserted into its own list: the loop ends, with the range copied in front of the position, exactly unless the position lies in the range behind its first element |
| `List.LinkedList.PushBack` | vdl-list.c:109-112 | One element at the end |
| `List.LinkedList.PushFront` | vdl-list.c:113-116 | One element at the front |
| `List.LinkedList.Sort` | vdl-list.c:227-259 | The contents become the insertion sort of the old ones |
| `List.LinkedList.Unicize` | vdl-list.c:278-292 | Only the first occurrence of each pointer stays, in order |
| `ListModel.InsertionSortSorts` | vdl-list.c:227-259 | For every strict weak order the sort gives an ordered permutation, and reverses the order of equivalent elements |
| `ListModel.UnicizedErased` | vdl-list.c:285-290 | Erasing a later occurrence changes nothing of the unicized list |
| `Seqs.UnicizedExtends` | vdl-dl.c:216-227 | A duplicate-free list stays at the front when more is appended and unicized |
| `Seqs.UnicizedDistinct` | vdl-list.c:278-292 | A unicized list has no duplicates |
| `LinkMap.Globals.Append` | vdl-linkmap.c:7-27 | At the end unless present; n_added counts neither the first file nor one already present |
| `LinkMap.Globals.Remove` | vdl-linkmap.c:36-56 | The file leaves the map; removing a file that is not in it loses the whole map |
| `LinkMap.Globals.Copy` | vdl-linkmap.c:66-75 | The files in order |
| `Mem.MemMove` | vdl-mem.c:17-49 | Refused exactly for a non-empty range onto itself; otherwise, overlapping or not, the destination receives what the source held before the call, and nothing else changes |
| `Mem.MemCpy` | vdl-mem.c:4-16 | Wherever the two ranges lie: a forward copy of the length cut to a signed 32-bit counter, which repeats the bytes ahead of a destination inside its own source |
| `Mem.CopyIsWholeExactly` | vdl-mem.c:6 | The copy is complete exactly for lengths below 2^31 |
| `Mem.CopyCountIsSigned` | vdl-mem.c:6 | What is copied is the low half of the length as a signed integer, and nothing when that is negative |
| `Mem.CopyIsMove` | vdl-mem.c:4-16 | When the destination does not run into its source, copying is moving |
| `Mem.TailFirst` | vdl-mem.c:29-36 | Moving up: the tail, then the rest, is the whole move |
| `Mem.HeadFirst` | vdl-mem.c:37-44 | Moving down: the head, then the rest, is the whole move |
| `Fini.FinalizedFile.CallFini` | vdl-fini.c:10-50 | The array backwards, then DT_FINI, then the notification of the context; nothing for a file never initialized |
| `Fini.FinalizedFile.FinalizersAre` | vdl-fini.c:28-49 | Which call comes at which position: function i of the array that far from the end, then DT_FINI, then the notification |
| `Fini.FiniCall` | vdl-fini.c:77-80 | The finalizers and notifications of file after file, each once |
| `Segment.PtLoadToFileMap` | vdl-map.c:62-92 | Whole pages around the segment, the file pages at the same distance, and a tail to zero within one page and off the file's bytes |
| `Segment.AddressSpace.LoadSegment` | vdl-map.c:525-578 | The first filesz bytes equal the file's, the bytes up to memsz are zero, other pages keep bytes and protection |
| `Segment.AddressSpace.FileMapDo` | vdl-map.c:525-578 | Every byte of the segment's pages, and the protection, after mapping, zeroing and the anonymous end |
| `Segment.AddressSpace.ZeroInPage` | vdl-map.c:540-562 | The memset writes mapped, writable bytes of one page whose protection is restored |
| `Segment.AddressSpace.MemSet` | vdl-mem.c:50-58 | Exactly the range becomes the low byte of the value |
| `Segment.SegmentByteIs` | vdl-map.c:525-578 | The order map, zero, replace gives each address the byte of the image |
| `Deps.Mapper.MapFromFilename` | vdl-map.c:900-932 | From a settled store: on success everything the requested file reaches is initialized with dependencies that answer its DT_NEEDED in order, for its own search path followed by that of a file that needs it; each mapped file is listed once, in mapping order; no identity is mapped twice in a context; an error means that the filename cannot be resolved, or the next needed name of a file the requested one reaches |
| `Deps.Mapper.MapDepsRecursive` | vdl-map.c:782-849 | The recursion terminates on cyclic graphs; on success it initializes the file and keeps every initialized file complete and, outside the calls under way, closed; on an error a file it reaches is blocked |
| `Deps.Mapper.MapDepsOf` | vdl-map.c:830-841 | The second loop: every dependency is initialized, with the rpath of this file handed down, or one of them reaches a blocked file |
| `Deps.Mapper.MapNeeded` | vdl-map.c:806-829 | The first loop: every needed name is answered, in order, by a file deeper than this one was on entry; an error means that the next name cannot be resolved |
| `Deps.Mapper.MapOneNeeded` | vdl-map.c:810-828 | One needed name: mapped at most once, listed if new, recorded |
| `Deps.Mapper.MapSingleMaybe` | vdl-map.c:721-780 | A file of that name first, then the file of the identity found, then a new mapping; refused exactly when the search finds nothing |
| `Deps.FindByName` | vdl-map.c:192-216 | The first file of the context with that name or soname; the loader itself for ldso |
| `Deps.FindByDevIno` | vdl-map.c:217-234 | The first file of the context with that device and inode |
| `Deps.WithDepIs` | vdl-map.c:826-828 | Recording a dependency sets its depth to the greater of its own and one more than that of the file, appends it, and changes no other record |
| `Deps.SettledReachesComplete` | vdl-map.c:782-849 | In a settled store everything an initialized file reaches is initialized and complete |
| `Deps.OutstandingMapped` | vdl-map.c:810-828 | Mapping a new file does not add to the termination measure |
| `Deps.OutstandingInitialized` | vdl-map.c:790-795 | Marking a file initialized lowers the termination measure |
| `Printf.OutputUnsignedInt` | avprintf-cb.c:188-276 | The characters written are the specified ones, digits by descending powers |
| `Printf.WritesC99Exactly` | avprintf-cb.c:188-276 | For all flags, '#' included, the text is the one C99 (section 7.19.6.1) asks for exactly when both padding differences fit in a signed char and no zero is lost to zero-filling |
| `Printf.WidthsUpTo127Fit` | avprintf-cb.c:193-204 | Widths up to 127 and precisions up to 127, with '#' up to 126, always fit |
| `Printf.OutputSignedInt` | avprintf-cb.c:278-292 | The sign, then the whole field of the magnitude |
| `Printf.SignedMatchesExactly` | avprintf-cb.c:278-292 | A signed number is written as C99 asks for exactly when both padding differences fit in a signed char and: without a sign, no zero is zero-filled; with one, there is nothing to fill, or a zero is zero-filled to at least two characters |
| `Printf.C99Length` | avprintf-cb.c:203-204 | The C99 text is as long as the width or as prefix, digits and missing zeros, whichever is greater |
| `Printf.WrittenReadsBack` | avprintf-cb.c:258-271 | For every width and precision the digits read back as the number |
| `Printf.LocalPower` | avprintf-cb.c:175-186 | The power, without wrapping when it fits in 64 bits |
| `Printf.CountDigits` | avprintf-cb.c:197-201 | The division loop counts the digits |
| `Printf.PutDigits` | avprintf-cb.c:258-271 | The digits from the highest power down |
| `Digits.DigitsReadBack` | avprintf-cb.c:258-271 | The digits are below the base, read back as the number, and start with a non-zero one |
| `Digits.DigitCountBounds` | avprintf-cb.c:197-201 | The number of divisions is the number of digits |
| `Format.StepProgresses` | avprintf-cb.c:415-794 | Every step of the nine-state machine consumes a character or lowers its rank, but for '$' in the precision |
| `Format.LoopEndsExactly` | avprintf-cb.c:415-794 | For every format and argument list the loop ends exactly unless the walk of the format comes to stand at '$' in a precision and the arguments carry it there |
| `Format.DollarInPrecisionLoops` | avprintf-cb.c:590-595 | The format "%.$" never ends, whatever the arguments |
| `Format.DollarInTextPasses` | avprintf-cb.c:422-434 | A format without '%' never meets '$' in a precision |
| `Format.DollarAfterWidthEnds` | avprintf-cb.c:529-534 | The format "%5$d" ends |
| `Format.AvprintfCb` | avprintf-cb.c:394-806 | On every format and argument list for which the loop ends, it terminates with the specified result |
| `FormatSpec.RenderSpec` | avprintf-cb.c:415-794 | A specification of flags, width, precision, length modifier and conversion, widths and precisions from arguments included, writes what its parts ask for wherever it stands; the rest of the format goes on with the arguments left |
| `FormatSpec.FormatIsRendered` | avprintf-cb.c:394-806 | Any sequence of plain text, "%%" and conversions writes, piece after piece, what it asks for, and a null character |
| `FormatSpec.HornerIs` | avprintf-cb.c:537-574 | The digits of a width or a precision accumulate to the decimal number they spell |
| `FormatC99.SpecPrintsC99` | avprintf-cb.c:394-806 | Stated on the specification alone: an integer conversion writes the numeral of its argument as the named type, in base 8, 10 or 16 and the letters of the conversion, in the field C99 (section 7.19.6.1) asks for, exactly when the width and precision fit and no sign or zero is misplaced |
| `FormatC99.UnsignedReadsBack` | avprintf-cb.c:717-751 | The text of %o, %u, %x and %X reads back in base 8, 10, 16 and 16 as the argument cut to the named size |
| `FormatC99.SignedReadsBack` | avprintf-cb.c:680-688 | The text of %d and %i is a sign and digits that read back in base 10 as the argument as the named signed type |
| `FormatC99.SignedIsCut` | avprintf-cb.c:294-375 | Reading an argument and applying the length modifier gives the argument as the named type |
| `FormatText.StringPrints` | avprintf-cb.c:699-716 | %s writes its argument up to the precision, exactly when what it looks at, one character more, is ASCII |
| `FormatText.StringRefused` | avprintf-cb.c:699-716 | Otherwise it writes the characters in front of the first other one and a message, and the format ends |
| `FormatText.CharPrints` | avprintf-cb.c:689-698 | %c writes the low byte of its argument when that is ASCII |
| `FormatText.PointerPrints` | avprintf-cb.c:662-679 | %p writes "(nil)" or digits that read back in base 16 as the address |
| `FormatText.PlainPointerPrints` | avprintf-cb.c:662-679 | Without flags, width and precision %p writes "0x" and the lower-case numeral |
| `FormatText.CountStores` | avprintf-cb.c:760-775 | %n stores how many characters have been written and writes none; a null pointer ends the format |
| `FormatText.ArgumentsInOrder` | avprintf-cb.c:517-589 | Width, precision and operand are taken from the arguments in that order |
| `FormatText.FormatPrintsC99` | avprintf-cb.c:394-806 | A whole format is the concatenation of what each piece asks for, each conversion with its own arguments, whenever its integer conversions agree with C99 |
| `FormatRefusals.RefusalReported` | avprintf-cb.c:435-793 | After any flags, what the machine says of each specifier and modifier it does not take, and that the format ends there |
| `FormatRefusals.NotAsciiReported` | avprintf-cb.c:422-434 | A character that is not ASCII ends the format after the text in front of it |
| `FormatRefusals.WidthDollarReported` | avprintf-cb.c:529-534 | A width followed by '$' ends the format |
| `FormatRefusals.SizeModifiersWriteZero` | avprintf-cb.c:616-637 | With j, z, t or Z an integer conversion writes 0 and takes no argument |

## Left out

- System calls, assembly, start-up stages, trampolines and the patching of the C library: foreign effects. Only the meaning of compare-and-exchange, decrement, futex wait and wake, mmap, munmap, mprotect and memset is kept.
- File search, path expansion, environment, logging, debugger hooks and finalizer or initializer code: outside the state the properties speak of.
- The failing dlopen path, and contexts that are deleted.
- vdl_tls_dtv_deallocate, the release of a TCB at thread exit and the memory of the vectors themselves.
- Reuse of an address for a new file while an old record is still claimed: files are identities that are never reused.
- The local scopes and the link map that start-up builds for the main program: runs start with the loader alone and open everything else.
- 64-bit wrap-around of generations, counters and addresses. Heap sizes plus rounding are required to fit in 32 bits, as the code needs.
- Absolute alignment of heap blocks and of the TCB, which the code does not promise.
- Hash function values and the version tables behind the three-way verdict: the lookup does not depend on them.
- vdl_list_unique, vdl_memcmp and alloc_destroy: they would only add easy members, or do not do what their names say.
- A depth propagated to files already visited: the code does not propagate it, so only a stable sort by depth is claimed.
- List.LinkedList.InsertRange: the source list is another list, as in every call of the loader; the same list is treated on sequences, in `ListModel.SelfInsertEndsExactly`.
- List.LinkedList.Sort: the comparison is a pure function of the two pointers.
- Mem.MemMove: no piece it is copied in reaches 2^31 bytes, because longer ones are cut by the counter of vdl_memcpy; the buffers are ranges of one array.
- Dl.Loader.DlcloseBegin: the scopes and the link map are sequences in the records, not the linked structures of `List` and `LinkMap`, which are verified on their own.
- Deps.Mapper.MapSingleMaybe: files are positions in one store, the loaded list of a context being its files in that store's order; mapping itself does not fail, as the code asserts.
- Segment.AddressSpace.LoadSegment: one segment at a time; overlapping segments and the reservation of the whole range are not modelled, and a segment with no memory, which mmap refuses, is excluded.
- Format.AvprintfCb: formats and arguments for which the loop ends, see `Format.LoopEndsExactly`; widths and precisions are unbounded integers until they are cut to signed chars, and HAVE_STDINT_H and HAVE_STDDEF_H are undefined, as in the build, so j, z and t read no argument.
- Printf.OutputUnsignedInt: char is signed, as on the loader's x86 targets.
- TlsRuntime.AddressIsStable: accesses are to loaded modules whose index is within the updated vector, see `TlsRuntime.FreshDtvFitsExactly`.
- TlsLoader.Runtime.AllocateBlock: the template is a constant of the file, not read from memory.
- Unload.NothingDangles: opens that meet no claimed file, see `Unload.OpenKeepsExactly`.
- Unload.OpenedValid: opens that meet no claimed file, see `Unload.OpenKeepsExactly`.
- Unload.StepKeeps: opens that meet no claimed file, see `Unload.OpenKeepsExactly`.
- Dl.Loader.OpenScope: opens that meet no claimed file, because the dependencies of a claimed file may be unmapped already; see `Unload.OpenKeepsExactly`.
- FormatSpec.RenderSpec: the modifiers j, z, t and Z only with nothing else, in `FormatRefusals.SizeModifiersWriteZero`, and 'S', 'C', 'L', 'q' and the floating-point conversions, which end the format, in `FormatRefusals.RefusalReported`.
- FormatText.CountStores: the counts are listed in order, not written to the addresses in the arguments or cut to the size they name.
- FormatText.PointerPrints: the layout of %p with flags, width or precision, which C99 leaves to the implementation.
- TlsSpace.NothingOverlaps: the allocator's and the kernel's choices of address are free memory, as the heap model proves of its own blocks.
