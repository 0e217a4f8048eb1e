# Verified models of Tor's bundled components

Dafny models of six pieces of the Tor source, with proofs of what they are for. Each model takes the
form of the code: the allocator, the hash table, the queues, the encoders, the parsers and the hash are methods that
update fields and buffers step by step, and each is proved against a specification whose own properties are proved
beside it. Pure string functions stay functions.

- **The page and fragment allocator** (`src/ext/OpenBSD_malloc_Linux.c`): `PageDirectory`, `Directory`, `FreeList`,
  `Partition` and `PageHeap` for whole pages; `Bitmap`, `Chunks` and `Malloc` for fragments; `Blocks`, `Pointers`,
  `Allocator`, `AllocatorRuns` and `AlignedMap` on top. Addresses and page indices are integers; `mmap` is a parameter
  that answers with a region of pages nobody holds, or with failure; `munmap` is one that says whether it succeeded.
  The invariant says that each mapped page belongs to exactly one live run (its guard page included) or to one
  entry of the free list, that the marks in the directory agree with that, that every directory page counts its
  mapped pages exactly, that the free list is sorted, disjoint and fully coalesced, and that every page of chunks
  counts its free chunks and is on its bucket list if and only if it has one. What follows for a program is
  `AllocatorRuns.Execute`: over every run, the allocator is a table of byte strings named by their addresses.
- **The intrusive hash table** (`src/ext/ht.h`): `Rows`, `Chains`, `Orders`, `Rehash`, `HashTable`. Elements are
  addresses, next pointers a memory from addresses to addresses, and the table refines a finite map from keys to
  elements. Two elements are equal for the caller's eqfn if they have the same key, so the hash respects equality.
- **Trunnel codecs** (`src/trunnel/`): `Wire` says what a codec is and what follows from that, `Buffers` models
  writing through an advancing pointer, and for each format one file holds the format, its round trips and what stands where
  (`CertFormat`, `LinkFormat`, `NetFormat`, `CellFormat`, `BoxFormat`, `SocksFormat`) and one the imperative encoders,
  parsers and length functions (`CertCodec`, `LinkCodec`, `NetCodec`, `CellCodec`, `BoxCodec`, `SocksCodec`). `Codecs`
  sums up.
- **Tail queues** (`src/ext/tor_queue.h`): `TailQueue`. Head and link are the same two words, which is what
  TAILQ_LAST and TAILQ_PREV rely on.
- **SipHash-2-4** (`src/ext/csiphash.c`): `SipHash`, on 64-bit vectors.
- **The `#if` annotator** (`scripts/maint/annotate_ifdef_directives.py`): `Strings`, `Nesting`, `Annotate`, and
  `AnnotatedTexts`, which has the output for whole texts letter by letter.

## What the proofs brought to light

- The comment at `src/ext/OpenBSD_malloc_Linux.c:1583-1586` says that a trimmed free-list entry keeps at least a page.
  It keeps none exactly if the other entries fill the cache (`TrimResult`; `EntryGone` has a list on which it
  does not). The code that follows handles that.
- malloc_cache - cachesize wraps exactly if the entries that a freed run does not extend hold more than malloc_cache.
  Without a failing munmap they never do (`Execute`); after one they can (`RoomWraps`), and then the cache is above its
  bound and nothing is given back (`TrimResult`).
- ifree and irealloc take for a block, exactly, what `Misread` says: the start of a guard page, the start of a slot that
  a header occupies, and an address in a page without a directory page where a block, guard page or header slot is at
  the same place of the page that is read instead (`AcceptedExactly`). There is a state for each (`GuardExample`,
  `HeaderExample`, `GapExample`), and what goes wrong in each (`GuardLost`, `FreeBytes`, `GapLost`).
- With guard pages, the size check at the start of imalloc lets sizes through whose rounded size plus guard leaves
  size_t (`RoundedSizeFits` has the exact condition).
- The conditional in pdir_lookup that picks the starting hint does not parse as a comparison of two distances. The
  answer does not depend on the hint (`PdirLookup`).
- MMAP_A does not look at the result of mmap. A failure comes out as NULL, not as MAP_FAILED, and memory behind the
  address that equals the rounded size is unmapped, as much as the alignment is more than a page (`MmapA`).
- irealloc keeps a block for exactly the sizes that malloc would give a block as large for, and one page also for sizes
  that a chunk would do for; so realloc to the size that a block was allocated with never moves it and never fails, but
  for size 0, which always moves (`PagesSuit`, `ChunkSuits`).
- malloc_good_size falls short of what malloc gives for sizes from 1 to 8 (`GoodSize`).
- The bits behind the last slot of a bitmap keep whatever memory held. Neither walk reaches them (`Walk`).
- A bucket list that gets a page again is in address order afterwards, as a comment says, if and only if it was and
  the page is below all on it (`OrderKept`, `OrderLost`). Nothing depends on the order.
- map_pages raises the upper bound before the request for directory pages, which may fail. The bound stays raised and
  stays a bound (`MapPages`).
- HT_REPLACE of an element that is in the table already counts it twice (`Replace`), and HT_GROW reads behind the list
  of primes if the last prime is too small for the size asked for (`ClimbStops`).
- The docstring of uncomment in the annotator speaks of #else and #endif lines; it is the conditions of #if, #ifdef and
  #ifndef lines that are uncommented, and a comment in the middle of a condition takes the rest of it along.

## Model

| member | source | states |
|---|---|---|
| PageDirectory.FloorUnique | src/ext/OpenBSD_malloc_Linux.c:301-344 | there is at most one directory page of greatest index not above a target, so every starting hint of the lookup has the same answer |
| PageDirectory.SlotsOfPage | src/ext/OpenBSD_malloc_Linux.c:186-199 | 508 slots and the 32 bytes of a struct pdinfo are a page; dirnum counts in units of all 512 slots of a page |
| PageDirectory.CountRoom | src/ext/OpenBSD_malloc_Linux.c:593-654 | a count that a new region adds to stays within the slots of a directory page, so it never runs into the index part of dirnum |
| PageDirectory.CountedKeyed | src/ext/OpenBSD_malloc_Linux.c:196-199 | with counts below the unit of dirnum, PD_IDX(dirnum) is the index of the directory page |
| PageDirectory.InsertLinked | src/ext/OpenBSD_malloc_Linux.c:613-628 | a directory page linked in behind its floor keeps the list sorted, complete and doubly linked |
| PageDirectory.RemoveLinked | src/ext/OpenBSD_malloc_Linux.c:1624-1659 | so does unlinking one that is not the head |
| DirectoryPages.Directory.PdirLookup | src/ext/OpenBSD_malloc_Linux.c:301-344 | whatever the cached hints, the directory page of greatest index not above the target; 0 if and only if the target has one |
| DirectoryPages.Directory.EnterDir | src/ext/OpenBSD_malloc_Linux.c:613-653 | one round of the loop: the directory page is there, and its count covers its share of the region |
| DirectoryPages.Directory.MapRange | src/ext/OpenBSD_malloc_Linux.c:593-654 | all directory pages of a region exist, the counts are exact up to the pages to be marked, no mark has changed; it fails only for want of memory, and then nothing has changed |
| DirectoryPages.ShareIsOverlap | src/ext/OpenBSD_malloc_Linux.c:629-640 | the three increments of map_pages are the number of pages of the region in each directory page |
| DirectoryPages.Directory.MarkRun | src/ext/OpenBSD_malloc_Linux.c:967-1014 | FIRST, then FOLLOW to the end of the run across directory pages, FIRST for a guard, and no other mark changes |
| DirectoryPages.Directory.RunBytes | src/ext/OpenBSD_malloc_Linux.c:1343-1361 | the FOLLOW scan of irealloc finds exactly the bytes of the run |
| DirectoryPages.Directory.FreeMarks | src/ext/OpenBSD_malloc_Linux.c:1439-1492 | the FOLLOW scan of free_pages finds exactly the pages of the run and marks those, and the guard, free |
| DirectoryPages.Directory.FindFrom | src/ext/OpenBSD_malloc_Linux.c:1600-1602 | the walk along next finds the directory page |
| DirectoryPages.Directory.Unmap | src/ext/OpenBSD_malloc_Linux.c:1604-1660 | the unmapped pages leave the directory, counts stay exact, empty directory pages are unlinked, the head never |
| FreeLists.CarveKeeps | src/ext/OpenBSD_malloc_Linux.c:862-942 | cutting a run from an entry keeps the list sorted, disjoint and coalesced; exactly the bytes cut leave it |
| FreeLists.TrimKeeps | src/ext/OpenBSD_malloc_Linux.c:1580-1592 | so does trimming the end of an entry, down to nothing |
| FreeLists.GrownAt | src/ext/OpenBSD_malloc_Linux.c:1534-1568 | the entry that free_pages extends by a run is the first that touches it |
| FreeLists.EnterBefore | src/ext/OpenBSD_malloc_Linux.c:1534-1541 | a new entry between two that it does not touch keeps the list coalesced; cachesize is the total of the others |
| FreeLists.EnterGrow | src/ext/OpenBSD_malloc_Linux.c:1542-1560 | growing an entry at either end does too; cachesize leaves out the grown entry |
| FreeLists.EnterBridge | src/ext/OpenBSD_malloc_Linux.c:1542-1554 | appending that reaches the next entry absorbs it; cachesize still counts it and is so an upper bound |
| PagePartition.LiveRunsAreSafe | src/ext/OpenBSD_malloc_Linux.c:848-1029 | a page of a live run, guard included, is in no other live run and in no free entry, and is marked as in use |
| PagePartition.RunIsMaximal | src/ext/OpenBSD_malloc_Linux.c:1450-1472 | what follows a run is no FOLLOW, so that the scans end where the run does |
| PagePartition.EnterRun | src/ext/OpenBSD_malloc_Linux.c:967-1017 | marking pages that were free or unmapped as a run keeps the partition of pages into live runs and free entries |
| PagePartition.LeaveRun | src/ext/OpenBSD_malloc_Linux.c:1439-1573 | freeing a run keeps it |
| PagePartition.ReturnPages | src/ext/OpenBSD_malloc_Linux.c:1580-1665 | giving pages back to the system keeps it |
| PagePartition.Remark | src/ext/OpenBSD_malloc_Linux.c:1121-1135 | turning a one-page run into a page of chunks, or back, keeps it |
| PagePartition.NotTwice | src/ext/OpenBSD_malloc_Linux.c:848-1029 | no run is live twice |
| PageHeaps.RoundedSizeFits | src/ext/OpenBSD_malloc_Linux.c:1258-1264 | the size check of imalloc keeps the rounded size within size_t if and only if there is no guard page or the size is a page smaller than the check allows |
| PageHeaps.RoomIs | src/ext/OpenBSD_malloc_Linux.c:1580-1590 | malloc_cache - cachesize wraps exactly if cachesize is above malloc_cache, and is 0 exactly if they are equal |
| PageHeaps.TrimResult | src/ext/OpenBSD_malloc_Linux.c:1580-1592 | an entry cut to that leaves the cache within malloc_cache if the subtraction did not wrap; if it did, nothing is cut and the cache is over its bound; the entry is gone exactly if cachesize equals malloc_cache |
| PageHeaps.EntryGone | src/ext/OpenBSD_malloc_Linux.c:1582-1592 | a free list on which the comment that the entry keeps a page fails |
| PageHeaps.RoomWraps | src/ext/OpenBSD_malloc_Linux.c:1580-1592 | a free list, over its bound since a munmap failed, on which the subtraction wraps and everything is kept |
| PageHeaps.PageHeap.constructor | src/ext/OpenBSD_malloc_Linux.c:669-843 | no live run, no cached memory, the invariant, and a cache of as many pages as the option says, at least one |
| PageHeaps.PageHeap.FindFit | src/ext/OpenBSD_malloc_Linux.c:862-915 | the first entry that is large enough |
| PageHeaps.PageHeap.TakeCached | src/ext/OpenBSD_malloc_Linux.c:914-942 | the run is the start of that entry, and the entry keeps its tail with the right directory page: the hole in directories is unreachable |
| PageHeaps.PageHeap.MapPages | src/ext/OpenBSD_malloc_Linux.c:555-664 | the new region is in the directory, and malloc_brk is raised to its end if that is higher; or nothing is mapped, exactly if mmap fails or a directory page is needed and not to be had |
| PageHeaps.PageHeap.MallocPages | src/ext/OpenBSD_malloc_Linux.c:848-1029 | the run is cut from the first entry that is large enough, and exactly its bytes leave the cache, or it is mapped; one more live run of the pages asked for, all invariants kept; it fails only if no entry is large enough and a request to the system fails, and then changes no run |
| PageHeaps.PageHeap.AddFree | src/ext/OpenBSD_malloc_Linux.c:1500-1573 | the four cases of free_pages are all there are (the destroyed-freelist branch is unreachable), and the entry covers exactly the freed run |
| PageHeaps.PageHeap.ReturnToOs | src/ext/OpenBSD_malloc_Linux.c:1580-1711 | the entry is cut to malloc_cache - cachesize, in size_t, exactly if it is larger and munmap succeeds; the cache is within its bound after that if the subtraction did not wrap and above it if it did; the entry is gone exactly if cachesize equals malloc_cache |
| PageHeaps.PageHeap.GiveBack | src/ext/OpenBSD_malloc_Linux.c:1590-1711 | the trimmed end leaves free list and directory, and the invariant holds; the upper bound falls exactly if malloc_brk was the end of the entry and no directory page is left from there on, to the end of what stays of the entry, or, if nothing stays, to the last mapped page |
| PageHeaps.PageHeap.Release | src/ext/OpenBSD_malloc_Linux.c:1439-1573 | the scan recovers the length of the run, which becomes cached free memory |
| PageHeaps.PageHeap.FreePages | src/ext/OpenBSD_malloc_Linux.c:1417-1715 | exactly the run at the pointer goes out of use and whole-page accounting stays exact; the run is entered into the free list and exactly the end of its entry, behind malloc_cache - cachesize bytes, given back where munmap succeeds; the cache is then within its bound exactly if the entries that the run does not extend are; a bound that held is kept, and the subtraction then never wraps; a wrong pointer changes nothing |
| PageHeaps.RecachedBytes | src/ext/OpenBSD_malloc_Linux.c:1500-1592 | which memory is free afterwards: of the stretch of free memory that the freed run belongs to, all but the first malloc_cache - cachesize bytes go back to the system, and nothing else does |
| PageHeaps.PageHeap.ReadMark | src/ext/OpenBSD_malloc_Linux.c:1841-1854 | the mark that the lookup of a page leads to, which is that of another page if the page has no directory page |
| Bitmaps.CountSet | src/ext/OpenBSD_malloc_Linux.c:1211-1214 | flipping a bit changes the number of set bits by one |
| Bitmaps.NthUnique | src/ext/OpenBSD_malloc_Linux.c:1177-1210 | at most one position is the r-th set bit |
| Bitmaps.Walk | src/ext/OpenBSD_malloc_Linux.c:1177-1210 | both walks over the bitmap stay below the page's slots and end at the r-th set bit, whatever the bits behind the last slot are |
| Chunks.Log2Up | src/ext/OpenBSD_malloc_Linux.c:1160-1169 | the loop finds the exponent of the least power of two that is large enough |
| Chunks.HeaderNesting | src/ext/OpenBSD_malloc_Linux.c:1052-1073 | making a page of chunks asks for at most two further header allocations |
| Chunks.FreeBound | src/ext/OpenBSD_malloc_Linux.c:1098-1118 | at most total chunks are free, and all of them exactly if none is in use |
| Chunks.ChunksAreSafe | src/ext/OpenBSD_malloc_Linux.c:1035-1142 | live chunks are disjoint, inside their page, and clear of a header in it |
| Chunks.AddrOfChunk | src/ext/OpenBSD_malloc_Linux.c:1734-1744 | free_bytes computes the chunk number back from an address |
| Chunks.FillBits | src/ext/OpenBSD_malloc_Linux.c:1098-1107 | all valid bits are set |
| Chunks.Steal | src/ext/OpenBSD_malloc_Linux.c:1109-1118 | exactly the slots a header covers are taken, at least one bit of two is left |
| Chunks.MakeInfo | src/ext/OpenBSD_malloc_Linux.c:1052-1118 | the free count of the new page is the number of its set bits, as many as the page has beside its header, which is out of the way |
| Chunks.TotalIs | src/ext/OpenBSD_malloc_Linux.c:1049-1118 | how many chunks a new page has: 252, 126 and 63 of 16, 32 and 64 bytes beside the header, 32 down to 2 of 128 to 2048 bytes, 256 for malloc(0) |
| Mallocs.TakeOk | src/ext/OpenBSD_malloc_Linux.c:1211-1217 | taking a chunk whose bit is set makes it live and keeps free equal to the number of set bits |
| Mallocs.GiveOk | src/ext/OpenBSD_malloc_Linux.c:1741-1749 | giving a live chunk back does the same |
| Mallocs.BucketsInsert | src/ext/OpenBSD_malloc_Linux.c:1756-1766 | a page enters its list with its first free chunk, wherever in the list |
| Mallocs.BucketsRemove | src/ext/OpenBSD_malloc_Linux.c:1770-1781 | a page that is given up leaves it |
| Mallocs.Malloc.MakeChunks | src/ext/OpenBSD_malloc_Linux.c:1035-1142 | a new page of free chunks at the head of its list, with its mark in the directory; it fails exactly if malloc_pages does |
| Mallocs.Malloc.TakeFrom | src/ext/OpenBSD_malloc_Linux.c:1175-1225 | the chunk returned was free and is, in the first page of the list, the one that the random number picks with guard pages and the first without; the page leaves the list with its last free chunk |
| Mallocs.OneBucket | src/ext/OpenBSD_malloc_Linux.c:1157-1169 | a size is served from one bucket list only |
| Mallocs.Malloc.MallocBytes | src/ext/OpenBSD_malloc_Linux.c:1147-1226 | one more live chunk, of the least size that fits: the picked free chunk of the first page on the list for it, and then no page is asked for; of a new page only if the list is empty; 0 exactly if that page is not to be had, and then nothing has changed |
| Mallocs.Malloc.Relist | src/ext/OpenBSD_malloc_Linux.c:1756-1766 | the loop ends, and the page is on its list once, before the first entry that has no successor or is not below it |
| Mallocs.OrderKept | src/ext/OpenBSD_malloc_Linux.c:1756-1766 | the list is in address order afterwards if and only if it was and the page is below all on it, whatever the comment says |
| Mallocs.OrderLost | src/ext/OpenBSD_malloc_Linux.c:1756-1766 | a page above the only one on the list comes before it |
| Mallocs.Malloc.FreeBytes | src/ext/OpenBSD_malloc_Linux.c:1722-1808 | the chunk at the place of the pointer goes out of use, if it is in use and starts there; any other address changes nothing, but for one that the header of the page occupies: the books of the page are then wrong, or it is gone with a chunk in use |
| Mallocs.Malloc.GiveBackChunk | src/ext/OpenBSD_malloc_Linux.c:1748-1808 | a page whose chunks are all free goes back to the page allocator |
| Blocks.BlocksDisjoint | src/ext/OpenBSD_malloc_Linux.c:1238-1275 | no two blocks in use share a byte, be they pages or chunks |
| Blocks.BlockIsMine | src/ext/OpenBSD_malloc_Linux.c:1238-1275 | a block in use shares no byte with cached free memory, and its pages are below last_index and in the directory |
| Blocks.OneCapacity | src/ext/OpenBSD_malloc_Linux.c:1147-1166 | a size determines what its block holds, and that is enough |
| Blocks.CapacityIs | src/ext/OpenBSD_malloc_Linux.c:1155-1169 | what malloc gives for a size, in numbers: nothing for 0, the least of 16, 32 and so on to 2048 that is enough, above that the least multiple of 4096 |
| Blocks.PagesSuit | src/ext/OpenBSD_malloc_Linux.c:1364-1369 | the test of irealloc for pages holds exactly if the size is positive and rounds to the size of the run |
| Blocks.ChunkSuits | src/ext/OpenBSD_malloc_Linux.c:1387-1391 | the test of irealloc for a chunk holds exactly if malloc would give a chunk of that size, for size 0 one of the least size |
| Blocks.OwnSizeSuits | src/ext/OpenBSD_malloc_Linux.c:1364-1391 | a block suits the size, above 0, that it was allocated for |
| Pointers.FirstIsGuard | src/ext/OpenBSD_malloc_Linux.c:1003-1014 | a page marked FIRST starts no live run if and only if it is a guard page |
| Pointers.BlockAccepted | src/ext/OpenBSD_malloc_Linux.c:1829-1860 | the start of every block in use is accepted, from the right mark |
| Pointers.AcceptedIs | src/ext/OpenBSD_malloc_Linux.c:1829-1860 | what is accepted is a block at the same place of the page that is read, a guard page or a header slot |
| Pointers.AcceptedExactly | src/ext/OpenBSD_malloc_Linux.c:1829-1860 | ifree and irealloc take a pointer for a block exactly if one starts there, if and only if the pointer is not the start of a guard page or header slot and no block, guard page or header slot is read instead of a page without a directory page |
| Pointers.GuardMisread | src/ext/OpenBSD_malloc_Linux.c:1003-1014 | the address of every guard page is taken for a block |
| Pointers.GuardLost | src/ext/OpenBSD_malloc_Linux.c:1447-1481 | and once its mark is FREE, the run before it is not what it was |
| Pointers.HeaderMisread | src/ext/OpenBSD_malloc_Linux.c:1732-1744 | so is the address of every page of chunks with its header in it |
| Pointers.GapMisread | src/ext/OpenBSD_malloc_Linux.c:1841-1854 | and an address in a page without a directory page at the same place as a block of the directory page before the gap |
| Pointers.GapLost | src/ext/OpenBSD_malloc_Linux.c:1506-1513 | freeing it puts memory that is not mapped on the free list |
| Pointers.GuardExample | src/ext/OpenBSD_malloc_Linux.c:1829-1860 | a state with such a guard page |
| Pointers.HeaderExample | src/ext/OpenBSD_malloc_Linux.c:1829-1860 | a state with such a page of chunks |
| Pointers.GapExample | src/ext/OpenBSD_malloc_Linux.c:1829-1860 | a state with such a gap |
| Allocators.GoodSize | src/ext/OpenBSD_malloc_Linux.c:2030-2047 | the result in numbers, and that it is what malloc gives exactly for the sizes from 9 to SIZE_MAX - 4095 |
| Allocators.Allocator.constructor | src/ext/OpenBSD_malloc_Linux.c:669-843 | nothing is in use |
| Allocators.Allocator.Imalloc | src/ext/OpenBSD_malloc_Linux.c:1238-1275 | exactly one block more in use, at the address returned, of the capacity its size calls for; a free chunk of that capacity is used if there is one, and then no page is asked for; 0 for sizes above SIZE_MAX - 4096, and otherwise only if a request to the system fails and there is no such chunk, or no cached entry is large enough; and then nothing has changed |
| Allocators.Allocator.Ifree | src/ext/OpenBSD_malloc_Linux.c:1810-1869 | exactly the block at the pointer goes out of use; exactly if there is none, nothing changes |
| Allocators.Allocator.OldSize | src/ext/OpenBSD_malloc_Linux.c:1310-1396 | the size of the block at a pointer, and refusal if none starts there |
| Allocators.Allocator.Irealloc | src/ext/OpenBSD_malloc_Linux.c:1280-1412 | the block stays exactly if malloc would give one of the same size (or a page for less than a page), so always for the size it was allocated for; else it fails exactly if malloc would, and otherwise another block of the capacity its size calls for takes its place and holds its first min(old capacity, new size) bytes, no other byte has changed, and the old one is freed |
| Allocators.Allocator.CopyLesser | src/ext/OpenBSD_malloc_Linux.c:1400-1408 | the lesser of the two sizes is copied, and nothing else changes |
| AllocatorRuns.Program.WildExactly | src/ext/OpenBSD_malloc_Linux.c:1829-1860 | a program can tell the pointers that are misread: those that are accepted and that it does not hold |
| AllocatorRuns.MovedAgrees | src/ext/OpenBSD_malloc_Linux.c:1398-1411 | a moved block keeps its first bytes, and every other block keeps all of its |
| AllocatorRuns.Program.DoMalloc | src/ext/OpenBSD_malloc_Linux.c:1893-1915 | a new string of the size asked for at an address that was not held, for sizes up to SIZE_MAX - 4096; 0 only for larger ones or if a request to the system fails |
| AllocatorRuns.Program.DoFree | src/ext/OpenBSD_malloc_Linux.c:1917-1933 | the string at the pointer is gone; NULL and pointers not held change nothing |
| AllocatorRuns.Program.DoRealloc | src/ext/OpenBSD_malloc_Linux.c:1935-1962 | the string at the pointer, at the same address or another, with as many of its bytes as fit, and where it was if it has that size already; NULL as malloc |
| AllocatorRuns.Program.IsSafe | src/ext/OpenBSD_malloc_Linux.c:848-1029 | the strings held do not overlap, share no byte with cached free memory and are in memory as stored; malloc_used is the bytes of the live runs |
| AllocatorRuns.Execute | src/ext/OpenBSD_malloc_Linux.c:1893-1962 | every run of calls and stores from the first use on, with any answers of the system, follows a table of byte strings named by addresses: malloc adds a string, free removes one, realloc moves one, and the strings are safe at every step; NULL comes only for sizes above SIZE_MAX - 4096, a pointer not held, or when a request to the system may fail, and a realloc to the size that a string has moves nothing and never fails; if no munmap fails, cached memory stays within the pages of the option and malloc_cache - cachesize never wraps |
| AllocatorRuns.Untouched | src/ext/OpenBSD_malloc_Linux.c:1893-1962 | in every such run, a string that no call or store names stays at its address with its bytes |
| AlignedMap.MmapA | src/ext/OpenBSD_malloc_Linux.c:533-549 | an aligned region of the size asked for stays mapped and exactly the rest is given back; but a failed mmap yields NULL, which map_pages does not take for MAP_FAILED, and unmaps alignment less one page of whatever is behind the address that equals the rounded size |
| Chains.UnlinkOk | src/ext/ht.h:325-326 | *p = next of the element at p takes that element out of its chain and leaves the others linked |
| Chains.LinkOk | src/ext/ht.h:288-290 | *p = e puts e into the chain there |
| Chains.MoveOk | src/ext/ht.h:465-490 | moving an element to the front of another bucket loses and duplicates none |
| Rehash.DrainStep | src/ext/ht.h:464-470 | a step of the rehash into a fresh table keeps all elements, over old and new buckets together |
| Rehash.SortMove | src/ext/ht.h:488-490 | a step of the rehash in place keeps them too |
| Rehash.MoveOnce | src/ext/ht.h:483-492 | an element that has moved is in its final bucket and is not moved again |
| Rehash.SortEnd | src/ext/ht.h:481-493 | at the end all are in their buckets, and exactly those moved whose bucket differs |
| HashTables.LimitsGrow | src/ext/ht.h:428-456 | for load factors from 0.1 to 1 each prime allows at least two more elements than the one before |
| HashTables.LimitIs | src/ext/ht.h:454 | the load limit is the greatest number of elements that is at most load times the number of buckets, in reals |
| HashTables.PrimesDouble | src/ext/ht.h:428-438 | the lengths double: each is odd and at most 25 above 48 times a power of two |
| HashTables.Table.LoadIs | src/ext/ht.h:284-285 | the table is not too full exactly if it has at most load elements a bucket on average, and full exactly if one more would be too many |
| HashTables.OnePrimeAhead | src/ext/ht.h:284-285 | so growth for one more element of a table that is not too full goes to the next prime |
| HashTables.ClimbStops | src/ext/ht.h:451-456 | the search for a prime stays in the list if and only if the last prime is large enough |
| HashTables.AppendOk | src/ext/ht.h:302-313 | an element appended by HT_REPLACE leaves sound chains if and only if its next pointer is null |
| HashTables.Table.constructor | src/ext/ht.h:243-250 | an empty table |
| HashTables.Table.FindP | src/ext/ht.h:253-266 | the slot that points to the element with an equal key, or the end of its chain if and only if there is none |
| HashTables.Table.Find | src/ext/ht.h:269-277 | the lookup of a finite map |
| HashTables.Table.Climb | src/ext/ht.h:451-456 | the first prime after the present one whose limit is above the size |
| HashTables.Table.RefillBucket | src/ext/ht.h:462-471 | a bucket is emptied into the fresh table, all elements kept |
| HashTables.Table.Refill | src/ext/ht.h:457-474 | all elements, each in the bucket of its hash modulo the new length |
| HashTables.Table.Resort | src/ext/ht.h:475-495 | the same in place; the number of moves is the number of elements whose bucket differs |
| HashTables.Table.Grow | src/ext/ht.h:441-500 | the elements stay, each in the bucket of its hash; the first later prime whose buckets bear size + 1 elements is taken; -1 if and only if both allocations fail, and then nothing has changed |
| HashTables.Table.InsertNew | src/ext/ht.h:278-291 | insertion into the map; the next prime is taken exactly if one more element would be more than load times the buckets, there is a next prime, and memory; the load bound holds after it if and only if there was room or the table grew |
| HashTables.Table.Replace | src/ext/ht.h:295-314 | replacement in the map, returning the old element unlinked; the table stays sound if and only if the element was not already in it |
| HashTables.Table.Remove | src/ext/ht.h:317-330 | removal from the map, returning the element unlinked |
| HashTables.Table.ForeachFn | src/ext/ht.h:331-357 | the function is called on each element once, in bucket order, and exactly those it returns nonzero for are gone |
| HashTables.Table.Start | src/ext/ht.h:361-374 | the first element in bucket order |
| HashTables.Table.Next | src/ext/ht.h:381-400 | the next element in that order, or none behind the last |
| HashTables.Table.NextRmv | src/ext/ht.h:403-420 | the element is gone, and its successor in the old order follows |
| HashTables.Table.Elements | src/ext/ht.h:223-226 | HT_FOREACH sees each element once |
| HashTables.Table.Sweep | src/ext/ht.h:361-420 | a walk that removes some elements by HT_NEXT_RMV sees each once and drops precisely the chosen ones; the load bound is kept |
| HashTables.Table.RepIsBad | src/ext/ht.h:513-546 | 0 if and only if sizes, load, cached hashes, buckets and count are consistent; any other result has its reason |
| HashTables.Table.Clear | src/ext/ht.h:503-510 | an empty table |
| Orders.FlatOnce | src/ext/ht.h:361-400 | the order of a walk has no element twice |
| Wire.Final | src/trunnel/ed25519_cert.c:1999-2071 | for a codec, success with n bytes and failure are not changed by more input |
| Wire.AsksForMore | src/trunnel/ed25519_cert.c:1999-2071 | a strict prefix of an accepted message is reported as truncated |
| Wire.PrefixFree | src/trunnel/ed25519_cert.c:1893-2071 | no encoding is a strict prefix of another, and none stands for two objects that differ in what is encoded |
| Wire.ManyExact | src/trunnel/ed25519_cert.c:2039-2052 | a parsed counted list re-encodes to the bytes consumed |
| Wire.ManyRoundTrips | src/trunnel/ed25519_cert.c:1953-2052 | an encoded counted list parses back, whatever follows |
| Wire.ManySteady | src/trunnel/ed25519_cert.c:2039-2052 | success and failure of a list are final if those of the element are |
| Buffers.WrittenNested | src/trunnel/ed25519_cert.c:1953-1964 | the failure of an element encoder is the right failure of the whole, and its success leaves the part in place |
| Buffers.WrittenBytes | src/trunnel/ed25519_cert.c:1893-1995 | what an encoder promises, byte by byte: the encoding where it was asked to be, and every other byte as it was |
| Buffers.Writer.Field | src/trunnel/ed25519_cert.c:542-547 | a field is written behind what is there if and only if it fits |
| Buffers.Writer.Back | src/trunnel/ed25519_cert.c:593-600 | a length written back replaces just its bytes |
| CertFormat.ExtCodec | src/trunnel/ed25519_cert.c:521-692 | extensions round trip both ways, up to the length field and the union member the type does not select |
| CertFormat.CertCodec | src/trunnel/ed25519_cert.c:1893-2071 | certificates round trip both ways: parsing an encoding gives the object, and encoding what was parsed gives the bytes consumed |
| CertFormat.ExtBytes | src/trunnel/ed25519_cert.c:629-692 | byte by byte: type 4 holds a key of 32 bytes and is refused with another length, any other type keeps its body as it is, and a body that is not all there gives -2 |
| CertFormat.CertBytes | src/trunnel/ed25519_cert.c:1999-2071 | version 1 comes first; where type, time, key, number of extensions and signature stand |
| CertFormat.KeyedCertBytes | src/trunnel/ed25519_cert.c:1999-2071 | a certificate with the signing key as its one extension has 140 bytes, and where the key stands |
| CertCodecs.ExtEncodedLen | src/trunnel/ed25519_cert.c:481-513 | the exact length of the encoding, or -1 |
| CertCodecs.EncodeExt | src/trunnel/ed25519_cert.c:521-624 | -2 if and only if the buffer is too small, else exactly the encoding and nothing beyond; a body too long for its length field is refused |
| CertCodecs.ParseExtInto | src/trunnel/ed25519_cert.c:629-692 | the result and object that ParseExt defines, which ExtBytes spells out |
| CertCodecs.CertEncodedLen | src/trunnel/ed25519_cert.c:1846-1885 | the exact length of the encoding, or -1 |
| CertCodecs.EncodeCert | src/trunnel/ed25519_cert.c:1893-1995 | as for an extension, through the loop over the extensions |
| CertCodecs.ParseCertInto | src/trunnel/ed25519_cert.c:1999-2071 | the result and object that ParseCert defines, which CertBytes spells out |
| LinkFormat.SpecCodec | src/trunnel/ed25519_cert.c:1328-1564 | link specifiers round trip both ways |
| LinkFormat.Create2Codec | src/trunnel/ed25519_cert.c:187-290 | CREATE2 bodies round trip both ways |
| LinkFormat.ListCodec | src/trunnel/ed25519_cert.c:2596-2698 | lists of link specifiers round trip both ways |
| LinkFormat.Extend2Codec | src/trunnel/ed25519_cert.c:2292-2408 | EXTEND2 bodies round trip both ways |
| LinkFormat.SpecBytes | src/trunnel/ed25519_cert.c:1472-1564 | types 0 to 3 with their lengths 6, 18, 20 and 32, refused with others, and where their parts stand; other types keep their body; what the type does not select is zero |
| LinkFormat.Create2Bytes | src/trunnel/ed25519_cert.c:258-290 | type, length and data, byte by byte |
| LinkFormat.Extend2Bytes | src/trunnel/ed25519_cert.c:2364-2408 | where address, identity and handshake stand in a body with the two usual link specifiers |
| LinkCodecs.SpecEncodedLen | src/trunnel/ed25519_cert.c:1267-1319 | the exact length of the encoding, or -1 |
| LinkCodecs.EncodeSpec | src/trunnel/ed25519_cert.c:1328-1468 | -2 if and only if the buffer is too small, else exactly the encoding; a body over 255 bytes is refused |
| LinkCodecs.ParseSpecInto | src/trunnel/ed25519_cert.c:1472-1564 | the result and object that ParseSpec defines, which SpecBytes spells out |
| LinkCodecs.SpecListEncodedLen | src/trunnel/ed25519_cert.c:2567-2589 | the exact length of the encoding, summed over the elements, or -1 |
| LinkCodecs.EncodeSpecListTo | src/trunnel/ed25519_cert.c:2596-2656 | -2 if and only if the buffer is too small, else exactly the encoding |
| LinkCodecs.ParseSpecListInto | src/trunnel/ed25519_cert.c:2661-2698 | the result and object that ParseSpecList defines |
| LinkCodecs.Create2EncodedLen | src/trunnel/ed25519_cert.c:161-179 | the exact length of the encoding, or -1 |
| LinkCodecs.EncodeCreate2 | src/trunnel/ed25519_cert.c:187-253 | -2 if and only if the buffer is too small, else exactly the encoding |
| LinkCodecs.ParseCreate2Into | src/trunnel/ed25519_cert.c:258-290 | the result and object that ParseCreate2 defines, which Create2Bytes spells out |
| LinkCodecs.Extend2EncodedLen | src/trunnel/ed25519_cert.c:2260-2284 | the exact length of the encoding, through the nested lengths, or -1 |
| LinkCodecs.EncodeExtend2 | src/trunnel/ed25519_cert.c:2292-2359 | -2 if and only if the buffer is too small, else exactly the encoding, through the nested encoders |
| LinkCodecs.ParseExtend2Into | src/trunnel/ed25519_cert.c:2364-2408 | the result and object that ParseExtend2 defines, which Extend2Bytes spells out |
| Codecs.AllSteady | src/trunnel/ed25519_cert.c:1999-2408 | success and failure of all these parsers are final |
| Codecs.PrefixTruncated | src/trunnel/ed25519_cert.c:1999-2408 | every strict prefix of an accepted input is truncated |
| NetFormat.AddrExact | src/trunnel/netinfo.c:287-346 | what is parsed of an address is what was there, but for the body of an unknown type |
| NetFormat.NetExact | src/trunnel/netinfo.c:659-708 | the same for a cell and all its addresses |
| NetFormat.NetRoundTrips | src/trunnel/netinfo.c:581-708 | an encoded cell parses back, but for unselected members and length fields |
| NetFormat.NetIdempotent | src/trunnel/netinfo.c:581-708 | decoding and encoding keeps timestamp, address count, order, types and known addresses, and a second time changes nothing |
| NetFormat.NetSteady | src/trunnel/netinfo.c:659-708 | success and failure are final |
| NetFormat.AddrBytes | src/trunnel/netinfo.c:287-346 | type 4 has 4 bytes and type 6 has 16, refused with other lengths; of other types nothing is kept but type and length |
| NetFormat.SkippedBytes | src/trunnel/netinfo.c:287-346 | only bodies of other types than 4 and 6 are skipped |
| NetFormat.NetBytes | src/trunnel/netinfo.c:659-708 | where time and addresses stand in a cell with two IPv4 addresses |
| NetCodecs.AddrEncodedLen | src/trunnel/netinfo.c:148-179 | the exact length of the encoding, or -1 |
| NetCodecs.EncodeAddr | src/trunnel/netinfo.c:188-283 | -2 if and only if the buffer is too small, else exactly the encoding; the length check cannot fail |
| NetCodecs.ParseAddrInto | src/trunnel/netinfo.c:287-346 | the result and object that ParseAddr defines, which AddrBytes spells out |
| NetCodecs.NetEncodedLen | src/trunnel/netinfo.c:546-573 | the exact length of the encoding, or -1 |
| NetCodecs.EncodeNet | src/trunnel/netinfo.c:581-655 | -2 if and only if the buffer is too small, else exactly the encoding |
| NetCodecs.ParseNetInto | src/trunnel/netinfo.c:659-708 | the result and object that ParseNet defines, which NetBytes spells out |
| BoxFormat.BoxExact | src/trunnel/pwbox.c:474-544 | the whole input is the box, and data is every byte that is not of the fixed parts, the header or the last 32 |
| BoxFormat.BoxRoundTrips | src/trunnel/pwbox.c:357-544 | an encoded box parses back |
| BoxFormat.BoxMore | src/trunnel/pwbox.c:474-544 | a failure is final; behind a box, more input moves the tail |
| BoxFormat.Auth1Exact | src/trunnel/link_handshake.c:1665-1757 | end_of_signed is the end of the encoding of all fields before the signature, and encoding gives the input back |
| BoxFormat.Auth1RoundTrips | src/trunnel/link_handshake.c:1525-1757 | under the same context an encoding parses back, with the positions filled in |
| BoxFormat.BoxBytes | src/trunnel/pwbox.c:474-544 | the first eight bytes are TORBOX00, or the result is -1; where header, IV, data and MAC stand |
| BoxFormat.Auth1Bytes | src/trunnel/link_handshake.c:1665-1757 | where each field stands, with and without the Ed25519 identities; the fewest bytes are 224 or 288 |
| BoxCodecs.BoxEncodedLen | src/trunnel/pwbox.c:319-349 | the exact length of the encoding, or -1 |
| BoxCodecs.EncodeBoxTo | src/trunnel/pwbox.c:357-470 | -1 if and only if the first check fails, -2 if and only if the buffer is too small; the later checks cannot fail |
| BoxCodecs.ParseBoxInto | src/trunnel/pwbox.c:474-544 | the result and object that ParseBox defines, which BoxBytes spells out |
| BoxCodecs.Auth1EncodedLen | src/trunnel/link_handshake.c:1463-1517 | the exact length of the encoding under a context, or -1; the assertion on its tag cannot fail |
| BoxCodecs.EncodeAuth1To | src/trunnel/link_handshake.c:1525-1661 | -2 if and only if the buffer is too small; -1 without a context or for a bad tag in it |
| CellFormat.CellCertCodec | src/trunnel/link_handshake.c:494-635 | certificates of a CERTS cell round trip both ways |
| CellFormat.CellCodec | src/trunnel/link_handshake.c:1945-2046 | CERTS cells round trip both ways |
| CellFormat.CellCertBytes | src/trunnel/link_handshake.c:601-633 | type, length and body, byte by byte |
| CellFormat.CellBytes | src/trunnel/link_handshake.c:2009-2046 | the number of certificates, and where the first stands |
| CellCodecs.CellCertEncodedLen | src/trunnel/link_handshake.c:505-523 | the exact length of the encoding, or -1 |
| CellCodecs.EncodeCellCert | src/trunnel/link_handshake.c:531-597 | -2 if and only if the buffer is too small, else exactly the encoding |
| CellCodecs.ParseCellCertInto | src/trunnel/link_handshake.c:601-633 | the result and object that ParseCellCert defines, which CellCertBytes spells out |
| CellCodecs.CellEncodedLen | src/trunnel/link_handshake.c:1916-1937 | the exact length of the encoding, summed over the elements, or -1 |
| CellCodecs.EncodeCell | src/trunnel/link_handshake.c:1945-2005 | -2 if and only if the buffer is too small, else exactly the encoding |
| CellCodecs.ParseCellInto | src/trunnel/link_handshake.c:2009-2046 | the result and object that ParseCell defines, which CellBytes spells out |
| BoxCodecs.ParseAuth1Into | src/trunnel/link_handshake.c:1665-1757 | the result and object that ParseAuth1 defines, which Auth1Bytes spells out |
| SocksFormat.DomainCodec | src/trunnel/socks5.c:187-276 | domain names round trip both ways |
| SocksFormat.Socks4Codec | src/trunnel/socks5.c:984-1675 | SOCKS4 and 4a requests, with strings that end in NUL, round trip both ways |
| SocksFormat.Socks5Codec | src/trunnel/socks5.c:3291-3493 | SOCKS5 requests round trip both ways (sections 4 and 5 of RFC 1928) |
| SocksFormat.DomainBytes | src/trunnel/socks5.c:250-276 | length and name, byte by byte |
| SocksFormat.Socks4Bytes | src/trunnel/socks5.c:1342-1675 | version 4 and commands 1, 2, 0xf0 and 0xf1, or -1; where port and address stand; the user name ends at the first zero byte |
| SocksFormat.Socks4aBytes | src/trunnel/socks5.c:1342-1675 | with an address 0.0.0.x, x not 0, a host name follows that ends at the next zero byte |
| SocksFormat.Socks4Short | src/trunnel/socks5.c:1342-1675 | of a SOCKS4 request that has not ended, -1 as soon as version or command are wrong, else -2 |
| SocksFormat.Socks5Bytes | src/trunnel/socks5.c:3410-3493 | version 5, the commands, a zero byte and address types 1, 3 and 4, or -1; where the address and the port stand |
| SocksFormat.Socks5Short | src/trunnel/socks5.c:3410-3493 | of a SOCKS5 request before its address, -1 as soon as one of the first four bytes is wrong, else -2 |
| SocksCodecs.DomainEncodedLen | src/trunnel/socks5.c:164-179 | the exact length of the encoding, or -1 |
| SocksCodecs.EncodeDomainTo | src/trunnel/socks5.c:187-246 | -2 if and only if the buffer is too small; -1 for a missing object or a length that does not match |
| SocksCodecs.ParseDomainInto | src/trunnel/socks5.c:250-276 | the result and object that ParseDomain defines, which DomainBytes spells out |
| SocksCodecs.Socks4EncodedLen | src/trunnel/socks5.c:687-976 | the exact length of the encoding, or -1 |
| SocksCodecs.EncodeSocks4To | src/trunnel/socks5.c:984-1337 | -2 if and only if the buffer is too small, else exactly the encoding |
| SocksCodecs.FindNul | src/trunnel/socks5.c:1374-1387 | the first NUL, or the end |
| SocksCodecs.ParseSocks4Into | src/trunnel/socks5.c:1342-1675 | the result and object that ParseSocks4 defines, which Socks4Bytes spells out |
| SocksCodecs.Socks5EncodedLen | src/trunnel/socks5.c:3235-3283 | the exact length of the encoding, or -1 |
| SocksCodecs.EncodeSocks5To | src/trunnel/socks5.c:3291-3405 | -2 if and only if the buffer is too small, else exactly the encoding |
| SocksCodecs.ParseSocks5Into | src/trunnel/socks5.c:3410-3493 | the result and object that ParseSocks5 defines, which Socks5Bytes spells out |
| TailQueues.InsertOk | src/ext/tor_queue.h:388-420 | linking an element between its neighbours gives the sequence with it in that place |
| TailQueues.RemoveOk | src/ext/tor_queue.h:422-431 | joining the neighbours gives the sequence without it |
| TailQueues.ReplaceOk | src/ext/tor_queue.h:433-443 | the sequence with the other element in its place |
| TailQueues.Queue.constructor | src/ext/tor_queue.h:383-386 | the empty queue, whose tqh_last is its own first word |
| TailQueues.Queue.InsertHead | src/ext/tor_queue.h:388-396 | the element in front; links of others untouched |
| TailQueues.Queue.InsertTail | src/ext/tor_queue.h:398-403 | the element behind |
| TailQueues.Queue.InsertAfter | src/ext/tor_queue.h:405-413 | the element behind a given one |
| TailQueues.Queue.InsertBefore | src/ext/tor_queue.h:415-420 | the element before a given one, without the head |
| TailQueues.Queue.Remove | src/ext/tor_queue.h:422-431 | the sequence without the element |
| TailQueues.Queue.Replace | src/ext/tor_queue.h:433-443 | the sequence with the other element |
| TailQueues.Queue.Last | src/ext/tor_queue.h:348-349 | through the layout pun, the last element, or NULL |
| TailQueues.Queue.Prev | src/ext/tor_queue.h:351-352 | through the layout pun, the element before, or NULL |
| TailQueues.Queue.Backwards | src/ext/tor_queue.h:369-372 | the reverse walk sees the reversed sequence |
| TailQueues.Queue.Sweep | src/ext/tor_queue.h:362-366 | a safe walk that removes elements sees all and leaves the others in order |
| SipHash.DoubleRound | src/ext/csiphash.c:42-52 | four half rounds are two SipRounds |
| SipHash.LastWord | src/ext/csiphash.c:97-107 | the switch that falls through gives the little-endian word of the padded tail and the length |
| SipHash.Siphash24 | src/ext/csiphash.c:65-116 | for every message length, SipHash-2-4 of the padded little-endian words |
| SipHash.RoundUndone | src/ext/csiphash.c:42-52 | a round can be undone |
| SipHash.RoundReached | src/ext/csiphash.c:42-52 | and every state is reached by one |
| SipHash.AbsorbBijective | src/ext/csiphash.c:85-87 | absorbing a block is a bijection on the state |
| SipHash.WordBytes | src/ext/csiphash.c:79-84 | byte k of a little-endian word is byte k of the message part |
| SipHash.Vector | src/ext/csiphash.c:65-116 | the example of appendix A of the paper of Aumasson and Bernstein: for the key 00 to 0f and the message 00 to 0e the hash is a129ca6149be45e5 |
| Annotate.AlternativeIsWord | scripts/maint/annotate_ifdef_directives.py:258-259 | the command that the pattern matches is the whole word that stands there |
| Annotate.TruncateExpression | scripts/maint/annotate_ifdef_directives.py:114-132 | the result that Truncate defines |
| Annotate.TruncateFits | scripts/maint/annotate_ifdef_directives.py:96-132 | the longest truncation that fits, with no closing parenthesis missing |
| Annotate.CommentedLine | scripts/maint/annotate_ifdef_directives.py:181-191 | never longer than the width; the assertion at its end holds |
| Annotate.NegateTwice | scripts/maint/annotate_ifdef_directives.py:215-231 | negating twice gives back an expression without closing parentheses |
| Annotate.NegateDefined | scripts/maint/annotate_ifdef_directives.py:215-231 | and a condition of the form defined(NAME) |
| Annotate.Translate | scripts/maint/annotate_ifdef_directives.py:241-308 | the result that Translation defines |
| Annotate.LevelsAreOpen | scripts/maint/annotate_ifdef_directives.py:241-308 | each open level begins with an #if, the file's own level stays empty, and there is a line of output for each line |
| Nesting.NestedIffAccepted | scripts/maint/annotate_ifdef_directives.py:241-308 | a stack of open conditionals accepts exactly what the grammar of nested conditionals spells |
| Annotate.FailsIffNotNested | scripts/maint/annotate_ifdef_directives.py:256-308 | translate fails if and only if the directives are not well nested |
| Annotate.MatchingIf | scripts/maint/annotate_ifdef_directives.py:265-279 | what a level remembers is the condition of the #if line that opened it |
| Annotate.CommentNamesIf | scripts/maint/annotate_ifdef_directives.py:265-306 | what is written for an #else or #endif: a comment with the condition of its own #if, negated for #else, exactly if that is more than four lines away and, for #else, no #elif came between; an #endif after an #elif is marked |
| Annotate.ElifRemembered | scripts/maint/annotate_ifdef_directives.py:280-306 | a level has more than an #if and #else exactly if an #elif belongs to its conditional |
| Annotate.UncommentCuts | scripts/maint/annotate_ifdef_directives.py:233-239 | what precedes the first comment of either kind, stripped |
| Annotate.CommentIsDirective | scripts/maint/annotate_ifdef_directives.py:280-306 | a generated line is one line of at most 80 characters, and the same directive |
| Annotate.OneForOne | scripts/maint/annotate_ifdef_directives.py:256-306 | one line is written for each line, itself or a generated one |
| Annotate.Idempotent | scripts/maint/annotate_ifdef_directives.py:241-308 | translating what was translated changes nothing |
| Annotate.TextIdempotent | scripts/maint/annotate_ifdef_directives.py:241-308 | the same for whole texts, whose lines stay as many, generated ones within the limit |
| AnnotatedTexts.IfdefCondition | scripts/maint/annotate_ifdef_directives.py:265-279 | an #ifdef of a name is remembered as defined(name) |
| AnnotatedTexts.IfndefCondition | scripts/maint/annotate_ifdef_directives.py:265-279 | an #ifndef of a name is remembered as !defined(name) |
| AnnotatedTexts.IfCondition | scripts/maint/annotate_ifdef_directives.py:265-279 | an #if is remembered by what precedes the first comment, stripped, with an ellipsis for a backslash at the end |
| AnnotatedTexts.ElseText | scripts/maint/annotate_ifdef_directives.py:241-308 | what is written for any block with an #else, line by line |
| AnnotatedTexts.ElifText | scripts/maint/annotate_ifdef_directives.py:241-308 | and for one with an #elif |
| AnnotatedTexts.EndifText | scripts/maint/annotate_ifdef_directives.py:241-308 | and for one with neither |
| AnnotatedTexts.NestedText | scripts/maint/annotate_ifdef_directives.py:241-308 | what is written for a block with an #else inside another block |
| AnnotatedTexts.CommentOf | scripts/maint/annotate_ifdef_directives.py:181-191 | the comment for defined(name) or !defined(name), letter by letter: a name that is too long loses its end to three dots, and the parenthesis stays |
| AnnotatedTexts.IfdefText | scripts/maint/annotate_ifdef_directives.py:241-308 | the text that an #ifdef with #else and #endif becomes, for every name and any lines between, letter by letter |
| AnnotatedTexts.IfndefText | scripts/maint/annotate_ifdef_directives.py:241-308 | the same for an #ifndef |
| AnnotatedTexts.IfdefElifText | scripts/maint/annotate_ifdef_directives.py:241-308 | and for an #ifdef with an #elif |
| AnnotatedTexts.NestedIfdefText | scripts/maint/annotate_ifdef_directives.py:13-46 | the text of an #if with an #else inside an #ifdef, such as the one that the script explains itself with, letter by letter |

## Left out

- The storage of free-list nodes and of page headers outside their pages: they are taken to exist, so the nested
  calls that allocate or free them, and their failure, are not modelled. `HeaderNesting` bounds the nesting.
- Allocators.Allocator.Imalloc: with guard pages, sizes that pass its check but leave size_t are excluded, as RoundedSizeFits explains.
- Allocators.Allocator.Ifree: pointers that are misread are excluded, exactly those; AcceptedExactly and the lemmas behind it say which they are.
- Allocators.Allocator.OldSize: the same pointers are excluded.
- Allocators.Allocator.Irealloc: the same pointers, and with guard pages the same sizes as for Imalloc, are excluded.
- AllocatorRuns.Execute: a run ends at the first pointer given back that is misread; stores outside of the strings held are not made.
- PageHeaps.PageHeap.FreePages: the caller names the live run that starts at the pointer; the guard page of a run carries the same mark.
- Protection and advice of pages, junk and zero filling, the option that aligns small blocks to the end of a page, locks,
  option parsing, statistics and warnings. Pages are 4096 bytes and words 64 bits.
- The sanity checks compiled in by MALLOC_EXTRA_SANITY; the proofs give what they check.
- Directory pages, bucket lists and free-list nodes are entries of maps and sequences that the methods update, not
  heap objects with pointers; prev and next of directory pages are kept, as indices.
- AlignedMap.MmapA: sizes whose sum with the alignment leaves size_t are excluded, and posix_memalign is left out.
- HashTables.Table.InsertNew: the key is new, as the comment at the macro demands, and there is a table or memory for one.
- HashTables.Table.Replace: an element whose key is not in the table brings a null next pointer; AppendOk says why.
- Elements of hash tables and queues are addresses in a memory of links; their other fields are the key alone.
- ht_improve_hash, HT_FIND_OR_INSERT_ and the variant without cached hashes.
- HashTables.PrimesDouble: that the lengths are prime is not stated; nothing depends on it.
- HashTables.LimitsGrow: load factors below 0.1 and above 1 are not considered; the callers use 0.5 and 0.6.
- NULL objects and failing allocations inside the codecs, except for domain names and SOCKS4 strings, where NULL is modelled.
- Setters and getters, extend1, auth_challenge, rsa_ed_crosscert, SOCKS replies, methods and passwords: they
  repeat the proofs for fixed fields, counted bytes, lists and strings.
- The other list types of tor_queue.h, and its debugging writes.
- The process-wide key of siphash24g.
- Characters beyond ASCII in the annotator; reading and renaming files; a carriage return is an ordinary space.
