# Verified models of a systems course repository

The programs modelled here are the laboratory sources of a systems course: a storage allocator with its
driver, a shell-script parser, image kernels, a small web server's string library and I/O package, and a
timing sampler.  The project is written for Dafny 4.11; `dafny verify dfyconfig.toml` checks all of it.

## What is modelled

**The heap** (`Words`, `HeapShape`, `HeapMemory`, `HeapState`, `HeapChunks`, `HeapTidy`, `HeapAccount`,
`HeapTheorems`, `Mm`, `HeapClient`).  `mm.c` is an explicit-free-list allocator with boundary tags.  Memory is a map from
addresses to 4-byte words and the class `Mm` works on it through the same reads and writes as the code: tag
words at `bp - 4` and `bp + size - 8`, two 8-byte links at `bp` and `bp + 8`.  Ghost fields say which blocks and
chunks there are; the invariant ties them to the words.  It has the tiling of each chunk between two prologue
words and a terminator, agreement of headers and footers, a free list threaded both ways whose nodes are exactly
the free blocks, no two adjacent free blocks, a live block in every chunk, and 16 bytes a chunk plus the block
sizes equal to what is mapped.  That tags and links never collide is proved from the minimum block of 32 bytes.
Clients may store any byte into any live payload between calls (`HeapClient` has whole runs of such clients).

**Pages** (`Pagemap`, `Memlib`).  `pagemap.c` keeps mapped pages in a three-level index whose entries are also
threaded on a doubly linked list; both refine one set of pages.  `memlib.c` maps and unmaps regions over it.
What `mmap` will answer is an arbitrary function from the number of regions given so far to addresses.  An
address that is page-aligned, free and below 2^47 is the region; any other is a refusal, which ends the run.  So
every contract says exactly when the allocator may run out of memory.

**The driver** (`Ranges`, `Driver`, `Bytes`, `Sums`).  `mdriver.c` replays a trace of requests and checks every
payload.  The validity run and the integer part of the utilisation run are methods over the allocator above.

**Scripts** (`ScriptSyntax`, `ScriptTable`, `ScriptParser`, `ScriptNames`).  `parse.c` reads a script line by line with a cursor
and a table of variables, and can print it again.  The grammar is a set of functions on text, the parser and the
printer are methods proved equal to them, and the round trip is proved about the functions.  That these functions
read exactly the scripts people write, with words, quotes, blanks and comments of every kind, is proved in both
directions against written forms whose characters are spelt out.

**Kernels** (`Images`, `Pinwheel`, `Motion`).  The tiled loops of `kernels.c` write into arrays and are proved
equal to the naive loops.  Weights are reals, since none of them is rounded; truncation to int is explicit.

**Strings and dictionaries** (`Dictionary`, `Query`, `QueryForms`).  Percent-encoding as in section 2.1 of RFC 3986, query
parsing with a moving cursor, and the dictionary of parallel arrays it fills.

**Buffered I/O and the semaphore** (`Rio`, `Semaphore`) from `csapp.c`.  A descriptor is the sequence of answers
read() will give: bytes, an interruption, a failure, an end of file.  The semaphore is a transition system over
any number of threads inside P and V, one transition a statement, with spurious wake-ups.

**The sampler** (`Sampler`) of `fcyc.c`, over real samples.

## What the code does not do

Where the code keeps a promise only under a condition, that condition is proved exact:

- `add_range` accepts a payload that strictly contains a recorded one, and no other overlap
  (`Ranges.EndpointTestGap`, `Ranges.RangeList.AcceptedOverlap`; `Ranges.OverlapAccepted` is a run in which it
  does).  Over this allocator it never matters: intervals are proved disjoint directly.
- The tiled `pinwheel` stays inside its quadrants exactly when half the dimension is a multiple of 8, the tiled
  `motion` on the grid exactly when the dimension is at most 2 modulo 8, its last assignment exactly when the
  dimension is at least 2 (`Pinwheel.TilesFitIff`, `Motion.TilesFitIff`, `Motion.LastFourFitsIff`).  Both kernels
  are proved right for all those dimensions.
- `mem_heapsize` is right exactly below 2^19 pages (`MemoryBridge.HeapSizeExact`); the inequality that
  `eval_mm_util` rests on is proved with the wrap, for every trace.
- A chunk's size fits its `int` tag exactly for requests up to 0x7FFFEF8 (`Allocator.ChunkSizeFits`).
- A script variable whose name begins an earlier, longer name is that earlier variable (`ScriptTable.OwnVariable`
  for one lookup, `ScriptNames.OwnVariablesOfScript` for a script, `ScriptNames.NamesShareVariable` for an input).
- A printed script cannot be read back exactly when a printed line is too long (`ScriptTable.ParsePrintParse`, with
  an input in `ScriptNames.LongLine`).
- `parse_query` decodes names and throws the result away.  An encoded name is found again exactly when the encoding
  changed nothing (`Query.EncodedNameSurvives`, `Query.EncodedNameFound`, with an input in `Query.EncodedNameMissed`).
- `parse_query` keeps a pointer to the decoded value and no length, so a value comes back exactly when it holds no
  NUL (`Query.WrittenFormAssigns`, with the input a=%00b in `Query.NulCutsValue`).
- `rio_readnb` and `rio_readlineb` lose the bytes they have already taken when read() fails, which is exactly when a
  failure comes after at least one byte, before the limit and before the end of a line (`RobustIo.LostExactlyWhen`, with
  an input in `RobustIo.ByteLost` and a run in `RobustIo.FailureLosesByte`).
- `rio_readlineb` writes no terminator exactly on a failure or when the stream had already ended
  (`RobustIo.ClosedExactlyWhen`), and writes one even for a limit of zero (`RobustIo.ZeroLimitClosed`).

## Model

| member | source | states |
|---|---|---|
| TraceDriver.Driver.EvalMmValid | Malloclab/mdriver.c:564-660 | for every well-formed trace, whatever regions mmap offers, the validity check never fails: it serves the whole trace, or stops with everything before some request served and that very request refused (no free block fits it and mmap has no region for a chunk); live ids and recorded sizes are those of the requests served; a balanced trace served whole ends with no page mapped |
| TraceDriver.Driver.RunTrace | Malloclab/mdriver.c:583-654 | after any well-formed trace the driver's invariant holds (heap, ranges, ids, and every live payload still filled with its id byte) with the ids and sizes of the first `done` requests, which is all of them unless request number `done` is refused; nothing leaks on a trace that reuses no live id |
| TraceDriver.Driver.Step | Malloclab/mdriver.c:583-654 | one request of any kind keeps the invariant of heap, ranges and ids and changes exactly the ids and sizes it should; it aborts exactly when no free block fits and mmap refuses, and then changes nothing |
| TraceDriver.Driver.RunAlloc | Malloclab/mdriver.c:589-615 | an ALLOC passes all checks of add_range, fills the payload, and records a payload that was not recorded before; it aborts exactly when no free block fits and mmap refuses, and then changes nothing |
| TraceDriver.Driver.RunRealloc | Malloclab/mdriver.c:617-640 | a REALLOC obtains a new payload while the old one is live, then replaces it in the range list, the ids and the heap; it aborts exactly when no free block fits and mmap refuses, and then changes nothing |
| TraceDriver.Driver.RunFree | Malloclab/mdriver.c:642-648 | a FREE removes exactly one range and one live payload; every byte of every other payload stays, also of payloads no live id points to |
| TraceDriver.NewPayloadAccepted | Malloclab/mdriver.c:362-405 | what the allocator hands out is aligned, lies on mapped pages, and hits no recorded range |
| TraceDriver.Driver.EvalMmUtil | Malloclab/mdriver.c:673-780 | on every well-formed trace the reported maximum of requested bytes is the peak of the requests served, which is all of them unless the next one is refused; the reported maximum heap size is the largest value mem_heapsize has for the page counts after each request; the first never exceeds the second, also when the 32-bit product wraps |
| TraceDriver.Driver.RunUtil | Malloclab/mdriver.c:689-769 | the loop serves the first `done` requests, all of them unless the next one is refused: its totals are the peak of their requested bytes and the maximum of mem_heapsize over the page counts after each of them; each count covers the bytes then requested and is fewer than 2^19 above the one before |
| TraceDriver.Driver.UtilStep | Malloclab/mdriver.c:690-746 | after one request the running total is the sum of the sizes of all live payloads, and at most 2^19 pages were added; it aborts exactly when no free block fits and mmap refuses, and then changes nothing |
| TraceDriver.AccountStep | Malloclab/mdriver.c:749-756 | one request keeps the peak of the requested bytes at most the largest heap size seen, also when the 32-bit heap size wraps |
| TraceDriver.LiveIds | Malloclab/mdriver.c:583-654 | an id is live exactly when it has been allocated, or was live at the start, and has not been freed since |
| TraceDriver.AllocAndFree | Malloclab/mdriver.c:589-648 | a request and the release of what it got are a well-formed trace that frees everything |
| TraceDriver.RecordedSizes | Malloclab/mdriver.c:608-609 | the size on record for an id is the one asked for last |
| TraceDriver.PeakIs | Malloclab/mdriver.c:749-751 | the reported peak is the largest of the running totals after each request, the empty one included |
| TraceDriver.HeapPeakIs | Malloclab/mdriver.c:753-756 | the reported heap maximum is the largest value of mem_heapsize after any request |
| TraceDriver.LeakStep | Malloclab/mdriver.c:583-654 | each request keeps every live payload reachable from a live id |
| TraceDriver.Driver.NothingLeft | Malloclab/mdriver.c:656-659 | with no live id and no leak, nothing is mapped when the run ends |
| TraceDriver.Driver.RequestsFitHeap | Malloclab/mdriver.c:749-756 | the bytes of all live requests never exceed the mapped bytes |
| HeapTheorems.BlocksTileChunk | Malloclab/mm.c:94-112 | in every reachable state each byte of [c+12, c+N-4) of a chunk lies in exactly one block, and no other byte does |
| HeapTheorems.ChunkHasLiveBlock | Malloclab/mm.c:316-342 | every mapped chunk holds a live block |
| HeapTheorems.BalancedHeapIsEmpty | Malloclab/mm.c:316-342 | when nothing is live there is no chunk, block, free-list node or page left |
| HeapTheorems.FreeUndoesCarve | Malloclab/mm.c:367-439 | freeing a block straight after carving it restores the layout of all blocks |
| HeapTheorems.FreeUndoesNewChunk | Malloclab/mm.c:441-474 | freeing a block straight after mapping a chunk for it gives the chunk back and restores the layout |
| HeapTheorems.ReleaseJoins | Malloclab/mm.c:386-439 | a freed block becomes one with the free blocks that touch it on either side and with no other; the right one leaves the list, the left one keeps its place on it, and without a left one the block goes to the front; the order of the others stays |
| HeapTheorems.PayloadsSound | Malloclab/mm.c:183-203 | payloads are 16-aligned, wholly on mapped pages and pairwise disjoint |
| HeapTheorems.FreeListOnce | Malloclab/mm.c:478-515 | the free list holds each free block exactly once and nothing else |
| HeapTheorems.LiveFitsHeap | Malloclab/memlib.c:61-64 | the sum of live requested sizes is at most what is mapped |
| Allocator.Mm.MmInit | Malloclab/mm.c:118-177 | the empty heap satisfies the invariant |
| Allocator.Mm.MmMalloc | Malloclab/mm.c:183-203 | NULL exactly for size 0; otherwise, with n the least multiple of 16 that is at least 32 and at least size + 8: out of memory exactly when no free block has n bytes and mmap refuses the least page multiple that is at least 65536 and 16 n, with nothing changed; else a payload that was not live, of n to n + 16 bytes, in the first free block of n bytes or, exactly when there is none, in a chunk of that least size; what is left over beyond 16 bytes is a free block behind it, first on the list; every other block and payload byte stays |
| Allocator.Mm.Search | Malloclab/mm.c:188-196 | the search ends at the first listed block of sufficient size, and with a null pointer exactly when no free block has that size |
| Allocator.Mm.SetAllocated | Malloclab/mm.c:367-384 | the block gives its first bytes when more than 16 are left over, and the rest is a free block of exactly the remaining size, first on the list; otherwise it is taken whole; the heap invariant holds |
| Allocator.Mm.MmFree | Malloclab/mm.c:248-342 | a live block is released and joined with its free neighbours, its chunk is unmapped exactly when the joined block spans it; a block that is already free is left alone; every other payload byte stays |
| Allocator.Mm.FreeBlock | Malloclab/mm.c:316-322 | the two tags cleared and the coalescing that follows: layout and list are those of Release |
| Allocator.Mm.Neighbours | Malloclab/mm.c:390-398 | the tests for the two neighbours are right: allocated, or the edge of the chunk, exactly when no free block touches on that side |
| Allocator.Mm.Coalesce | Malloclab/mm.c:386-439 | in all four cases the result is the block from the start of the left free neighbour to the end of the right one, and the list is exactly the free blocks again |
| Allocator.Mm.JoinNext | Malloclab/mm.c:407-416 | with only the right neighbour free, the two blocks become one from the start of the freed block, and the list holds it in place of the neighbour |
| Allocator.Mm.JoinPrev | Malloclab/mm.c:419-426 | with only the left neighbour free, the two blocks become one from the start of that neighbour, and the list stays as it is |
| Allocator.Mm.JoinBoth | Malloclab/mm.c:428-436 | with both neighbours free, the three blocks become one from the start of the left one, and the right one leaves the list |
| Allocator.Mm.SpansChunk | Malloclab/mm.c:324-336 | the test of the prologue and the terminator holds exactly when the block spans its chunk |
| Allocator.Mm.ReturnChunk | Malloclab/mm.c:339-340 | the block leaves the list and exactly the pages that were mapped for its chunk are unmapped, so mem_unmap cannot abort |
| Allocator.Mm.Extend | Malloclab/mm.c:441-474 | fails exactly when mmap refuses the chunk, with nothing changed; otherwise a fresh chunk of the least page multiple that is at least 65536 and at least 16 times the block, at the address mmap gave, with one free block put first on the list |
| Allocator.Mm.PageSetUp | Malloclab/mm.c:94-112 | the five tag words of a new chunk (two prologue words, header, footer, terminator) at their absolute places, and nothing else written |
| Allocator.Mm.AddToFreeList | Malloclab/mm.c:478-502 | the list is the block followed by the old list, prev inverse to next throughout with a null prev at the head; only link cells of its nodes are written |
| Allocator.Mm.RemoveFromFreeList | Malloclab/mm.c:504-515 | the list is the old one without the block, wherever it stood, prev inverse to next throughout; only link cells of old nodes are written |
| Allocator.Mm.WriteTags | Malloclab/mm.c:47-56 | the header at bp - 4 and the footer at bp + size - 8 hold the tag, and nothing else is written |
| Allocator.Mm.ClientStore | Malloclab/mdriver.c:610 | a client's store into a live payload keeps the whole heap invariant and every other payload |
| Allocator.Mm.Memset | Malloclab/mdriver.c:610 | the payload is filled with the byte; heap and every other payload are kept |
| HeapClient.Client.Run | Malloclab/mm.c:183-342 | any program that mallocs, frees what it has and stores bytes inside what it asked for: the heap invariant holds throughout, different live handles have different payloads and nothing else is live, every payload holds every byte last stored there, and only a malloc for which no free block fits and mmap refuses can stop it; once all is freed nothing is mapped |
| HeapClient.Client.Malloc | Malloclab/mm.c:183-203 | one more malloc of such a program; it fails exactly when no free block fits and mmap refuses |
| HeapClient.MallocStep | Malloclab/mm.c:183-203 | a new payload leaves the program all it has, byte for byte, and no older handle points to it |
| HeapClient.FreeStep | Malloclab/mm.c:248-342 | giving one payload back leaves the program every byte of all others |
| HeapClient.StoreStep | Malloclab/mdriver.c:610 | a stored byte is the last one at its place and at no other |
| HeapClient.Client.AllGivenBack | Malloclab/mm.c:316-342 | once a program has freed every handle, no block and no page is left |
| Allocator.BlockSizeFits | Malloclab/mm.c:183-187 | a block holds the request and its tags, is a multiple of 16 and at least 32 |
| Allocator.ChunkSizeFits | Malloclab/mm.c:441-465 | for every request the block is the least multiple of 16 that holds it with its tags and the chunk the least page multiple that is at least 65536 and 16 times the block; the chunk size fits an int tag exactly when the request is at most 0x7FFFEF8 |
| Allocator.BlockSizeIs | Malloclab/mm.c:183-187 | the size computed for a request is the least multiple of 16 that is at least 32 and 8 more than the request |
| Allocator.ChunkSizeIs | Malloclab/mm.c:465-466 | the size computed for a chunk is the least page multiple that is at least 65536 and 16 times the block |
| Allocator.CarveDivides | Malloclab/mm.c:367-384 | a block that exceeds the request by more than 16 is divided in two at exactly the requested size; any other is taken whole, so a payload never has more than 16 bytes to spare |
| Words.PackRoundTrip | Malloclab/mm.c:47-53 | the size and the bit packed into a tag are both read back |
| HeapShape.SplitShape | Malloclab/mm.c:367-384 | splitting a block keeps the tiling, the alignment, the minimum size and the neighbour relations |
| HeapShape.MergeShape | Malloclab/mm.c:407-436 | merging two touching blocks keeps the tiling, the alignment, the minimum size and the neighbour relations |
| HeapMemory.PutTagsKeepsLinks | Malloclab/mm.c:47-59 | writing the tags of any block changes no link of a listed node: tags and links never collide |
| HeapMemory.NodesKeepTags | Malloclab/mm.c:58-59 | writing links of listed nodes changes no tag and no wall |
| HeapMemory.PutTagsKeepsPayloads | Malloclab/mm.c:51-56 | writing tags changes no payload byte |
| HeapMemory.NodesKeepPayloads | Malloclab/mm.c:58-59 | writing links of free blocks changes no payload byte of a live one |
| HeapMemory.PushLinks | Malloclab/mm.c:478-502 | pushing a node keeps prev inverse to next, with a null prev at the head |
| HeapMemory.UnlinkLinks | Malloclab/mm.c:504-515 | after unlinking a node, wherever it is, prev is still inverse to next, with a null prev at the head |
| HeapState.CarveShape | Malloclab/mm.c:367-384 | the layout after set_allocated is again a tiling |
| HeapChunks.SetUpStep | Malloclab/mm.c:94-112 | the words of page_set_up make the chunk one well-tagged free block between walls, and touch nothing else |
| HeapChunks.DropStep | Malloclab/mm.c:339-340 | unmapping a chunk leaves tags, walls, links and payloads of all others as they are |
| HeapTidy.PrologueTest | Malloclab/mm.c:324-335 | two tag words (8, allocated) lie below a block exactly when it is the first of its chunk |
| HeapTidy.TerminatorTest | Malloclab/mm.c:327-336 | an allocated tag of size 0 lies above a block exactly when it is the last of its chunk |
| HeapTidy.CarveTidy | Malloclab/mm.c:367-384 | taking a block leaves no two adjacent free blocks and no idle chunk |
| HeapTidy.ReleaseTidy | Malloclab/mm.c:386-439 | releasing a block leaves no two adjacent free blocks |
| HeapTidy.ReleaseIdle | Malloclab/mm.c:386-439 | after a release only the chunk of the released block can be idle |
| HeapTidy.ReleaseSameBlocks | Malloclab/mm.c:386-439 | joining a released block with its free neighbours leaves every other live block its place and size |
| HeapTidy.NewChunkTidy | Malloclab/mm.c:441-474 | a new chunk touches no block of another |
| HeapTidy.DropTidy | Malloclab/mm.c:339-340 | once the idle chunk is gone every chunk holds a live block |
| HeapAccount.CarveAccount | Malloclab/mm.c:367-384 | set_allocated keeps 16 bytes a chunk plus the sizes of all blocks equal to what is mapped |
| HeapAccount.ReleaseAccount | Malloclab/mm.c:386-439 | freeing and coalescing keep 16 bytes a chunk plus the sizes of all blocks equal to what is mapped |
| HeapAccount.ExtendAccount | Malloclab/mm.c:441-474 | mapping a chunk keeps 16 bytes a chunk plus the sizes of all blocks equal to what is mapped |
| HeapAccount.DropAccount | Malloclab/mm.c:339-340 | unmapping a chunk keeps 16 bytes a chunk plus the sizes of all blocks equal to what is mapped |
| Bytes.StoreKeepsHeap | Malloclab/mdriver.c:610 | one byte stored into a live payload leaves tags, walls and links as they are |
| Bytes.KeptKeepsFill | Malloclab/mdriver.c:605-610 | a payload whose words are kept is still filled |
| Ranges.EndpointTestGap | Malloclab/mdriver.c:396-404 | the overlap test is exact but for ranges that strictly contain a recorded one: it accepts those, and only those, by mistake |
| Ranges.EndpointTestMisses | Malloclab/mdriver.c:398-399 | a payload of 100 bytes at 4096 around a recorded one at 4112..4127 is aligned and on mapped pages, passes the overlap test, and overlaps |
| Ranges.RangeList.AcceptedOverlap | Malloclab/mdriver.c:362-405 | a payload that add_range accepts overlaps a recorded one exactly when it strictly contains it |
| Ranges.OverlapAccepted | Malloclab/mdriver.c:362-418 | both calls of add_range succeed: first 16 bytes at 4112, then the 100 bytes at 4096 around them |
| Ranges.ProbesCoverRange | Malloclab/mdriver.c:380-394 | probing every 4096 bytes and the last byte reaches every page of the range |
| Ranges.RangeList.AcceptableIs | Malloclab/mdriver.c:362-405 | what add_range accepts: 16-aligned, every byte on a mapped page, and each recorded range wholly apart from it or strictly inside it |
| Ranges.RangeList.OnMappedPages | Malloclab/mdriver.c:380-394 | the page loop answers whether every probed address lies on a mapped page |
| Ranges.RangeList.Clear | Malloclab/mdriver.c:396-405 | the overlap loop answers whether neither end of the new range lies in a recorded one |
| Ranges.RangeList.AddRange | Malloclab/mdriver.c:362-418 | accepts exactly the acceptable ranges and links a new node in front; otherwise changes nothing |
| Ranges.RangeList.RemoveRange | Malloclab/mdriver.c:423-436 | cuts out the first node that starts at the address, if there is one |
| Ranges.RangeList.ClearRanges | Malloclab/mdriver.c:441-451 | the walk over the list terminates and leaves it empty |
| PageIndex.BitsArePageNumber | Malloclab/pagemap.c:18-23 | the three index macros together are the page number |
| PageIndex.PageNumberInjective | Malloclab/pagemap.c:18-23 | different pages have different index triples, so no two share an entry |
| PageIndex.EachPageOnce | Malloclab/pagemap.c:91-101 | the list names each mapped page once; it is as long as the set is large |
| PageIndex.Pagemap.Locate | Malloclab/pagemap.c:25-49 | the walk down the tables, allocating on the way, ends at the entry of the page and loses none |
| PageIndex.Pagemap.EntryMapped | Malloclab/pagemap.c:25-77 | an entry's address is set exactly when it is on the list, exactly when its page is in the set |
| PageIndex.Pagemap.LinkFront | Malloclab/pagemap.c:57-65 | the entry becomes the head of a list threaded both ways |
| PageIndex.Pagemap.Unlink | Malloclab/pagemap.c:71-76 | the entry leaves the list, wherever it is, and the list stays threaded both ways |
| PageIndex.Pagemap.Insert | Malloclab/pagemap.c:51-65 | adds the page to the set; aborts exactly when it was there |
| PageIndex.Pagemap.Remove | Malloclab/pagemap.c:66-77 | removes the page from the set; aborts exactly when it was not there |
| PageIndex.Pagemap.IsMapped | Malloclab/pagemap.c:79-89 | true exactly for addresses on pages of the set |
| PageIndex.Pagemap.ForEach | Malloclab/pagemap.c:91-101 | although it unlinks while it walks, it terminates, visits every mapped page exactly once, and leaves index and list empty |
| MemoryBridge.Memlib.Mmap | Malloclab/memlib.c:85-90 | the region offered next, when it is page-aligned, free and below 2^47; a refusal otherwise |
| MemoryBridge.Memlib.MemMap | Malloclab/memlib.c:67-98 | maps exactly the pages of the region mmap offers, which reads as zero; aborts exactly when the size is no multiple of the page size or mmap refuses; page_count stays the size of the set |
| MemoryBridge.RegionWords | Malloclab/memlib.c:67-133 | a mapped region reads as zero word by word; an unmapped one takes its own words away and no others |
| MemoryBridge.Memlib.MemUnmap | Malloclab/memlib.c:100-133 | unmaps exactly the pages of the range; aborts exactly when the range is unaligned or not wholly mapped |
| MemoryBridge.Memlib.MemReset | Malloclab/memlib.c:46-51 | every page still mapped is unmapped once, and the count is zero |
| MemoryBridge.Memlib.MemHeapSize | Malloclab/memlib.c:61-64 | the int product of page size and page count, widened as the code widens it |
| MemoryBridge.HeapSizeExact | Malloclab/memlib.c:61-64 | mem_heapsize gives the mapped size exactly below 2^19 pages |
| MemoryBridge.HeapSizeWraps | Malloclab/memlib.c:61-64 | for every page count the value is the mapped size modulo 2^32, as an int, as a 64-bit size_t |
| Sampler.Sampler.AddSample | Malloclab/fcyc.c:67-88 | values holds the kbest smallest samples seen, ascending (all of them while there are fewer) |
| Sampler.Sampler.Settle | Malloclab/fcyc.c:82-87 | the insertion loop puts the new value after all that are not greater |
| Sampler.SampleKept | Malloclab/fcyc.c:70-72 | while there are fewer than kbest samples, inserting one keeps all seen, ascending |
| Sampler.SampleReplaces | Malloclab/fcyc.c:73-76 | inserting a sample below the largest kept value in its place keeps the kbest smallest, ascending |
| Sampler.SampleDropped | Malloclab/fcyc.c:73-76 | leaving out a sample not below the largest kept value keeps the kbest smallest |
| Sampler.Sampler.HasConverged | Malloclab/fcyc.c:93-98 | whether the kbest smallest samples all lie within epsilon of the smallest |
| Pinwheel.NaivePinwheel | Performancelab/kernels.c:30-49 | the four quadrants turned, nothing else written |
| Pinwheel.Pinwheel | Performancelab/kernels.c:56-93 | the tiled loops turn the four quadrants and write nothing else whenever half the dimension is a multiple of 8 |
| Pinwheel.KernelsAgree | Performancelab/kernels.c:30-93 | two images that meet the contract of the naive and of the tiled pinwheel are the same image |
| Pinwheel.TilesFitIff | Performancelab/kernels.c:63-69 | the tiles stay inside their quadrant exactly when half the dimension is a multiple of 8 |
| Pinwheel.PinwheelTurnsPlaces | Performancelab/kernels.c:30-49 | the place of the source from which each place of the turned image comes |
| Pinwheel.TurnedPixels | Performancelab/kernels.c:30-49 | the four assignments of the naive loops, row by column, hold of the whole image at once |
| Pinwheel.FourTurnsRestore | Performancelab/kernels.c:30-49 | four applications give back the image, for every even dimension |
| Motion.WeightedCombo | Performancelab/kernels.c:160-180 | the pixel of the truncated weighted sum over the taps inside the image |
| Motion.NaiveMotion | Performancelab/kernels.c:190-197 | every place gets the weighted combination of its taps |
| Motion.ComboIsMix | Performancelab/kernels.c:138-180 | the weights truncated one after the other are the seven right shifts |
| Motion.CombinationIs | Performancelab/kernels.c:160-180 | half of the pixel, a quarter and an eighth along the diagonal and a thirty-second of four neighbours, each rounded down, with nothing for taps outside the image |
| Motion.MixFits | Performancelab/kernels.c:250-254 | the sum of the shifted taps fits in 16 bits |
| Motion.ComboPixelIffMix | Performancelab/kernels.c:149-180 | a pixel is the weighted combination exactly when each channel is the sum of the seven shifts |
| Motion.BlurPixel | Performancelab/kernels.c:245-254 | the shifts read past the end of src without effect on any pixel that is kept |
| Motion.LastColumn | Performancelab/kernels.c:271-279 | the pass over the last column is right whatever the tiles left there |
| Motion.RowBeforeLast | Performancelab/kernels.c:302-311 | the pass over the row before the last is right whatever the tiles left there |
| Motion.Motion | Performancelab/kernels.c:205-320 | for dim >= 2 with dim % 8 at most 2, whatever lies beyond src, every place gets the weighted combination and nothing beyond the image is written |
| Motion.MotionKernelsAgree | Performancelab/kernels.c:190-320 | motion and naive_motion give the same image |
| Motion.LastFourFitsIff | Performancelab/kernels.c:313-318 | the last assignment addresses a pixel of the image exactly when the dimension is at least 2 |
| Motion.TilesFitIff | Performancelab/kernels.c:239-260 | the tiles stay on the grid exactly when dim % 8 is at most 2 |
| RobustIo.Rio.ReadLine | Serverlab/csapp.c:1002-1026 | count, bytes, terminating NUL and the rest of the stream are a function of the byte stream alone, however read() cuts it up or is interrupted |
| RobustIo.Rio.ReadCount | Serverlab/csapp.c:980-995 | count, bytes and the rest of the stream of a counted read are a function of the byte stream alone, however read() cuts it up; on a failure the bytes already taken are lost to the caller, as in the code |
| RobustIo.Rio.Read | Serverlab/csapp.c:936-961 | between 1 and n bytes from the front of the stream, or one end-of-file or failure |
| RobustIo.Rio.Refill | Serverlab/csapp.c:940-951 | interruptions are passed over, the window is empty when it is refilled, an end of file or a failure is reported once |
| RobustIo.Rio.ReadIntoBuffer | Serverlab/csapp.c:941-942 | one answer of read(): a short read leaves the rest of what has arrived for the next one |
| RobustIo.Rio.Serve | Serverlab/csapp.c:936-1026 | any mixture of lines and counted reads hands out exactly what Served says; bytes handed out followed by the unread window are the bytes read() returned |
| RobustIo.RunsLoseNothing | Serverlab/csapp.c:936-1026 | over any mixture of lines and counted reads no byte is lost, repeated or reordered |
| RobustIo.ScanConserves | Serverlab/csapp.c:980-1026 | one request takes the first bytes of the stream and at most one marker |
| RobustIo.LineStopsWhereItMust | Serverlab/csapp.c:1007-1025 | a line holds a newline only at its end, and stops with Newline exactly then |
| RobustIo.ScanStopsWhereItMust | Serverlab/csapp.c:980-1026 | a request takes as many bytes as come before its stop: a limit is reached with all its room used, an end or a failure is the item behind the bytes, and that item alone is used up with them |
| RobustIo.StopsExactlyWhen | Serverlab/csapp.c:980-1026 | a request stops at a failure, an end or a newline exactly when, with room left and past bytes that do not stop it, it comes to one in the stream |
| RobustIo.FullExactlyWhen | Serverlab/csapp.c:980-1026 | a line is full exactly after maxlen - 1 bytes without a newline, a counted read exactly after n bytes |
| RobustIo.LostExactlyWhen | Serverlab/csapp.c:986-989 | bytes are taken and go unreported exactly when a failure comes after at least one byte, before the limit and before a newline that would end the line |
| RobustIo.ByteLost | Serverlab/csapp.c:986-989 | an input: one byte and then a failure, with room for two |
| RobustIo.FailureLosesByte | Serverlab/csapp.c:980-995 | the run: over a byte, a failure and a byte, the first counted read returns -1 and the second delivers the second byte |
| RobustIo.ClosedExactlyWhen | Serverlab/csapp.c:1002-1026 | rio_readlineb writes its NUL exactly unless a failure comes before the line is complete or the stream ends where the line would begin |
| RobustIo.ZeroLimitClosed | Serverlab/csapp.c:1007-1025 | a limit of zero takes nothing and still writes the NUL |
| RobustIo.ScanAfter | Serverlab/csapp.c:986-993 | a counted read may be served in any pieces |
| Semaphore.InvariantStep | Serverlab/csapp.c:842-868 | every step of P, V and the scheduler, with spurious wake-ups, keeps mutual exclusion, ready >= 0 and the wake-up bound |
| Semaphore.InvariantHolds | Serverlab/csapp.c:842-868 | every state of every run has mutual exclusion, ready >= 0 and the wake-up bound |
| Semaphore.ReadyCounts | Serverlab/csapp.c:842-868 | ready is the initial value plus the increments less the decrements, and never negative |
| Semaphore.NoLostWakeup | Serverlab/csapp.c:846-865 | with the mutex free and somebody asleep, ready is at most the number of woken threads still to re-check |
| Semaphore.StuckMeansNothingReady | Serverlab/csapp.c:842-868 | if nothing can move but by a new call or a spurious wake-up, everybody has returned or sleeps, and whoever sleeps finds ready at zero |
| Semaphore.UnitsAreConserved | Serverlab/csapp.c:842-868 | the units the threads hold and those that are ready make up the initial value |
| Semaphore.MutualExclusion | Serverlab/csapp.c:842-868 | initialised to one it is a lock: two threads never both hold a unit |
| Dictionaries.Dictionary.constructor | Serverlab/dictionary.c:17-24 | a new dictionary holds nothing and folds case as asked |
| Dictionaries.SameSpelling | Serverlab/dictionary.c:80-85 | two keys are the same without regard to case exactly when they are equally long and at each place equal or the two cases of one letter; with regard to case, exactly when they are equal |
| Dictionaries.FoundAfter | Serverlab/dictionary.c:35-66 | after an assignment the value is found under every spelling of its key, and every other key has what it had |
| Dictionaries.Dictionary.Set | Serverlab/dictionary.c:35-55 | maps the key to the value, so that it is found under every spelling the dictionary takes for the same, and leaves all other keys alone; an existing entry keeps the spelling of its key, a new one goes to the end; keys stay unique |
| Dictionaries.Dictionary.Get | Serverlab/dictionary.c:57-66 | the value found under the key in any spelling the dictionary takes for the same, or NULL exactly when there is none |
| Dictionaries.Dictionary.Grow | Serverlab/dictionary.c:46-50 | growth to 2 * (alloc + 1) keeps every entry |
| Dictionaries.OneEntryAKey | Serverlab/dictionary.c:35-55 | there are as many entries as keys |
| Query.QueryEncode | Serverlab/more_string.c:229-258 | the buffer holds the encoding and a NUL and has exactly that size |
| Query.QueryDecode | Serverlab/more_string.c:192-220 | the buffer holds the decoding and a NUL and has exactly that size; the look-ahead never leaves the string (what decoding is for every text: QueryForms.DecodeSpelled) |
| Query.EncodePass | Serverlab/more_string.c:234-252 | the sizing pass and the filling pass end at the same index, the length of the encoding |
| Query.DecodePass | Serverlab/more_string.c:197-214 | the sizing pass and the filling pass of query_decode end at the same index, the length of the decoding (its bytes for every text: QueryForms.DecodeSpelled) |
| Query.DecodeEncode | Serverlab/more_string.c:192-258 | decoding undoes encoding, for every byte string |
| QueryForms.DecodeSpelled | Serverlab/more_string.c:176-214 | decoding gives each unit of a text its byte: an escape with two hexadecimal digits of either case, a plus sign (a space), any other byte itself, a percent sign too where no two digits follow |
| QueryForms.EveryTextIsSpelled | Serverlab/more_string.c:192-214 | every text is made up of such units, so decoding is known for every text |
| QueryForms.EncodeByteIs | Serverlab/more_string.c:222-249 | a letter or digit is written as itself, any other byte as a percent sign and two lower-case digits |
| QueryForms.EncodeSpells | Serverlab/more_string.c:229-258 | an encoding is byte by byte the text so written |
| Query.EncodeIsInjective | Serverlab/more_string.c:229-258 | different strings have different encodings |
| Query.EncodeIsClean | Serverlab/more_string.c:236-249 | an encoding holds only letters, digits and percent signs |
| Query.EncodedFormKeys | Serverlab/more_string.c:153-158 | the keys that a form with encoded names leaves are the encodings of its names, for any list of fields |
| Query.EncodedNameFound | Serverlab/more_string.c:153-158 | among any fields, a name without a percent sign is found again exactly when it consists of letters and digits |
| Query.EncodedNameSurvives | Serverlab/more_string.c:153-158 | a form of one field with an encoded name, through the whole parse: the name is a key of the dictionary exactly when it consists of letters and digits |
| Query.EncodedNameMissed | Serverlab/more_string.c:153-158 | the name "a b", sent as a%20b=1, is not found |
| Query.ParseQuery | Serverlab/more_string.c:132-167 | the dictionary afterwards is the old one with every piece of the query assigned in order, a value being the string its pointer denotes, up to the first NUL (what the pieces of every text are, and what the dictionary then has: QueryForms.PiecesAreParts, QueryAssigns) |
| Query.ReadPiece | Serverlab/more_string.c:138-151 | one turn of the cursor copies the name and the value of the next piece and ends where the piece after it begins (its extent in characters: QueryForms.FirstPart) |
| QueryForms.FirstPart | Serverlab/more_string.c:132-162 | the first piece of a query is its first part: a name without NUL, #, =, & and ; and, behind an equals sign, a value without NUL, #, & and ;, or a name alone with an empty value; parsing goes on behind the separator |
| QueryForms.PiecesAreParts | Serverlab/more_string.c:132-167 | the pieces of a whole query are its parts in order, up to a fragment; only an empty last part is none |
| QueryForms.EveryTextIsQuery | Serverlab/more_string.c:132-167 | every text without NUL is such a query, so its pieces are known |
| QueryForms.QueryAssigns | Serverlab/more_string.c:132-167 | the dictionary then has for each key the decoded value of the last part with that name, in any spelling it takes for the same, and what it had when there is none |
| QueryForms.EqualsInValue | Serverlab/more_string.c:144-151 | the query a=b=c has one piece, whose value is b=c |
| Query.PiecesOfWritten | Serverlab/more_string.c:132-167 | the pieces of a written form are its fields, whichever of the two separators is used, up to a fragment |
| Query.WrittenFormAssigns | Serverlab/more_string.c:132-167 | each raw name of a form is mapped to its last value up to the first NUL, so the value comes back exactly when it holds no NUL; every other key keeps its value |
| Query.NulCutsValue | Serverlab/more_string.c:156-158 | the query a=%00b stores the empty string, not the NUL and the letter |
| ScriptTable.ParsePrintParse | Shelllab/parse.c:28-385 | for every script the parser accepts, printing it and parsing the lines again gives the same script, variable by variable, with a fresh table or the table left behind; it fails exactly when a printed line has outgrown the parser's buffer |
| ScriptTable.ReadLinesBack | Shelllab/parse.c:28-82 | printed groups are read back, before variables are resolved, exactly when every printed line fits the buffer |
| ScriptNames.PrintedLineOutgrows | Shelllab/parse.c:49-60 | a line of 1020 or 1021 letters is a script whose printed form is too long to be read |
| ScriptNames.LongLine | Shelllab/parse.c:49-60 | such a line: 1021 times the letter x |
| ScriptTable.GroupsKeepTable | Shelllab/parse.c:179-220 | in every run no name in the table begins an earlier one |
| ScriptTable.InternAgain | Shelllab/parse.c:197-202 | the prefix lookup finds a variable again under its full name and leaves the table alone |
| ScriptTable.InternFullName | Shelllab/parse.c:197-219 | looking up the full name of a variable does to the table what looking up the written name did |
| ScriptTable.OwnVariable | Shelllab/parse.c:197-219 | a name gets a variable of its own exactly when no earlier variable has a longer name beginning with it, unless the name itself came first |
| ScriptNames.OwnVariables | Shelllab/parse.c:197-219 | in any list of lookups equal names get one variable, and all different names get different ones exactly when, in order of first occurrence, none is a proper prefix of an earlier one |
| ScriptNames.OwnVariablesOfScript | Shelllab/parse.c:28-334 | the variables of every script the parser accepts: all different written names get different variables exactly when, in order of first occurrence, none is a proper prefix of an earlier one |
| ScriptNames.NamesShareVariable | Shelllab/parse.c:197-219 | in the script "x" $ab $a both names are one variable |
| ScriptTable.GroupsBack | Shelllab/parse.c:84-334 | naming the variables of resolved groups and resolving them again gives the same groups and table |
| ScriptSyntax.ReadGroupBack | Shelllab/parse.c:84-177 | reading a printed group gives it back: repetitions, result variable, commands and combiners |
| ScriptSyntax.ReadCommandBack | Shelllab/parse.c:222-290 | reading a printed command gives it back, with quoted arguments, variables and the variable after an at sign |
| ScriptSyntax.ReadLiteralBack | Shelllab/parse.c:292-334 | reading a quoted literal gives it back, the empty one included |
| ScriptSyntax.ReadNumberBack | Shelllab/parse.c:97-101 | the digit loop undoes decimal printing |
| ScriptSyntax.GroupIsClean | Shelllab/parse.c:84-334 | every group the parser produces is one that can be printed and read back |
| ScriptSyntax.PrintedIsText | Shelllab/parse.c:346-385 | a printed line is ASCII and holds no newline |
| ScriptGrammar.LiteralRead | Shelllab/parse.c:292-334 | a literal of words (letters, digits and . : _ - = /) and quoted texts is read whole, up to the end, a blank or a bar |
| ScriptGrammar.LiteralFails | Shelllab/parse.c:292-334 | any other character, or a quote that is never closed, makes the literal fail |
| ScriptGrammar.LiteralSpelled | Shelllab/parse.c:292-334 | whatever is read as a literal is such words and quoted texts, with their value |
| ScriptGrammar.CommandRead | Shelllab/parse.c:222-290 | a program and arguments behind blanks of any kind, words, quoted texts and variables, and an at sign with its variable, are read as that command |
| ScriptGrammar.CommandSpelled | Shelllab/parse.c:222-290 | whatever is read as a command is written in that way |
| ScriptGrammar.CommandsRead | Shelllab/parse.c:126-176 | commands with one kind of combiner between them, with or without blanks around it, are read in order |
| ScriptGrammar.GroupRead | Shelllab/parse.c:84-177 | repetitions, a result variable and commands are read as what they say, whatever blanks are between them |
| ScriptGrammar.GroupSpelled | Shelllab/parse.c:84-177 | whatever is read as a group is written in that way |
| ScriptLines.LinesRead | Shelllab/parse.c:28-82 | lines of ASCII of at most 1021 characters are read as the groups they hold; empty lines and comments are skipped |
| ScriptLines.LinesSpelled | Shelllab/parse.c:28-334 | lines that are read are all written in the grammar, so every other script fails |
| ScriptLines.GroupsResolved | Shelllab/parse.c:179-220 | when names become variables, each name begins the full name of its variable and everything else stays as it was written |
| ScriptLines.ScriptRead | Shelllab/parse.c:28-334 | every script written in the grammar is accepted, and its groups are what its lines say |
| ScriptLines.ScriptSpelled | Shelllab/parse.c:28-334 | every script that is accepted is written in the grammar |
| ScriptLines.WordsLine | Shelllab/parse.c:222-334 | a line of plain words between blanks is one command: the first word is the program and the others are its arguments, in order |
| ScriptLines.PathIsCommand | Shelllab/parse.c:292-334 | the line /bin/ls -l is the program /bin/ls with the argument -l |
| ScriptLines.PrintedForm | Shelllab/parse.c:346-385 | the exact text written for a group with repetitions, a result, arguments of both kinds, an at sign and two commands |
| ScriptParser.Parser.ParseScript | Shelllab/parse.c:28-82 | the line loop computes Parsed, or fails exactly where it has no value (which scripts these are, character by character: ScriptLines.ScriptRead, ScriptSpelled) |
| ScriptParser.Parser.ParseGroup | Shelllab/parse.c:84-177 | the group at the cursor, with its variables interned |
| ScriptParser.Parser.ParseRepeats | Shelllab/parse.c:87-109 | the repetitions at the head of a group, 1 when there are none, and the cursor behind them |
| ScriptParser.Parser.ParseCommands | Shelllab/parse.c:126-176 | the commands and combiners; mixed or dangling combiners fail |
| ScriptParser.Parser.ParseCommand | Shelllab/parse.c:222-290 | the command at the cursor, with its variables interned, or failure exactly where the grammar has none |
| ScriptParser.Parser.ParseArguments | Shelllab/parse.c:238-287 | the arguments of a command in order, and the variable after an at sign |
| ScriptParser.Parser.ParseVariable | Shelllab/parse.c:179-220 | the name at the cursor and its entry in the table |
| ScriptParser.Parser.Lookup | Shelllab/parse.c:197-217 | the first entry the name begins, or a new one at the end |
| ScriptParser.ParseLiteral | Shelllab/parse.c:292-334 | the unquoted text and how far it reached; the fixed buffer is never overrun (which texts these are, character by character: ScriptGrammar.LiteralRead, LiteralFails, LiteralSpelled) |
| ScriptParser.Skip | Shelllab/parse.c:336-340 | the cursor after the white space |
| ScriptParser.Parser.WriteScript | Shelllab/parse.c:346-385 | the lines written are those of Printed |
| ScriptParser.Parser.WriteGroup | Shelllab/parse.c:351-383 | the written line of a group is its printed form, variables under their full names |
| ScriptParser.Parser.WriteCommand | Shelllab/parse.c:367-380 | the written text of a command is its printed form, variables under their full names |

## Left out

- Timing, clocks, scores and the floating-point ratios of `eval_mm_util`: only its integer totals are modelled.
- `eval_mm_speed`, the libc variants and reading trace files: the same allocator calls without checks, or input.
- The page that `mem_map` maps and forgets now and then, and overflow of its activity counter: neither is tracked by the code.
- Allocator.Mm.MmMalloc: requests above 0x7FFFEF8 bytes, whose chunk size would not fit an `int` tag, are outside the contract.
- Allocator.Mm.MmFree: a pointer that starts no block is outside the contract, as freeing it is undefined in the code.
- TraceDriver.Driver.EvalMmUtil: the page counts behind the reported maximum heap size are those of the run; they are not computed from the trace, since they depend on where the allocator splits.
- The three level tables of `pagemap.c` are sequences of entries; the entries themselves, which are linked and unlinked, are heap objects.
- Several C functions are split into named steps (the cases of `coalesce`, the loops of `motion`, the halves of `parse_query`); each step is called where the code does it.
- Motion.Motion: `src` is read beyond its end as the code does, through a function that may give any pixel there; that such a read is undefined in C is not modelled.
- RobustIo.Rio.Read: a descriptor gives finitely many answers, so an endless run of interruptions, in which the call never returns, is not modelled.
- `rio_readn`, `rio_writen` and the system-call wrappers of `csapp.c`: loops over one call without a buffer, or one-line wrappers.
- Semaphore.ReadyCounts: the count is unbounded, so overflow of the `int` field and initial values above its range are not modelled; pthread calls are taken to succeed.
- Freeing of keys, values and buffers in `dictionary.c` and `more_string.c`: storage is not reclaimed in the model.
- Strings longer than an `int` can index, in `more_string.c` and `rio_readlineb`.
- `entity_encode`, header parsing and request-line parsing of `more_string.c`: the same loop shapes with simpler tables.
- ScriptTable.ParsePrintParse: the number of repetitions is unbounded; the code's `int` overflows for larger ones.
- ScriptParser.Parser.ParseScript: all failures are one result without a message, lines come as a sequence, and a last line without newline is held to the limit of the others.
- The values of script variables, and running scripts (`whoosh.c`): the parser only creates them; the rest is process control.
- The growth of the arrays of variables, arguments and commands in `parse.c` is a sequence that gets longer; growth by reallocation is modelled for the dictionary.
- `tinychat.c`: its handlers read and write a conversation in separate critical sections, so it promises no atomic step to prove.
- `inspect.c` and `matchlab.c`: no stable contract.
