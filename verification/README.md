# RScheme's stores, images and tables

A model in Dafny of the parts of the RScheme runtime that carry state with hard invariants, and
proofs of what they promise:

- **Log-structured store** (`FreeMap`, `LssFormat`, `LssLog`, `LssIndex`, `LssState`, `LssStore`,
  `LssView`, `LssRun`):
  the log of version 3 with its output buffers, the open-addressed index, the diff list, commit
  records and their chain, the free map, rewinding and reopening. `Lss.Sound` holds after every
  operation; it says, among other things, that every commit record on the volume still yields
  exactly the records it had when it was written (`HistOk`). `Lss.Valid` adds that index and commit
  record belong together, which only a failed change of generation breaks. A `View` is what a client
  sees of a store; `LssRuns.Run` takes it through any run, step by step, also after such a failure,
  and the lemmas about views (`LssViews`) say what runs promise.
- **Persistent page allocator** (`SizeClasses`, `PageAreas`): pages of blocks, the bump pointer, the
  free lists threaded through pages, reclaiming of emptied pages.
- **Heap image save and load** (`HeapImage`, `ImageTraversal`, `ImageNames`, `ImageFile`,
  `ImageWriter`, `ImageSave`, `ImageLoader`, `ImageRoundTrip`): the traversal that overwrites class
  words, naming, frames, the two loading passes, and the round trip.
- **Extendible hash tables** (`HashBits`, `HashTables`): directory doubling, bucket splitting,
  overflow chains, the specialised tables as finite maps, visiting and copying.
- **Regex machine** (`RegexMachine`, `RegexTrail`), **64-bit integers** (`LongInt`, `LongIntText`,
  `LongIntShift`) and the
  **common ancestor of fluid contexts** (`Fluid`).

`dafny verify dfyconfig.toml` checks the whole project.

## How the model stands to the code

Objects whose methods change fields are classes with those fields; a loop of the source is a loop
here. Where the source follows machine addresses the model uses an explicit map from addresses to
records owned by the class, so that sharing (directory slots that hold the same bucket, pairs
reached from two lists) is equality of addresses. Each class has a `Valid` predicate and
specification functions on plain values; the lemmas are about those values.

A volume is a sequence of 16-byte granules; a record is its header granule followed by filler.
The constants are those of the 32-bit build.

Where an assertion of the source would stop the program, or a loop never end, the model reports it, and
the contract says exactly when. The contracts of the free map also say what is left behind when its
assertions are compiled out; in the store they change nothing it relies on, and it goes on.

## What the proofs show about the code

- `fmapInsert` of a key that is already free trips its assertion on the number of entries exactly
  when the map is a single interval (`InsertIntoFullTrips`). In the store, deleting a number that has no
  record can do so (`DeleteTrips`); loading a line lazily cannot, nor can writing.
- `fmapFindAndDeleteRange` compares with `minr + cnt` in 32 bits; a run that includes the top key
  wraps, and every key is free afterwards (`TopKeyStaysFree`); using up the last interval trips an
  assertion (`TakingAllTrips`). The contract says exactly when.
- A failed `lss_set_generation` has already replaced the in-memory commit record by the oldest one of
  the chain. A commit after that records the oldest generation again and hides all between
  (`CommitAfterLostRewind`, `LostRewindForgets`); nothing is hidden exactly if the store stood at the
  oldest generation (`LostKeepsChainExactly`).
- After such a failure the commit record counts other lines than the index has. Once the logged index is
  given up, by a new line or a full diff list, the assertion in `lssi_commit` stops every commit,
  exactly if the numbers differ (`AdriftSave`, `AdriftCommitStops`). And the 75% limit no longer keeps a
  slot free: a probe never ends exactly if the table is full without the line (`FullTableNeverEnds`).
- Opening with a generation that does not exist opens the oldest one without an error.
- `lssi_find_last_cr` finds nothing exactly when the guess is 0 and the volume does not end in a commit
  block (`CommitOutOfSight`).
- In an object table, which compares keys alone, the key `#f` matches an unused slot. When the first
  match in scan order is one (`Mistakes`), a probe answers yes, an insertion adds no entry and leaves
  its value in the slot, where lookups find it until another key takes the slot, and a removal lowers
  the count alone (`FalseKeyIsMistaken`), after which clearing can keep entries (`ClearKeepsEntry`). In
  every other case, and so for every other key, lookups, insertions and removals are right.
- `rs_save_image_file` restores every class word exactly if no object that is not replaced occurs
  twice among the references and the static queue of replaced objects, which is refilled only by a
  save with a replacement table, records the class words of the heap at hand (`RepeatedReference`,
  `StaleQueue`).
- Replacement is a single step: an assertion stops the traversal exactly if a replacement that is itself
  replaced, and is not a reference, is reachable (`MeetsChain`, `ChainedReplacement`).
- `int_64_divu` adds one to the high word where a borrow should take one away. For divisors from 1 to
  2^63 it is right for all dividends exactly if the divisor is at most 2^31 or a multiple of 2^32.
- In the allocator, an object that fills one page exactly is marked large but freed as a small one; it
  is alone on its page, so the assertion that would object is never reached.

## Model

| member | source | states |
|---|---|---|
| FreeMaps.CanonicalUnique | packages/lss/freemap.c:12-14 | two sorted, disjoint, non-adjacent interval arrays with the same free keys are the same array |
| FreeMaps.DeleteThenReinsertIsIdentity | packages/lss/freemap.c:155-188 | deleting any keys one after the other and reinserting them in any order gives back the original array |
| FreeMaps.FreeMap.constructor | packages/lss/freemap.c:15-30 | a new map has every key free, in one interval |
| FreeMaps.FreeMap.DeleteQuick | packages/lss/freemap.c:64-113 | near the cached position: a hit removes exactly the key, a miss changes nothing |
| FreeMaps.FreeMap.Delete | packages/lss/freemap.c:155-188 | the key alone stops being free, the result says whether it was, the array stays canonical; an assertion trips exactly when the map held that key and nothing else |
| FreeMaps.FreeMap.DeleteRange | packages/lss/freemap.c:143-153 | exactly the keys of the range stop being free, none when it runs the wrong way round; the assertion trips exactly when the range holds every free key |
| FreeMaps.FreeMap.InsertQuick | packages/lss/freemap.c:246-312 | a hit adds exactly the key by growing, bridging or adding an entry, a miss changes nothing |
| FreeMaps.FreeMap.Insert | packages/lss/freemap.c:314-344 | the key alone becomes free; both assertions of the source, with the exact condition under which they stop the program |
| FreeMaps.FreeMap.FindAndDeleteRange | packages/lss/freemap.c:190-244 | takes the lowest run of cnt free keys at or above minr, and fails exactly when there is none; what the array is afterwards when the run is the whole last interval (an assertion trips), when it ends at the top key (a bound wraps and every key is free), and otherwise |
| FreeMaps.InsertIntoFullTrips | packages/lss/freemap.c:314-344 | inserting into a new map trips the assertion on the number of entries |
| FreeMaps.TopKeyStaysFree | packages/lss/freemap.c:190-244 | taking the top key of a new map leaves every key free |
| FreeMaps.TakingAllTrips | packages/lss/freemap.c:190-244 | taking all that is left trips the assertion and leaves an empty array |
| FreeMaps.FreeMap.FindHolding | packages/lss/freemap.c:115-141 | the search finds the entry that holds the key if there is one |
| FreeMaps.FreeMap.FindGap | packages/lss/freemap.c:246-312 | the search for the entry above a key that is not free |
| LssFormat.LocatorRoundTrip | packages/lss/lssv3.h:64-85 | a locator gives back volume and offset, and fits 32 bits |
| LssFormat.SpaceWordRoundTrip | packages/lss/lssv3.h:13-15 | the space word gives back the rounded size and the compression number |
| LssFormat.HeadIsStart | packages/lss/lssv3.h:97-104 | walking from any record start by the sizes in the headers meets every header and nothing that is not one |
| LssFormat.TiledConcat | packages/lss/lssv3.h:97-104 | appending whole records to a tiled log keeps it tiled |
| LssFormat.DiskRecordStable | packages/lss/lssv3.c:270-353 | what a commit record yields does not change when the log grows |
| LssLog.SegmentTailTiled | packages/lss/lssv3.c:140-199 | what a flush appends after the data is a whole number of IO blocks tiled by gap and trailer records |
| LssLog.CommitBlockTiled | packages/lss/lssv3.c:270-353 | a commit appends one tiled IO block that ends in an end-of-file record |
| LssLog.FindLastCommit | packages/lss/lssv3.c:1374-1469 | the scan finds the last commit record of a volume, and fails exactly when the guess is 0 and the last block is no commit block |
| LssLog.CommitOutOfSight | packages/lss/lssv3.c:1374-1469 | a volume with a commit record on it, ending in a data segment, on which the scan finds nothing |
| LssLog.LogFile.constructor | packages/lss/lssv3.c:391-408 | a volume with empty buffers is its own log |
| LssLog.LogFile.Flush | packages/lss/lssv3.c:140-254 | the buffered cells go to the volume at the offsets they had, followed by whole tiled blocks |
| LssLog.LogFile.WriteAlloc | packages/lss/lssv3.c:2008-2048 | the locator returned is where the record will be, whether it fits the buffer, a further buffer, or only after a flush; no buffer holds more than it has room for |
| LssLog.LogFile.Reserve | packages/lss/lssv3.c:1955-1984 | the reservation in the last buffer continues its base offset |
| LssLog.LogFile.WriteDone | packages/lss/lssv3.c:1922-1953 | shrinking the record to its final length leaves it at its locator and everything before it alone |
| LssLog.LogFile.WriteCommit | packages/lss/lssv3.c:270-353 | a commit block is appended to the volume at its end |
| LssLog.LogFile.ReadAt | packages/lss/lssv3.c:2099-2212 | reading a locator gives the cell of the log there, from a buffer or from the volume |
| LssIndex.NextHigherCapacity | packages/lss/lssv3.c:880-899 | the first capacity of the table above the old one, and beyond the table half as much again up to the next number whose low four bits are set |
| LssIndex.FirstFree | packages/lss/lssv3.c:960-1013 | the probe loop ends at a free slot, the 75% limit leaving one |
| LssIndex.Rehash | packages/lss/lssv3.c:960-1013 | growing the index keeps every line, with its offset, flags and contents |
| LssIndex.ReadMix | packages/lss/lssv3.c:1507-1553 | the index read from a master record has a slot for exactly its lines |
| LssIndex.ReadMixValue | packages/lss/lssv3.c:1507-1553 | every record number has the locator that the master record and its lines give |
| LssIndex.NotInTable | packages/lss/lssv3.c:1164-1241 | a probe that meets a free slot proves that the line is not in the table |
| LssIndex.AddLine | packages/lss/lssv3.c:1164-1241 | storing a line in the free slot a probe ended at keeps the table probeable and counts one slot more |
| LssState.AncestorFound | packages/lss/lssv3.c:1471-1499 | along prev_cr_at generations fall by one, so exactly the generations from the first to the current one are reached |
| LssState.AncestorStable | packages/lss/lssv3.c:1471-1499 | appending to the log does not change where a generation is found |
| LssState.HistSurvivesData | packages/lss/lssv3.c:140-254 | flushing data keeps what every commit record yielded when it was written |
| LssState.HistSurvivesCommit | packages/lss/lssv3.c:270-353 | a commit keeps what earlier records yielded, and the new record yields the contents it was written with |
| LssState.StoreKeepsView | packages/lss/lssv3.c:1015-1066 | while the master offset is set, logged index plus diff list equals the in-memory index through every store, diff overflow included |
| LssState.StoreDescribed | packages/lss/lssv3.c:1015-1066 | while the master offset is set, a store changes what the commit record describes at its key alone, whatever else it describes |
| LssState.StoreInNewLine | packages/lss/lssv3.c:1164-1241 | storing in a line that did not exist changes the value of that key alone |
| LssState.StoreInLine | packages/lss/lssv3.c:1164-1241 | storing in a line changes the value of that key alone |
| LssState.LoadKeepsFree | packages/lss/lssv3.c:907-958 | loading a line lazily frees only numbers without a locator |
| LssState.RehashKeeps | packages/lss/lssv3.c:960-1013 | growing the index changes no value |
| LssState.MasterWritten | packages/lss/lssv3.c:467-560 | the master index written for a commit yields every value of the in-memory index |
| LssState.ReplayDone | packages/lss/lssv3.c:1632-1652 | replaying the diff list over the logged index gives the index of the commit |
| LssState.MixLoaded | packages/lss/lssv3.c:1632-1652 | loading the master index gives a table that agrees with it and a free map without its numbers |
| LssState.CommitAfterLostRewind | packages/lss/lssv3.c:3009-3047 | a commit after a failed change of generation records the first generation again, is numbered after it and chained to it, and nothing but the two is on its chain |
| LssState.LostKeepsChainExactly | packages/lss/lssv3.c:3009-3047 | after a failed change of generation and a commit every generation is still reachable exactly if the store stood at the first |
| LssState.ChainIsAncestors | packages/lss/lssv3.c:1471-1499 | the records met along prev_cr_at are exactly the ones found by their generation numbers |
| LssState.ChainAfterCommit | packages/lss/lssv3.c:467-560 | a commit makes itself reachable and what was reachable from where the store stood, and nothing else |
| LssStore.Lss.Create | packages/lss/lssv3.c:805-830 | a new volume is valid and has no records |
| LssStore.Lss.GetLine | packages/lss/lssv3.c:907-958 | faulting a line in changes no value; it frees exactly the numbers of the line that have no locator, which were held back, so that no assertion trips |
| LssStore.Lss.ReleaseLine | packages/lss/lssv3.c:944-955 | exactly the numbers of the line whose entry is 0 become free |
| LssStore.Lss.Probe | packages/lss/lssv3.c:1164-1276 | linear probing ends at the line of the key, if it is there, or at a free slot; it never ends exactly if the table is full without the line |
| LssStore.Lss.IndexLoad | packages/lss/lssv3.c:1243-1276 | the index value of the record number, 0 when it has none; it ends exactly if the line is there or a slot is free |
| LssStore.Lss.GrowIndex | packages/lss/lssv3.c:960-1013 | the index grows without changing a value |
| LssStore.Lss.IndexStore | packages/lss/lssv3.c:1164-1241 | one key gets the value, all others keep theirs, the lines grow by that of the key if needed, and of the numbers that were free or that a loaded line lets go of, the key alone becomes free or stops being free; whatever the commit record counts; when it ends, and when fmapInsert trips |
| LssStore.Lss.DiffStore | packages/lss/lssv3.c:1015-1066 | the diff list gets the pair, or the logged index is abandoned when the list is full |
| LssStore.Lss.Write | packages/lss/lssv3.c:2393-2432 | the record reads back as written and no other record changes; what it does to the lines, to the commit record, to what is pending and to the free map; in a store adrift as well; it ends exactly if the line is there or a slot is free |
| LssStore.Lss.Delete | packages/lss/lssv3.c:2485-2492 | the record is gone, its number free and no other record changes; what it does to the commit record and to what is pending; in a store adrift as well; the assertion of fmapInsert trips exactly if the number is free and the free map is one interval |
| LssStore.DeleteTrips | packages/lss/lssv3.c:2485-2492 | deleting any number from a new store trips the assertion |
| LssStore.Lss.Read | packages/lss/lssv3.c:2214-2221 | exactly the live bytes of the record, whatever is buffered or flushed |
| LssStore.Lss.AllocRecs | packages/lss/lssv3.c:2494-2528 | the lowest run of free numbers from minr on, none of which has a record; free are the numbers that were, and those without a locator in the lines from that of minr on that were not in memory; where the free map is exact, these are all numbers from minr on without a record; found exactly if there is such a run |
| LssStore.Lss.LoadFreeLines | packages/lss/lssv3.c:2502-2515 | of the lines from that of minr on exactly those with an unused number are loaded, which frees these numbers and no others |
| LssState.LinesLoaded | packages/lss/lssv3.c:2506-2512 | the has-free flags tell exactly the lines that have an unused number, so that loading the flagged ones leaves out none |
| LssState.SearchMapExact | packages/lss/lssv3.c:2494-2528 | where every number without a record is free or in a line still on the volume, the numbers from minr on that the search finds free are those without a record |
| LssState.ExactStored | packages/lss/lssv3.c:1164-1241 | a store keeps the free map exact |
| LssState.ExactReleased | packages/lss/lssv3.c:907-958 | loading lines keeps the free map exact |
| LssState.HeldBackExact | packages/lss/lssv3.c:1632-1652 | a free map in which every number was free is exact once the numbers of the lines of the master index are held back |
| LssStore.Lss.WriteLine | packages/lss/lssv3.c:410-437 | a dirty line is logged, flagged exactly if it has an unused number, and no record changes |
| LssStore.Lss.FlushIndex | packages/lss/lssv3.c:467-517 | after it the logged master index and diff list say what the in-memory index says, and list its lines; the assertion stops it exactly if the commit record counts another number of lines |
| LssStore.Lss.WriteCr | packages/lss/lssv3.c:270-353 | the commit record on the volume yields what the in-memory one describes; all earlier ones yield what they did |
| LssStore.Lss.Commit | packages/lss/lssv3.c:467-560 | the generation rises by one, the new record yields the live map, earlier commits keep theirs, and the free map stays exact; after a failed rewind it yields what the in-memory commit record describes, and the assertion stops it exactly if the logged index is given up and the commit record counts another number of lines |
| LssStore.Lss.Walk | packages/lss/lssv3.c:1471-1499 | the rewind ends; it finds a generation exactly if it is between the first and the current one, and otherwise stops at the chain root |
| LssStore.Lss.LoadMindex | packages/lss/lssv3.c:1632-1652 | the index of a commit record, read back, gives exactly its map, the lines of its master index and of its diff list; a line only the diff list has makes the logged index stale; in the free map the numbers of its lines are exact, those the diff list deletes are free, and others are as they were |
| LssStore.Lss.SetGeneration | packages/lss/lssv3.c:3009-3047 | going to a generation gives exactly the map that commit recorded; exactly when each kind of generation number succeeds, is lost or stops the program, what each failed call leaves behind, and what becomes of the free map |
| LssStore.Lss.Attach | packages/lss/lssv3.c:562-580 | a store object on an existing volume, its history the volume's commits |
| LssStore.Lss.FindCr | packages/lss/lssv3.c:1501-1505 | which commit record an open settles on, and exactly when it settles on one, bookmarks included |
| LssStore.Lss.Open | packages/lss/lssv3.c:1654-1832 | opening yields exactly the map of the commit record it settles on, with an exact free map; it succeeds exactly when a last commit block or a guess is there, and the bookmark asked for is set |
| LssStore.ReopenAfterCrash | packages/lss/lssv3.c:1654-1832 | whatever was written after the last commit, reopening the volume gives back exactly the committed map, and an exact free map |
| LssStore.AllocAfterReopen | packages/lss/lssv3.c:2494-2528 | a record 5 is written and committed and the volume opened again: the first number handed out is 0 |
| LssRuns.Run | packages/lss/lssv3.c:467-560 | over any run of writes, deletes, allocations, commits and changes of generation the store goes from view to view as Step says, also after a failed change of generation; every commit record, old or made on the way, yields what its view says it recorded; it stops exactly where an assertion stops a commit or a change of generation, an allocation meets the top key, or, adrift, a probe loops for ever |
| LssViews.SaveRecords | packages/lss/lssv3.c:467-560 | each commit of a run adds, for good, the generation after the current one, with what was pending at that step: the live records, unless a change of generation has failed |
| LssViews.StraightRun | packages/lss/lssv3.c:2393-2492 | without changes of generation every record is what the last write or delete before made of it, in a store adrift as well |
| LssViews.StepInStep | packages/lss/lssv3.c:467-503 | commit record and index stay in step through everything but a change of generation that fails, and in step a commit always goes through |
| LssViews.StaysOnTrail | packages/lss/lssv3.c:1471-1499 | where the store can go back to it still can after any operation that does not go back further |
| LssViews.GoBack | packages/lss/lssv3.c:3009-3047 | going to the generation a commit of the run made brings back the records as they were then, whatever was done since, as long as no change of generation went back further, to a bookmark, or failed |
| LssViews.LostThenSave | packages/lss/lssv3.c:3009-3047 | after a failed change of generation that moved the store, and a commit, only the new generation and the first can be gone back to, with the records still those from before |
| LssViews.StrayedGap | packages/lss/lssv3.c:3009-3047 | a failed change of generation that moves the store leaves it with the first generation pending, and with as many uncounted lines as its index has more than that generation |
| LssViews.AdriftRun | packages/lss/lssv3.c:1015-1241 | in a store adrift writes and deletes leave the number of uncounted lines; until the logged index is given up, they change what is pending as they change the records |
| LssViews.AdriftSave | packages/lss/lssv3.c:467-503 | a commit adrift is stopped exactly if the logged index has been given up and lines are uncounted; before it is given up, it records the live records exactly if every record that differed has been written or deleted since |
| LssRuns.WorkAndGoBack | packages/lss/lssv3.c:3009-3047 | operations, a commit, more operations, and back: the store and the commit record yield what the first operations made of the records they found |
| LssRuns.LostRewindForgets | packages/lss/lssv3.c:3009-3047 | a record written and committed, a rewind that fails, and a commit: the record is live but not in the new generation |
| LssRuns.AdriftCommitStops | packages/lss/lssv3.c:467-503 | a rewind that fails, a write to a new line and a commit: the index has two lines, the commit record counts one, and the assertion stops the commit |
| LssRuns.FullTableNeverEnds | packages/lss/lssv3.c:1164-1241 | a rewind that fails, and writes that fill the table of seven lines: the next write to another line never ends |
| SizeClasses.InitRequestTable | packages/rstore/areas.c:943-958 | the request table rounds up to the smallest class that holds the request |
| SizeClasses.InitActualTable | packages/rstore/areas.c:960-971 | the actual-size table rounds down to the largest class a block can satisfy |
| SizeClasses.RoundsUpUnique | packages/rstore/areas.c:943-958 | the class of a request is unique |
| SizeClasses.RoundsDownUnique | packages/rstore/areas.c:960-971 | the class of a block is unique |
| SizeClasses.ReusedBlockFits | packages/rstore/areas.c:35-47 | a free block of the class of a request is at least as large as the request |
| PageAreas.PAllocArea.constructor | packages/rstore/areas.c:98-157 | a new area has one page, with the area object and an end marker, the bump pointer at the marker, and no free block |
| PageAreas.PAllocArea.Reuse | packages/rstore/areas.c:225-319 | fails exactly when the class list is empty; otherwise the lowest free block of the class on the first page of the list becomes one object more, large enough, no other moved; the broken-freelist error cannot happen |
| PageAreas.FindLowest | packages/rstore/areas.c:273-308 | the scan finds the lowest free block of the class |
| PageAreas.PAllocArea.TakeBlock | packages/rstore/areas.c:284-301 | the block stops being free, and the page leaves the list exactly when it was the last of its class on it |
| PageAreas.PAllocArea.Bump | packages/rstore/areas.c:402-480 | the next block of the current page if it fits there, or the first of a new one: one object more, of exactly this size, and the bump pointer behind it |
| PageAreas.PAllocArea.Alloc | packages/rstore/areas.c:321-481 | a new object where none was, large exactly when it does not fit a page: a large one at the start of the new pages, a small one at the lowest free block of its class on the first page of its list when there is one, else at the bump pointer, or on the new page when it does not fit; its exact size, the free blocks, the lists and the bump pointer afterwards; nothing else changes, and pages stay apart |
| PageAreas.PAllocArea.Dealloc | packages/rstore/areas.c:909-939 | the object is gone, no other is; while another object lives on its page its block joins the free blocks, and the page goes to the front of the list of its class when it had none; otherwise the page goes, with its free blocks, and leaves every list, the order kept; where the first call puts the vector of list heads |
| PageAreas.FreedIsReused | packages/rstore/areas.c:379-395 | two objects of 40 bytes, the first freed: the next object of 40 bytes is in its place |
| PageAreas.PAllocArea.DropLarge | packages/rstore/areas.c:527-536 | a large object goes with its pages, which are on no list |
| PageAreas.PAllocArea.DeallocSmall | packages/rstore/areas.c:752-907 | the object is gone and no other is; its block is free, or its page is gone, exactly if another object lives on the page; what becomes of the lists and of the bump pointer |
| PageAreas.PAllocArea.FreeBlock | packages/rstore/areas.c:844-906 | below, above, or as first of its class: the highest free block carries the link, and the page is pushed exactly when it had none |
| PageAreas.PAllocArea.FreedLast | packages/rstore/areas.c:654-749 | the emptied page leaves exactly the lists it was on, and the bump pointer leaves it |
| PageAreas.PAllocArea.RemovePage | packages/rstore/areas.c:594-643 | the page is unlinked from its class and from no other; neither broken-freelist error can happen |
| PageAreas.PAllocArea.RemoveOrNext | packages/rstore/areas.c:538-592 | the page links past the removed one exactly if it linked to it, and otherwise names the next page |
| PageAreas.FindLink | packages/rstore/areas.c:556-583 | the scan for the link ends at the highest free block of the class |
| PageAreas.ScanPage | packages/rstore/areas.c:799-826 | the highest free block of the class, and whether another object lives on the page |
| PageAreas.Gather | packages/rstore/areas.c:656-700 | the classes with a free block on the page, and where each list goes next |
| PageAreas.OnListIffFree | packages/rstore/areas.c:225-319 | a page is on the list of a class once, exactly if it holds a free block of it, and only the highest is marked |
| PageAreas.LiveObjectsDisjoint | packages/rstore/areas.c:402-470 | no two live objects of the area share a byte, whatever pages they are on, and all lie inside their pages |
| PageAreas.ListRemove | packages/rstore/areas.c:594-643 | linking a predecessor past a page gives the list without it |
| HashTables.HashTable.Install | handc/hasht/hashmain.c:56-83 | one entry more, whatever the table holds; buckets of other tables are not touched |
| HashTables.HashTable.Foreach | handc/hasht/hashmain.c:85-118 | every entry is visited exactly once, although directory slots share buckets |
| HashTables.HashTable.VisitChain | handc/hasht/hashmain.c:101-113 | the entries of one chain, empty slots skipped |
| HashTables.VisitedAtHome | handc/hasht/hashmain.c:94-100 | a directory index contributes exactly the entries whose home it is |
| HashTables.HashTable.Clear | handc/hasht/hashmain.c:19-35 | no entries and the same directory size; but a count of 0, right or wrong, keeps everything |
| HashTables.Heap.MakeBucket | handc/hasht/hashmain.c:42-50 | a bucket of empty slots where none was |
| HashTables.HashTable.Split | handc/hasht/htsplit.c:22-129 | the entry joins a full chain and none is lost; the sharing invariant holds again |
| HashTables.HashTable.AddBucket | handc/hasht/htsplit.c:31-42 | a directory slot without a chain gets a bucket of its own |
| HashTables.HashTable.Grow | handc/hasht/htsplit.c:48-73 | doubling the directory changes no entry and no lookup |
| HashTables.HashTable.Distribute | handc/hasht/htsplit.c:80-112 | both halves together hold the old chain and the new entry, told apart by the next hash bit |
| HashTables.Redirect | handc/hasht/htsplit.c:114-128 | exactly the indices of the split chain are redirected, by their next bit |
| HashTables.GrowKeeps | handc/hasht/htsplit.c:48-73 | after doubling, each bucket is still shared by exactly the indices congruent to its hashes |
| HashTables.SplitKeeps | handc/hasht/htsplit.c:76-128 | after the redirection, buckets of one more bit are shared by exactly the congruent indices |
| HashTables.WriteKeeps | handc/hasht/htsplit.c:16-20 | writing a slot of the chain that the hash leads to keeps the invariant and changes the entries by that slot |
| HashBits.IndexCongruent | handc/hasht/htstruct.h:34-37 | a directory index agrees with the hash in all bits a bucket uses |
| HashBits.OneMoreBit | handc/hasht/htstruct.h:34-37 | one more bit splits a congruence class in two |
| HashTables.Heap.ChainInsert | handc/hasht/chain.ci:31-52 | the chain under construction holds one entry more, in a new bucket when its last is full |
| HashTables.HashTable.Lookup | handc/hasht/special.ci:15-35 | the value the finite map has for the key, #f when it has none, unless the scan stops at an unused slot: then what is left in it |
| HashTables.HashTable.Probe | handc/hasht/special.ci:37-57 | answers yes exactly if the key is in the map or the scan stops at an unused slot |
| HashTables.HashTable.Remove | handc/hasht/special.ci:59-88 | the finite map without the key, and its old value, exactly unless the scan stops at an unused slot: then only the count falls, by one more than the entries |
| HashTables.HashTable.Insert | handc/hasht/special.ci:90-142 | the finite map updated at the key, and the previous value, exactly unless the scan stops at an unused slot: then no entry is added, and the value is left where the next lookup finds it |
| HashTables.OnlyFalseHitsUnused | handc/hasht/special.ci:15-142 | only the scan of an object table for #f can stop at an unused slot |
| HashTables.HashTable.Scan | handc/hasht/special.ci:90-120 | the first matching slot of the chain in scan order, or proof that there is none and an empty slot if there is one |
| HashTables.FalseKeyIsMistaken | handc/hasht/special.ci:15-142 | one entry installed and removed: a probe for #f answers yes, what is inserted under #f is found but is no entry, and removing it leaves a count of -1 |
| HashTables.ClearKeepsEntry | handc/hasht/special.ci:15-142 | after that, one entry more makes the count 0, and clearing leaves the entry |
| HashTables.HashTable.CopyChain | handc/hasht/tblcopy.c:19-32 | a chain of new buckets with the same contents in the same order |
| HashTables.HashTable.Copy | handc/hasht/tblcopy.c:34-77 | an equal table with the same sharing pattern, in buckets of its own |
| HashTables.TablesAreIndependent | handc/hasht/tblcopy.c:34-77 | tables without a common bucket do not see each other's operations |
| ImageTraversals.ImageSaver.SpotObject | handc/heapi/savetrav.c:101-161 | what a pointer stands for is queued, in the queue of its mode, if it was not before; the assertion trips exactly if it is a replacement that is itself replaced |
| ImageTraversals.ImageSaver.ScanObject | handc/heapi/savetrav.c:188-211 | afterwards everything the object points to is queued |
| ImageTraversals.ImageSaver.ScanQueue | handc/heapi/savetrav.c:266-291 | the queue is drained, and answers whether anything was taken |
| ImageTraversals.ImageSaver.TraverseAll | handc/heapi/savetrav.c:163-180 | it ends, with exactly the reachable objects queued, each once and in its own queue, or an assertion stops it, exactly if a replacement that is itself replaced is reachable; nothing is asked of objects that are not reached or of what is in a reference |
| ImageTraversals.TraversalComplete | handc/heapi/savetrav.c:163-180 | when every scanned queue is empty, queued and reachable are the same |
| ImageNames.AssignAllNames | handc/heapi/savetrav.c:521-525 | object number n of the order is named n, and nothing else is named |
| ImageNames.OrderIs | handc/heapi/savetrav.c:407-420 | the order has every reached object once |
| ImageNames.SetupReplacements | handc/heapi/savetrav.c:308-322 | replaced objects carry their replacement, and the queue their class words |
| ImageNames.SetupReferences | handc/heapi/savetrav.c:333-350 | references are marked; a repeated one has its mark saved instead of its class |
| ImageNames.CleanupQueue | handc/heapi/savetrav.c:324-331 | every queued object has its recorded class word again |
| ImageNames.CleanupReferences | handc/heapi/savetrav.c:293-306 | every reference has the class word saved at its last position |
| ImageSaves.Prepare | handc/heapi/savetrav.c:495-525 | after setup, traversal and naming exactly the reachable objects are named, unless the traversal is stopped |
| ImageSaves.Cleanup | handc/heapi/savetrav.c:541-547 | every class word of the heap, as LeftAs says |
| ImageSaves.SaveImage | handc/heapi/savetrav.c:485-560 | the image holds exactly the reachable objects and the heap is left as LeftAs says, unless the traversal is stopped, exactly if a replacement that is itself replaced is reachable |
| ImageSaves.RestoredExactly | handc/heapi/savetrav.c:293-331 | the heap is what it was exactly if no unreplaced object is a reference twice and the static queue of replaced objects fits this heap |
| ImageSaves.RestoredWithTable | handc/heapi/savetrav.c:541-547 | with a replacement table and no repeated reference every class word comes back |
| ImageSaves.RepeatedReference | handc/heapi/savetrav.c:293-306 | a save whose reference vector names an object twice leaves it marked |
| ImageSaves.StaleQueue | handc/heapi/savetrav.c:541-547 | a save with a replacement, a change of class and a save without replacements: the old class is back |
| ImageSaves.ChainedReplacement | handc/heapi/savetrav.c:101-161 | saving an object whose replacement is replaced stops the program |
| ImageFiles.OutputBuffer.Put | handc/heapi/savewrit.c:106-119 | the bytes follow what was put before, across flushes and a growing buffer |
| ImageFiles.OutputBuffer.Flush | handc/heapi/savewrit.c:75-97 | nothing is lost or reordered |
| ImageFiles.FrameAt | handc/heapi/savewrit.c:150-166 | walking by the rounded sizes meets frame after frame |
| ImageFiles.ReadFrame | handc/heapi/savewrit.c:150-166 | the size, mode, preamble and bytes of a frame read back as written |
| ImageFiles.FrameBytes | handc/heapi/savewrit.c:150-166 | the bytes of a frame: size, mode and preamble with the highest byte first, and padding to a word |
| ImageWriters.WriteObject | handc/heapi/savewrit.c:195-211 | one object, one frame: names for class and slots, bytes, symbol text or reference string |
| ImageWriters.WriteFrames | handc/heapi/savewrit.c:540-550 | all frames in name order, and the count the header gets |
| ImageWriters.WriteTables | handc/heapi/savewrit.c:637-668 | the lists of names for the load modes, with their lengths |
| ImageWriters.BuildRefTexts | handc/heapi/savewrit.c:581-600 | each used reference gets the string at its last position in the reference vector |
| ImageSaves.Output | handc/heapi/savewrit.c:567-635 | data area, lists, counts and entry together describe the named heap |
| ImageRoundTrips.UnswizzleIs | handc/heapi/savewrit.c:127-140 | a pointer is written as the name of what it stands for |
| ImageLoaders.ImageLoader.LoadFrames | handc/heapi/loadimag.c:525-577 | entry i of the object table is what frame i describes: a reference is what its name is bound to, or #f when it is not bound; new objects are each at an address of their own |
| ImageLoaders.ImageLoader.SwizzleObject | handc/heapi/loadimag.c:263-350 | class word and slots become the table entries they name |
| ImageLoaders.ImageLoader.SwizzleAll | handc/heapi/loadimag.c:582-640 | every listed object is swizzled once, and nothing else is touched |
| ImageLoaders.ImageLoader.Load | handc/heapi/loadimag.c:424-651 | the table and the swizzled objects of the image, references bound by name, symbols interned, the old heap untouched |
| ImageRoundTrips.LoadedIsIsomorphic | handc/heapi/loadimag.c:515-641 | the loaded graph is the reachable graph, references and symbols bound by name |
| ImageRoundTrips.ListsReady | handc/heapi/loadimag.c:582-640 | what a save wrote lists each new object once, in a list of its kind |
| ImageRoundTrips.SaveThenLoad | handc/heapi/loadimag.c:424-651 | loading what was saved gives an isomorphic graph: each reference what its name is bound to, or #f, each symbol the interned string of its slot 0; the saved heap is left as LeftAs says; or the save is stopped |
| ImageRoundTrips.ReferenceByName | handc/heapi/loadimag.c:653-678 | an object saved as a reference named n loads as what n is bound to, and as #f when it is not bound |
| ImageRoundTrips.ReplacementIsSaved | handc/heapi/loadimag.c:515-641 | an object that points to a replaced one loads pointing to the replacement, in new objects, classes kept |
| RegexMachines.Machine.RunMatch | modules/regex/runmatch.c:47-251 | the outcome of the ordered search, with the path's saves recorded on success and the save array untouched otherwise |
| RegexMachines.SearchIsFirstPath | modules/regex/runmatch.c:47-251 | a search that ends finds a match exactly if an accepting path exists, and then the first in branch order |
| RegexTrails.SearchIsFirstTrail | modules/regex/runmatch.c:47-251 | the outcome is that of the first full trail of moves, a branch taken before one passed by and a longer repetition before a shorter: a match where it ends with the places it passed, or an error where the program is ill-formed; no match exactly if no trail is full; and fuel runs out only on a trail as long |
| RegexTrails.StepMoves | modules/regex/runmatch.c:47-289 | what the search tries at a configuration is exactly the moves that the bytes of the opcode and the string allow, the preferred ones first; operands that are missing are errors |
| RegexTrails.KleeneMoves | modules/regex/runmatch.c:206-238 | a star tries every repetition of characters its opcode takes, from the longest down, a plus all but the empty one |
| RegexTrails.DownAt | modules/regex/runmatch.c:230-236 | the repetitions tried are the longest, then each shorter by one, down to the least allowed |
| RegexTrails.MemberIs | modules/regex/runmatch.c:81-93 | a character is in a set exactly if bit ch % 8, counted from the highest, of byte ch / 8 is set |
| RegexTrails.PathIsTrail | modules/regex/runmatch.c:47-251 | an accepting path of the search is a trail of moves, with the same saves |
| RegexTrails.TrailIsPath | modules/regex/runmatch.c:47-251 | an accepting trail of moves is a path of the search |
| RegexTrails.StarGivesBack | modules/regex/runmatch.c:206-238 | a star over one character followed by that character: the star gives one back, and there is no match in the empty string |
| RegexTrails.SavesTwoPlaces | modules/regex/runmatch.c:192-204 | the places before and after a character are in their registers |
| RegexTrails.BrokenAndEndless | modules/regex/runmatch.c:57-249 | an unknown opcode is an error, and a jump to itself never ends |
| RegexMachines.Machine.TryDown | modules/regex/runmatch.c:210-238 | repetitions are tried from the longest down to the least allowed |
| RegexMachines.FindMaxRange | modules/regex/runmatch.c:254-289 | as far as the repeated opcode can get |
| RegexMachines.MaxRangeUnique | modules/regex/runmatch.c:254-289 | that position is unique |
| RegexMachines.MatchAll | modules/regex/runmatch.c:95-109 | the literal matches exactly if the next characters are its own |
| RegexMachines.EarliestSave | modules/regex/runmatch.c:192-204 | after a success each register holds its earliest save on the path |
| RegexMachines.UnsavedRegister | modules/regex/runmatch.c:192-204 | registers the path does not save are untouched |
| RegexMachines.MoreFuel | modules/regex/runmatch.c:47-251 | an outcome does not depend on how much more fuel there is |
| LongInts.Add | handc/runtime/longint.c:108-122 | the sum modulo 2^64 |
| LongInts.Neg | handc/runtime/longint.c:282-289 | the negative modulo 2^64 |
| LongInts.Sub | handc/runtime/longint.c:308-311 | the difference modulo 2^64 |
| LongInts.Cmp | handc/runtime/longint.c:253-256 | an unsigned comparison |
| LongInts.AddU32 | handc/runtime/longint.c:292-306 | a 32-bit number added at a digit place, modulo 2^64 |
| LongInts.UMul | handc/runtime/longint.c:314-332 | the product modulo 2^64 |
| LongInts.DivU | handc/runtime/longint.c:383-442 | quotient and remainder, for every divisor from 1 to 2^63 that needs no borrow between the words |
| LongInts.DivRightIff | handc/runtime/longint.c:417-430 | for divisors from 1 to 2^63 the division is right for all dividends exactly if the divisor is at most 2^31 or a multiple of 2^32 |
| LongInts.DivWrong | handc/runtime/longint.c:425-429 | for each other divisor a dividend whose remainder comes out wrong |
| LongIntTexts.Mul | handc/runtime/longint.c:334-348 | the signed product, modulo 2^64 when it does not fit |
| LongIntTexts.Div | handc/runtime/longint.c:466-486 | truncated quotient and remainder with the sign of the dividend |
| LongIntTexts.TruncatedIs | handc/runtime/longint.c:466-486 | quotient times divisor plus remainder is the dividend, the remainder smaller than the divisor |
| LongIntTexts.Modulo | handc/runtime/longint.c:500-599 | the remainder with the sign of the divisor |
| LongIntTexts.FloorModIs | handc/runtime/longint.c:500-599 | that remainder is congruent to the dividend and between zero and the divisor |
| LongIntTexts.NumberReader.FillCache | handc/runtime/longint.c:671-689 | after it the cached quotient and remainder of 2^63 belong to the radix asked for |
| LongIntTexts.NumberReader.Parse | handc/runtime/longint.c:665-740 | accepts exactly the signed digit strings whose value is in [-2^63, 2^63), and returns that value |
| LongIntTexts.RoomLeft | handc/runtime/longint.c:717-725 | the check before each digit admits it exactly if the value stays in range |
| LongIntTexts.ToString | handc/runtime/longint.c:745-770 | the numeral of the signed value |
| LongIntTexts.NumeralRoundTrip | handc/runtime/longint.c:665-770 | reading the numeral of any integer gives the integer, for radix 2 to 36 |
| LongIntTexts.UpperRoundTrip | handc/runtime/longint.c:637-740 | so does reading it in upper case |
| LongIntTexts.DigitsAre | handc/runtime/longint.c:637-653 | the characters of each digit below 36: a decimal digit, or a letter of either case |
| LongIntTexts.NoDigit | handc/runtime/longint.c:637-653 | other characters are above every radix |
| LongIntTexts.DigitsConcat | handc/runtime/longint.c:693-735 | a digit string in front of n digits counts radix^n times |
| LongIntTexts.UpperNumeral | handc/runtime/longint.c:637-740 | letter case does not change what a numeral stands for |
| LongIntTexts.ReadLetters | handc/runtime/longint.c:637-740 | A is 10, -FF is -255 and +fF is 255 in radix 16, and A is no number in radix 10 |
| LongIntShifts.Lshr | handc/runtime/longint.c:180-195 | the unsigned value divided by the power of two |
| LongIntShifts.Ashr | handc/runtime/longint.c:197-216 | the signed value divided by the power of two, rounding toward minus infinity |
| LongIntShifts.Shl | handc/runtime/longint.c:218-232 | the product with the power of two, modulo 2^64 |
| LongIntShifts.DownIsFloor | handc/runtime/longint.c:180-216 | digit shifts with a fill from above divide and round down |
| LongIntShifts.UpIsProduct | handc/runtime/longint.c:218-232 | digit shifts from below multiply modulo 2^64 |
| HeapImages.ModeOfFixnum | handc/runtime/classes.c:44-47 | the image mode of a class is the fixnum in its slot 2; outside the modes it counts as 0 |
| Fluids.PairHeap.FindCommonAncestor | handc/runtime/fluid.c:77-134 | the first pair of `to` that is also in `from`, or its end, then, in order, the cars before it that are not vectors; every size word is restored |
| Fluids.SkipsVector | handc/runtime/fluid.c:77-134 | a value, a vector and the common pair: the descriptor has the pair and the value |
| Fluids.SharedTail | handc/runtime/fluid.c:94-103 | from the first shared pair on both lists are the same |
| Fluids.LongestTail | handc/runtime/fluid.c:94-103 | no longer common tail exists |
| Fluids.PairHeap.Mark | handc/runtime/fluid.c:89-92 | exactly the pairs of the list are marked |
| Fluids.PairHeap.Unmark | handc/runtime/fluid.c:115-118 | the marks are gone and nothing else differs |

## Left out

- Operating system calls, write errors, signals and memory mapping: a volume is a sequence and writes
  succeed; locators stay below their 28 bits.
- Compression: records are stored as they are.
- Further volumes, auxiliary buffers, moving records between volumes, attaching and detaching volumes
  and the choice between their commit records.
- Volume headers after creation, the zip algorithm and volume name records, file modes, serial numbers,
  time stamps and the volume flag bits of index lines.
- `lssv3_extend`, the index format without volume flags, `lss_tune`, `lss_get_index` and record queries.
- `cap_to_use` has no return statement in the source; the model uses the value it computes. The comment
  in `next_higher_capacity` says 1.75 times; the code, and the model, say 1.5.
- Several open accesses to one output buffer: a store has one record open at a time.
- LssStore.Lss.IndexStore: record numbers of the last line, from `MAX_RECNUM` up, are excluded, so that
  the top key of the free map stays free; the searches of the free map rely on it.
- LssStore.Lss.Write: the same record numbers are excluded.
- LssStore.Lss.Delete: the same record numbers are excluded.
- LssStore.Lss.LoadMindex: the assertion of `fmapInsert` that replaying a deletion can trip is not part of
  the contract.
- LssStore.Lss.AllocRecs: `Sound` is promised only for runs that stop short of the top key, because the
  source's bound wraps there. That the free map is exact (`Lss.Exact`) does not hold after it, as numbers
  handed out are neither free nor in use until they are written.
- FreeMaps.FreeMap.DeleteQuick: the array shift is modelled as moving what lies behind the entry; the
  source's count of bytes is taken as meant.
- Stack of garbage collection colours, area statistics, parent pointers and the fill patterns of
  persistent objects; the area's own object is not freed.
- PageAreas.PAllocArea.Dealloc: the vector of list heads is not freed through this call, as no caller
  holds it.
- Templates, parts, allocation areas, bignums, floating point and 32-bit vectors in images: their modes
  are outside `Covered` or `Writable`.
- The fixed-layout image header and its offsets: its fields are a record, the data area and the lists
  are bytes. Strings allocated while references and symbols are loaded are not modelled.
- ImageSaves.SaveImage: the queue of replaced objects must hold objects that are still in the heap.
- HashTables.HashTable.Lookup: keys are modelled up to the table's own equality, and a caller's hash is
  the one the key was stored under (`HashedAs`), as every hash function sees to.
- HashTables.HashTable.Split: the directory is not bounded by the width of a hash.
- Generic tables with user-supplied equality, and conversions of keys and values to lists.
- Regex counters (`RXM_INC`, `RXM_BOUNDLOOP`, `RXM_SETBOUND`), whose counts survive across alternatives,
  and the end-of-string hook.
- RegexMachines.Machine.RunMatch: recursion and loops are bounded by fuel; a program that never ends has
  no outcome for any amount of it.
- LongInts.DivU: division by zero, and divisors above 2^63, which the signed operations never pass.
- LongIntTexts.Div: divisors whose absolute value needs a borrow are a precondition, by `DivRightIff`.
- LongIntTexts.Modulo: the same divisors.
- LongIntTexts.NumberReader.Parse: characters are below 128, the range of the digit table that a signed
  `char` can index.
- LongIntShifts.Lshr: counts from 80 on, for which the source writes past its digits; so for the other
  two shifts.
- Bitwise operations and conversions to and from floating point of 64-bit integers.
- The bytecode interpreter, other arithmetic, FASL mapping and the command line.
