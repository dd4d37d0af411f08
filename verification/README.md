# SeedDB verification model

SeedDB is a small disk-based SQL engine. This project models three parts of it in Dafny and proves what they promise.

**Heap storage.** A slotted `Page` is an array of bytes with two cursors, changed in place. A `BufferPool` of frames
with a midpoint `LruReplacer` (a doubly linked list with sentinels) caches pages of a `Disk`, evicts with write-back and
counts pins. `StorageManager` and `HeapTableIterator` store and scan records through one pin at a time, and `Executor`
runs UPDATE and DELETE in two passes. Every class is tied to a value specification, layer by layer:

| layer | objects | specification | connection |
|---|---|---|---|
| page | `Pages.Page` | sequence of records per slot (`PageImages`, `PageCompaction`, `PageCodec`) | `Records(Image())` in every contract |
| replacer | `LruReplacers.LruReplacer` | two sequences, young and old (`LruLists`) | `Abs()` |
| pool | `BufferPools.BufferPool`, `PageManagers.PageManager` | pool as a value (`PoolModel`, `PoolInvariant`), plain store (`PoolRuns`, `PoolDiscipline`) | ghost `state`, `View` |
| table | `StorageManagers.StorageManager`, `TableIterators.HeapTableIterator` | pages of records, scan sequence, bag of rows (`HeapTables`, `TableListings`, `TableStores`) | `Table(file)`, `Ahead()` |
| statement | `Executors.Executor` | plan and outcome (`TableUpdates`), WHERE and SET (`UpdateStatements`) | `UpdateMeaning`, `UpdateDoes`, `DeleteMeaning` |

The chain ends in "UPDATE changes exactly the matching rows, each once, whatever pages they move to and whatever is
evicted meanwhile".

**SQL parser and printer.** `SqlGrammar` and `SqlStatements` hold the grammar as functions, `SqlParser.Parser` is the
recursive-descent parser that computes them, `SqlPrinter` is toString with its loops. `SqlRoundTrip` and
`SqlStatementRoundTrip` prove that parsing undoes printing for well-formed trees, `SqlWholeTree` and
`SqlWholeStatement` that of all trees only the well-formed ones have that property, and `SqlTokensKept` that parsing
loses nothing but parentheses. `SqlSpelling` and `SqlStatementSpelling` say as relations which token sequences spell a
tree, a statement or a script, by precedence and associativity and with every optional word; `SqlAcceptance` and
`SqlStatementAcceptance` prove that the parser accepts exactly these. `Lexers` is the character level, and `LexerText`
says which characters are which token.

**Codecs and query algorithms.** Row serializer, catalog file, LIKE, hash GROUP BY with its aggregates, the ORDER BY
comparator, DISTINCT and LIMIT/OFFSET, each a loop against a short specification.

**Meanings apart from the code.** Main operations have a second statement that uses none of the functions they are
proved against: `UpdateStatements` says UPDATE by WHERE and SET, `SortOrders` says ORDER BY, MIN and MAX by the values,
`Grouping.OutputIsHaving` says HAVING by the groups, `PoolRecency` says by the order of eviction what a hit, a miss and
an unpin do and that young pages are reached, `DiskFormats` says the stored bytes, and the grammar and token relations
above say what is parsed.

Where the code does not do what it or its comments say, the model follows the code, and a lemma says exactly when it
does: pinned pages can be evicted (`PoolPins.FetchEvictsPinnedIff` against the comment at src/storage/buffer/frame.h:41),
`LruReplacer::Pin` followed by `Unpin` loses a frame (`LruLists.PinLosesListedFrame`), NOT and IS NULL print without
parentheses (`SqlWholeTree.TreeBackIff`), floats with six decimals (`Numbers.SurvivesIff`), strings print with their quotes as they are
(`Lexers.PrintedStringIff`), a cross join prints as a comma that is not read after ON, and OFFSET prints without LIMIT
(`SqlWholeStatement.EveryStatementBackIff`), the sum of LIMIT and OFFSET is 64 bits wide (`SelectResults.LimitedIsWindowIff`),
COUNT is cut to 32 bits (`Aggregates.CountResult`), ORDER BY compares the wrong item behind an expression
(`SelectResults.ComparedItemIff`), UPDATE does not convert literals to the column type
(`Conversions.IntegerLiteralKeptIff`, `Conversions.FloatLiteralKeptIff`), NaN breaks the ORDER BY comparator
(`ValueOrders.OneKeyIff`) and the groups (`Grouping.GroupsArePartitionIff`).

Conventions. Objects with state are classes with a `Valid` predicate; `X.Valid()` holds between calls. Lemmas begin with
`hide` where the bodies of other functions would only slow the proof down. `dafny verify dfyconfig.toml` checks
everything.

## Model

| member | source | states |
|---|---|---|
| PoolDiscipline.DisciplineRefines | src/storage/buffer/buffer_pool.cpp:23-147 | main result: a client that holds at most one page, writes only to it and unpins what it wrote as dirty, a discipline stated on its operations and the plain store alone, is answered by a pool of at least one frame exactly as the plain store answers, whatever is evicted: the same pages and ids handed out, every new page granted while the file has room, and at the end the pool stands for the resulting plain store |
| PoolDiscipline.DisciplineFromDisk | src/storage/buffer/buffer_pool.cpp:8-147 | the same from an empty pool over any disk |
| PoolDiscipline.AllowedStep | src/storage/buffer/buffer_pool.cpp:23-147 | one operation allowed by the discipline is legal for the pool, answers as the store does and keeps: nothing pinned but the held page, once, and nothing unclean but that page |
| PoolRuns.RunRefines | src/storage/buffer/buffer_pool.cpp:23-147 | main result: every run of fetch, new, write-through-a-pin, unpin, flush, open and drop steps, with any number of pins, in which no miss and no new page meets a pinned victim, goes through pool plus disk as through a plain map from page ids to pages, and the pool invariant holds at the end |
| PoolRuns.StepRefines | src/storage/buffer/buffer_pool.cpp:23-147 | one such step keeps the invariant (every Ready frame is in the page table, every unpinned Ready frame is on the replacer list, listed frames are Ready) and changes the plain store exactly as the specification does |
| PoolRuns.FetchReturnsStored | src/storage/buffer/buffer_pool.cpp:23-74 | a fetch that succeeds hands out the page the store holds, on a hit and after any evictions |
| PoolRuns.InitialOk | src/storage/buffer/buffer_pool.cpp:8-17 | the empty pool over any disk satisfies the invariant and its store is the disk |
| PoolInvariant.FlushAllMakesDurable | src/storage/buffer/buffer_pool.cpp:132-147 | after FlushAll the disk alone holds, for every open file, what the pool and the disk held together |
| PoolInvariant.FetchFailsIff | src/storage/buffer/buffer_pool.cpp:23-74 | fetching an existing page fails exactly when it is not cached, no frame is empty and none is listed, and then every frame is pinned |
| PoolInvariant.NoVictimIff | src/storage/buffer/buffer_pool.cpp:214-228 | findVictim finds no frame exactly when none is empty and the replacer list is empty; then all are pinned |
| PoolInvariant.FetchKeeps | src/storage/buffer/buffer_pool.cpp:23-74 | a fetch keeps the invariant and the store, on a hit, a miss with eviction, and a failed load |
| PoolInvariant.NewPageKeeps | src/storage/buffer/buffer_pool.cpp:76-99 | allocating a page keeps the invariant |
| PoolInvariant.NewPageView | src/storage/buffer/buffer_pool.cpp:76-99 | a new page appends one fresh page to its file in the store, and changes nothing else |
| PoolInvariant.UnpinKeeps | src/storage/buffer/buffer_pool.cpp:101-122 | an unpin keeps the invariant and the store; the last unpin puts the frame on the replacer list |
| PoolInvariant.WriteKeeps | src/storage/buffer/buffer_pool.cpp:101-122 | writing through a pin changes exactly that page of the store |
| PoolInvariant.ReleaseView | src/storage/buffer/buffer_pool.cpp:223-227 | evicting a frame, with write-back when it is dirty, loses no page of an open file |
| PoolPins.FetchEvictsPinnedIff | src/storage/buffer/buffer_pool.cpp:41-58 | "pinned pages are never evicted" is false of the code; a fetch evicts a pinned page exactly when it misses and the next victim of the replacer list is a pinned frame |
| PoolPins.NewPageEvictsPinnedIff | src/storage/buffer/buffer_pool.cpp:76-99 | the same of a new page: it evicts a pinned page exactly when it allocates and the next victim is a pinned frame |
| PoolPins.PinDoesNotPreventEviction | src/storage/buffer/frame.h:41 | the concrete run: a page pinned again by a hit stays on the replacer list, and the next miss evicts it although its pin count is positive |
| PoolPins.PinnedStays | src/storage/buffer/frame.h:41 | a pinned page stays cached whenever the next victim is not pinned |
| PoolPins.NoPinsIsSafe | src/storage/buffer/buffer_pool.cpp:214-228 | with no pin held every eviction is safe and a victim is found |
| PoolPins.FetchAlone | src/storage/buffer/buffer_pool.cpp:23-74 | with no other pin held, fetching an existing page succeeds and leaves exactly that one pin |
| PoolPins.NewPageAlone | src/storage/buffer/buffer_pool.cpp:76-99 | with no other pin held, a new page is found a frame and leaves exactly that one pin |
| PoolPins.ScanKeepsYoungPages | src/storage/buffer/buffer_pool.cpp:23-122 | a scan of any number of uncached pages through a full pool leaves every page of the young sublist cached |
| PoolRecency.HitRefreshes | src/storage/buffer/buffer_pool.cpp:41-45 | after a hit on a listed frame that frame is first in the order of eviction and all others keep their order |
| PoolRecency.MissTakesLast | src/storage/buffer/buffer_pool.cpp:49-73 | a miss in a full pool gives up the last frame of the order and takes it for the new page; every other page stays in its frame |
| PoolRecency.MissWithRoom | src/storage/buffer/buffer_pool.cpp:214-221 | a miss while a frame is empty gives up nothing: all pages, the order and the disk stay as they are, and the first empty frame is taken |
| PoolRecency.HitSurvivesMiss | src/storage/buffer/buffer_pool.cpp:41-73 | so a page that was just hit survives the next miss while another frame is listed |
| PoolRecency.UnpinLists | src/storage/buffer/buffer_pool.cpp:101-122 | the last unpin lists the frame behind the young frames, any other one leaves the order as it is |
| PoolRecency.PinBalance | src/storage/buffer/buffer_pool.cpp:23-122 | a page that stays cached gains one pin with every fetch and loses one with every unpin, down to none; a page that comes in has one pin |
| PoolRecency.HitMakesYoungIff | src/storage/buffer/buffer_pool.cpp:43 | a hit makes a listed frame young exactly when it was young or the old sublist without it is within its share |
| PoolRecency.YoungIsReached | src/storage/buffer/buffer_pool.cpp:23-122 | from the empty pool of any size and target over any disk, fetching and unpinning one page twice makes it young |
| PoolRecency.ScanStartIsReached | src/storage/buffer/buffer_pool.cpp:23-122 | a run of fetches and unpins from the empty pool reaches a pool that meets every condition of ScanKeepsYoungPages, so scan resistance speaks of real pools |
| LruLists.ScanResistance | src/storage/buffer/lru_replacer.cpp:60-110 | from any state with 1 <= old <= target, any number of evict-then-unpin-a-new-frame rounds leaves the young sublist as it is and turns the old one over in order |
| LruLists.RebalanceMovesMidpoint | src/storage/buffer/lru_replacer.cpp:37-47 | rebalance leaves young ++ old as one sequence unchanged, ends with old <= target or young empty, and does nothing when that held before |
| LruLists.RebalanceDemotesAll | src/storage/buffer/lru_replacer.cpp:37-47 | once the old sublist is over its share rebalance demotes every young frame, since each demotion makes it longer |
| LruLists.AccessMovesToFront | src/storage/buffer/lru_replacer.cpp:72-88 | an access to a listed frame is move-to-front on the whole list |
| LruLists.EvictTakesLast | src/storage/buffer/lru_replacer.cpp:90-110 | eviction removes the last element of the whole list, and fails exactly on the empty list |
| LruLists.UnpinEntersAtMidpoint | src/storage/buffer/lru_replacer.cpp:60-70 | a new frame enters between young and old |
| LruLists.PlainLruIffNoYoung | src/storage/buffer/lru_replacer.cpp:60-70 | entering at the midpoint is entering at the front, as in plain LRU, exactly when the young sublist is empty |
| LruLists.UnpinListsIff | src/storage/buffer/lru_replacer.cpp:60-70 | an unpin puts the frame on the list exactly when no node of it was left behind by Pin |
| LruLists.PinLosesListedFrame | src/storage/buffer/lru_replacer.cpp:49-70 | pinned and unpinned, a frame is on the list exactly when it was not listed before the pin and never was pinned while listed: Pin leaves its node in the map, so Unpin returns early |
| LruLists.AccessKeeps | src/storage/buffer/lru_replacer.cpp:72-88 | access keeps the list free of repeats, balanced, and with the same members |
| LruLists.UnpinKeeps | src/storage/buffer/lru_replacer.cpp:60-70 | unpin keeps the list free of repeats and balanced |
| LruLists.EvictKeeps | src/storage/buffer/lru_replacer.cpp:90-110 | evict keeps the list free of repeats and balanced |
| LruLists.TargetOldSizeBounds | src/storage/buffer/lru_replacer.cpp:7-10 | the target size is at least 1, below the pool size when that is at least 2, and between the clamps the percentage of the pool, rounded down |
| LruReplacers.LruReplacer.constructor | src/storage/buffer/lru_replacer.cpp:7-18 | the sentinel chain represents two empty sublists; Valid ties the sentinels, the prev and next pointers, both size counters, the in_old flags and the map keys to them |
| LruReplacers.LruReplacer.Unlink | src/storage/buffer/lru_replacer.cpp:22-27 | takes one node out of the pointer chain |
| LruReplacers.LruReplacer.InsertAfter | src/storage/buffer/lru_replacer.cpp:29-35 | puts one node behind another and marks its sublist |
| LruReplacers.LruReplacer.Rebalance | src/storage/buffer/lru_replacer.cpp:37-47 | the pointer loop computes the Rebalance of the two sequences; Valid ties the sentinels, the prev and next pointers, both size counters, the in_old flags and the map keys to them |
| LruReplacers.LruReplacer.Pin | src/storage/buffer/lru_replacer.cpp:49-58 | computes Pin of the sequences; Valid ties the sentinels, the prev and next pointers, both size counters, the in_old flags and the map keys to them |
| LruReplacers.LruReplacer.Unpin | src/storage/buffer/lru_replacer.cpp:60-70 | computes Unpin of the sequences; Valid ties the sentinels, the prev and next pointers, both size counters, the in_old flags and the map keys to them |
| LruReplacers.LruReplacer.Access | src/storage/buffer/lru_replacer.cpp:72-88 | computes Access of the sequences; Valid ties the sentinels, the prev and next pointers, both size counters, the in_old flags and the map keys to them |
| LruReplacers.LruReplacer.Evict | src/storage/buffer/lru_replacer.cpp:90-110 | computes Evict of the sequences, and the node is removed from the map; Valid ties the sentinels, the prev and next pointers, both size counters, the in_old flags and the map keys to them |
| LruReplacers.LruReplacer.Size | src/storage/buffer/lru_replacer.cpp:112-114 | is the length of the whole list |
| BufferPools.BufferPool.constructor | src/storage/buffer/buffer_pool.cpp:8-17 | an empty pool of the given size |
| BufferPools.BufferPool.FetchPage | src/storage/buffer/buffer_pool.cpp:23-74 | the pool becomes the FetchPage of the pool as a value; the page returned is the one in the chosen frame |
| BufferPools.BufferPool.Load | src/storage/buffer/buffer_pool.cpp:49-73 | the miss path: Loading, read, then Ready and entered in the table, or Empty again |
| BufferPools.BufferPool.NewPage | src/storage/buffer/buffer_pool.cpp:76-99 | the pool becomes NewPage of the pool as a value |
| BufferPools.BufferPool.UnpinPage | src/storage/buffer/buffer_pool.cpp:101-122 | the pool becomes UnpinPage of the pool as a value |
| BufferPools.BufferPool.FlushPage | src/storage/buffer/buffer_pool.cpp:124-130 | the pool becomes FlushPage of the pool as a value |
| BufferPools.BufferPool.FlushAll | src/storage/buffer/buffer_pool.cpp:132-147 | both loops together flush every dirty frame |
| BufferPools.BufferPool.FindVictim | src/storage/buffer/buffer_pool.cpp:214-228 | first the first empty frame, then the replacer; the victim is flushed and dropped from the table |
| BufferPools.BufferPool.ReleaseFrame | src/storage/buffer/buffer_pool.cpp:223-227 | writes a dirty victim back, drops its table entry and marks it empty |
| BufferPools.BufferPool.FlushFrame | src/storage/buffer/buffer_pool.cpp:245-267 | writes a dirty Ready frame, and restores the dirty flag when its file is closed |
| PageManagers.PageManager.GetPage | src/storage/page_manager.cpp:90-95 | reads a stored page, and fails exactly when there is none; the page is untouched then |
| PageManagers.PageManager.WritePage | src/storage/page_manager.cpp:97-105 | writes a stored page, and fails exactly when there is none |
| PageManagers.PageManager.AllocatePage | src/storage/page_manager.cpp:107-109 | appends one zero block to an open file and names it |
| Disks.ReadWrite | src/storage/disk_manager.cpp:82-121 | reading a page after writes gives the last page written there, and other pages are as before |
| Disks.ReadAllocated | src/storage/disk_manager.cpp:123-150 | an allocated page reads as a blank page |
| Pages.Page.InsertRecord | src/storage/page.h:101-128 | inserts at the end of the slot array exactly when the record is not empty and fits; every other record keeps its bytes and slot, and the free space shrinks by the record and one slot; only calls in which the 16-bit sum wraps and lets the record through are left out |
| Pages.Page.GetRecord | src/storage/page.h:133-140 | the bytes of a live slot, or nothing for a deleted or out-of-range one |
| Pages.Page.DeleteRecord | src/storage/page.h:144-151 | empties exactly that slot; true exactly when it was live |
| Pages.Page.Compact | src/storage/page.h:155-185 | every record keeps its slot and its bytes, deleted slots stay deleted, and the free space is exactly the body minus the slot array minus the live bytes |
| Pages.Page.CollectLive | src/storage/page.h:162-169 | the first loop lists the live slots in slot order |
| Pages.Page.Repack | src/storage/page.h:171-182 | the second loop moves all live records to the top of the page without losing a byte |
| Pages.Page.Move | src/storage/page.h:176-182 | one round of it keeps every record placed so far and every slot not reached yet |
| Pages.Page.GetFreeSpace | src/storage/page.h:85-91 | the bytes between the cursors, 0 for a blank page |
| Pages.Page.SerializeTo | src/storage/page.h:192-197 | writes the image byte for byte |
| Pages.Page.DeserializeFrom | src/storage/page.h:200-203 | reads the image back from any block |
| PageImages.FreeSpaceExact | src/storage/page.h:85-91 | on a formatted page the 16-bit free space never wraps |
| PageImages.Inserted | src/storage/page.h:107-125 | writing below the data area and one slot entry keeps the page formatted and adds one record |
| PageImages.Deleted | src/storage/page.h:148-149 | zeroing a slot size keeps the page formatted and empties one record |
| PageCompaction.MoveOne | src/storage/page.h:176-182 | one record more is repacked, and none repacked before it is overwritten |
| PageCompaction.ReadyToMove | src/storage/page.h:176-182 | the record to be moved is live, lies within the body, and still fits above the slot array |
| PageCompaction.AllRepacked | src/storage/page.h:171-184 | after the last live record all slots are packed and every record has its old bytes |
| PageCompaction.LiveRest | src/storage/page.h:162-169 | the slots that were not listed are deleted ones |
| PageCodec.DeserializeSerialize | src/storage/page.h:192-203 | deserialize undoes serialize for every page image |
| PageCodec.SerializeDeserialize | src/storage/page_header.h:90-170 | writing back a block that was read clears its padding byte and its 16 reserved bytes and changes no other byte, so it undoes the reading exactly when those were zero |
| PageCodec.ZeroBlockIsBlank | src/storage/disk_manager.cpp:123-150 | the zero block an allocation writes reads as a page without slots or free space |
| DiskFormats.RecordInBlock | src/storage/page.h:44-47 | in the block of a formatted page, record s begins where bytes 64+4s and 65+4s say, lowest byte first, and is as long as the next two say; the slot count is in bytes 12 and 13 |
| RowSerializer.DecodeEncodeRow | src/storage/row_serializer.h:43-227 | deserializing an encoded type-conforming row, with any bytes behind it, gives the row back |
| DiskFormats.RowBytesIff | src/storage/row_serializer.h:64-113 | the bytes written are exactly, column by column, 1 for NULL, else 0 and the value: integers and bit patterns lowest byte first, a string with its length before it, a boolean as 0 or 1 |
| DiskFormats.AnyByteButZero | src/storage/row_serializer.h:136-197 | reading takes any flag but 0 for NULL, and any byte but 0 for true |
| RowSerializer.DecodeTruncated | src/storage/row_serializer.h:125-227 | deserializing any prefix of an encoding gives the columns that lie wholly in it, then NULLs |
| RowSerializer.DecodeConforms | src/storage/row_serializer.h:125-227 | whatever the bytes, the decoded row has the types of the columns |
| RowSerializer.SizeIsExact | src/storage/row_serializer.h:43-62 | the size pass counts exactly the bytes the write pass writes |
| RowSerializer.Serialize | src/storage/row_serializer.h:43-113 | both passes over the buffer produce the encoding of what the columns keep of the row, whatever types its values have |
| RowSerializer.AsColumnsKeeps | src/storage/row_serializer.h:64-113 | a row whose values have the types of the columns is kept as it is, and keeping again changes nothing |
| RowSerializer.IntegerKept | src/storage/row_serializer.h:75-84 | an integer literal is kept in an INTEGER column exactly when 32 bits hold it, and an INTEGER in a BIGINT column exactly when it is not negative |
| Conversions.IntegerLiteralKeptIff | src/storage/row_serializer.h:74-94 | an integer literal keeps its number in a BIGINT column, in an INTEGER column exactly when 32 bits hold it, and in a FLOAT or DOUBLE column exactly when it is zero: the bytes are not converted |
| Conversions.FloatLiteralKeptIff | src/storage/row_serializer.h:74-94 | for every finite double: it keeps its number in a DOUBLE column, in a FLOAT or INTEGER column exactly when it is zero, and in a BIGINT column exactly when it is the zero without a sign |
| Conversions.FiniteIsDouble | src/common/value.h:260-270 | the numbers that 64-bit patterns stand for are on the grid that the rounding of the other lemmas goes by |
| RowSerializer.DoubleInFloatColumn | src/storage/row_serializer.h:85-89 | a float literal in a FLOAT column is not converted: 1.5 is kept as 0 |
| RowSerializer.Deserialize | src/storage/row_serializer.h:125-227 | the bounds-checked pointer walk is the decoding |
| HeapTables.ScanIsExact | src/storage/table_iterator.cpp:26-77 | a scan position has ahead of it exactly the live records at or after it |
| HeapTables.ScanAscends | src/storage/table_iterator.cpp:26-77 | a scan visits them in page and slot order, each once |
| HeapTables.ScanIsTable | src/storage/table_iterator.cpp:26-98 | the bag of rows a full scan visits is the bag of rows of the table |
| HeapTables.AddKeeps | src/storage/storage_manager.cpp:242-274 | adding a record keeps every other record where it was |
| HeapTables.AddBag | src/storage/storage_manager.cpp:242-274 | adding a record adds its row to the bag |
| TableListings.AppendListing | src/storage/storage_manager.cpp:242-274 | a record added on the last page or a new one comes at the end of the scan, under its new TID, and nothing else in the scan changes |
| TableListings.AddListing | src/storage/storage_manager.cpp:303-326 | a record added on any page comes where its TID belongs in the scan, and nothing else in the scan changes |
| TableListings.ClearListing | src/storage/storage_manager.cpp:349-357 | a delete takes exactly the record of that TID out of the scan sequence |
| TableListings.UpdateListing | src/storage/storage_manager.cpp:291-347 | an update takes the old record out of the scan sequence and puts the new one where its TID belongs |
| HeapTables.ClearBag | src/storage/storage_manager.cpp:349-357 | clearing a record takes its row out of the bag |
| TableStores.FetchSettled | src/storage/buffer/buffer_pool.cpp:23-74 | between operations a fetch fails exactly for pages past the end, and changes no stored page |
| TableStores.NewSettled | src/storage/buffer/buffer_pool.cpp:76-99 | between operations a new page is one empty page more in one file |
| TableStores.WriteDone | src/storage/buffer/buffer_pool.cpp:101-122 | a write through the only pin, unpinned dirty, changes that page of the store and nothing else |
| TableStores.ReadDone | src/storage/buffer/buffer_pool.cpp:101-122 | unpinning a page that was only read gives the pin back and changes no stored page |
| PinnedPages.ReplaceOnPage | src/storage/storage_manager.cpp:314-325 | delete, compact, insert on a page whose free space plus the old size covers the new record and a slot: succeeds exactly for a non-empty record and loses nothing else |
| PinnedPages.RoomAfterCompaction | src/storage/storage_manager.cpp:314-321 | after the delete and the compaction the page has the bytes the room check of the in-place branch counts plus those deleted records wasted: the check is never too generous, and too strict only by the wasted bytes |
| PinnedPages.RewriteIfRoom | src/storage/storage_manager.cpp:303-326 | what updateRow does on the page of the record: found or not, room or not, and the page afterwards |
| StorageManagers.StorageManager.InsertRowInternal | src/storage/storage_manager.cpp:242-274 | appends the record on the last page when it fits there, else on a new page; fails exactly when no page can hold it or the file cannot grow; other files and all other records are untouched, and no pin is left |
| StorageManagers.StorageManager.InsertRow | src/storage/storage_manager.cpp:276-289 | appends what the columns keep of the row to the scan sequence of the named table, or changes no record; refuses unknown tables and oversized rows |
| StorageManagers.StorageManager.UpdateRow | src/storage/storage_manager.cpp:291-347 | succeeds exactly when the record is live and the new one can be stored; then the scan sequence loses the addressed record and gains the new one where its TID belongs, in place or on another page; else it says what is left; no pin is left on any exit |
| StorageManagers.StorageManager.MoveRecord | src/storage/storage_manager.cpp:328-346 | the migrating branch: the new record is stored before the old one is cleared |
| StorageManagers.StorageManager.DeleteRow | src/storage/storage_manager.cpp:349-357 | takes exactly the addressed record out of the scan sequence; reports success for a slot already deleted too |
| StorageManagers.StorageManager.CreateIterator | src/storage/storage_manager.cpp:359-372 | a scan of the whole table, or nothing for an unknown table |
| StorageManagers.UpdatableSize | src/storage/storage_manager.cpp:291-347 | an update of a live record succeeds only for records of 1 to 4028 bytes, and for all of them while the file can grow |
| StorageManagers.InsertGoesTo | src/storage/storage_manager.cpp:246-263 | an insert goes to the last page exactly when the record and its slot fit in what the slots, the records and the bytes wasted by deletes leave of the body, and to a new page otherwise |
| StorageManagers.UpdateGoesTo | src/storage/storage_manager.cpp:311-330 | an update stays on its page exactly when that holds of the page without the old record |
| StorageManagers.TooLong | src/storage/storage_manager.cpp:282-297 | records refused for their size before any page is fetched would not have fitted anywhere |
| TableIterators.HeapTableIterator.Next | src/storage/table_iterator.cpp:26-77 | steps to the next live record, false exactly when none is left; the store is unchanged, at most one pin is held, and none at the end |
| TableIterators.HeapTableIterator.CurrentRow | src/storage/table_iterator.cpp:79-98 | the decoded record at the current position, decoded once |
| TableIterators.HeapTableIterator.Drop | src/storage/table_iterator.cpp:20-24 | the destructor gives the pin back at any point of the scan |
| TableIterators.HeapTableIterator.Visit | src/storage/table_iterator.cpp:31-65 | one round of the loop: a live record found, or one page passed with nothing skipped |
| Executors.UpdateMeaning | src/executor/executor.cpp:260-326 | main result: an UPDATE fails before changing anything exactly when some scanned row fails, with the code of the first such row; on success the bag of rows is the old one with every matching row replaced once and every other record is where it was; while the file can grow it succeeds exactly when every new row fits a page; an UPDATE that stops midway has replaced exactly the matching rows scanned before the one it stopped at, and left that one and all others as they were |
| UpdateStatements.UpdateDoes | src/executor/executor.cpp:260-326 | main result, by WHERE and SET alone: an UPDATE fails exactly when some row that passes WHERE meets an unknown column or would get a NULL in a NOT NULL column, and then changes nothing; on success a record whose row fails WHERE is where it was with its bytes, one whose row passes is gone, and the bag is the rows that fail WHERE and, for each of the others, the row SET gives as its columns keep it; stopped in the middle, this holds of the rows before the stop |
| UpdateStatements.JudgeIs | src/executor/executor.cpp:272-305 | what pass one answers for a row: keep it when WHERE fails, else refuse it or replace it by the values SET gives |
| Executors.DeleteMeaning | src/executor/executor.cpp:356-388 | main result: a DELETE removes exactly the matching rows and leaves every other record where it was |
| Executors.Executor.ExecuteUpdate | src/executor/executor.cpp:232-327 | both passes of UPDATE together do what Executed says, on the stored table of that name only |
| Executors.Executor.ExecuteDelete | src/executor/executor.cpp:329-389 | both passes of DELETE together, on the stored table of that name only; it never fails once it has started |
| Executors.Executor.CollectUpdates | src/executor/executor.cpp:260-309 | pass one computes the plan of the scan, or the first failure, without changing the store |
| Executors.Executor.ApplyUpdates | src/executor/executor.cpp:311-326 | pass two applies the planned changes in order until one cannot be applied |
| Executors.Executor.CollectDeletes | src/executor/executor.cpp:356-370 | pass one of DELETE collects exactly the matching TIDs |
| Executors.Executor.ApplyDeletes | src/executor/executor.cpp:372-386 | pass two of DELETE clears every collected record |
| Executors.Executor.NewRow | src/executor/executor.cpp:274-305 | the row SET builds, as its columns keep it, or the unknown column or NOT NULL violation it stops at |
| TableUpdates.StillThere | src/executor/executor.cpp:311-326 | when its turn comes, every change still finds the record it was collected for, unchanged, wherever earlier rows moved |
| TableUpdates.AppliedOneMore | src/executor/executor.cpp:311-326 | one change more applied keeps all untouched records in place, and the bag loses the old row and gains the new one |
| TableUpdates.StatementIsExact | src/executor/executor.cpp:260-326 | once all planned changes are applied, every row was treated as judged: kept in place, replaced or removed, once |
| TableUpdates.PrefixIsExact | src/executor/executor.cpp:260-326 | once the changes planned for the first m scanned records are applied, these were treated as judged and all others are as they were |
| TableUpdates.PlanIsExact | src/executor/executor.cpp:270-309 | a change is planned exactly for the scanned records whose verdict is to change |
| TableUpdates.PlanFailsIff | src/executor/executor.cpp:270-309 | pass one fails exactly when some scanned row fails, with the code of the first |
| TableUpdates.AssignedAt | src/executor/executor.cpp:282-296 | each column of the new row has the value of the last assignment to it, computed from the old row, or its old value |
| TableUpdates.AssignedFailsIff | src/executor/executor.cpp:282-296 | building the row fails exactly when some assignment names an unknown column |
| Grouping.GroupsArePartitionIff | src/executor/executor.cpp:1528-1564 | main result: the hash groups are the partition of the WHERE-filtered scan by key exactly when no key holds NaN; then every aggregate is the fold over exactly the rows of its key, in scan order, and the group sizes add up |
| Grouping.CountsAddUp | src/executor/executor.cpp:1528-1564 | COUNT(*) over all groups adds up to the number of filtered rows, NaN in the keys or not |
| Grouping.GroupResults | src/executor/executor.cpp:1573-1575 | the results HAVING and the select list see are the aggregates of exactly the rows of the group |
| Grouping.FilteredIs | src/executor/executor.cpp:1528-1534 | the filtered rows are those of exactly the scanned rows WHERE holds of, in order |
| Grouping.MembersAre | src/executor/executor.cpp:1536-1547 | the rows of a group are exactly those of them whose key is equal, in order |
| Grouping.OutputIsHaving | src/executor/executor.cpp:1572-1594 | an increasing list of group indices holds exactly the groups whose key and results pass HAVING, and the k-th row that comes out is the projection of the k-th of them |
| Grouping.NothingGrouped | src/executor/executor.cpp:1566-1570 | with GROUP BY and no filtered row, no row comes out |
| Grouping.OneGroupWithoutGroupBy | src/executor/executor.cpp:1566-1570 | without GROUP BY exactly one group comes out, the fold over all filtered rows, on empty input too |
| Grouping.NaNKeyStartsGroup | src/executor/aggregate.h:347-361 | a NaN key equals no key, so such a row always starts another group |
| Executors.Executor.ProcessAggregateQuery | src/executor/executor.cpp:1506-1596 | scan, filter, group, finalize, HAVING and projection together give the rows of the finished groups, without changing the store |
| Executors.Executor.CollectGroups | src/executor/executor.cpp:1528-1564 | the scan loop computes the groups |
| Aggregates.CountResult | src/executor/aggregate.h:44-126 | COUNT(*), COUNT and COUNT(DISTINCT) give the number of rows, of values that are not NULL, and of different such values, exactly below 2^31; above, the cast to 32 bits takes a multiple of 2^32 off |
| Aggregates.SumResult | src/executor/aggregate.h:141-180 | SUM is NULL exactly when every value is NULL, else the values added up in order as doubles, every addition rounded: a DOUBLE exactly when some value is FLOAT or DOUBLE, else a BIGINT, which is the sum of the integers when they and all sums on the way fit 53 bits |
| Aggregates.SumLosesBits | src/executor/aggregate.h:141-180 | past 53 bits it is not: 2^53 and 1 add up to 2^53 |
| Aggregates.AverageResult | src/executor/aggregate.h:199-233 | AVG is NULL exactly when every value is NULL, else the double nearest to that running sum over the count of the others |
| Aggregates.ExtremeResult | src/executor/aggregate.h:250-316 | MIN and MAX are NULL exactly when every value is NULL, else a least and a greatest of the others |
| SortOrders.ExtremesByValue | src/executor/aggregate.h:250-325 | by the values themselves: of values of one type without NaN, MIN is one that none is smaller than, and MAX one that is smaller than none |
| Aggregates.FoldCounts | src/executor/aggregate.h:44-219 | the COUNT and AVG accumulators count and add exactly the values they should, NULLs left out, every addition rounded |
| Aggregates.FoldSums | src/executor/aggregate.h:141-170 | the SUM accumulator holds the running double sum of the values that are not NULL, whether there is one, and whether one is FLOAT or DOUBLE |
| Aggregates.FoldDistinct | src/executor/aggregate.h:112-135 | COUNT(DISTINCT) keeps one value of every class of equal ones and nothing else |
| Aggregates.FoldExtremes | src/executor/aggregate.h:250-325 | MIN and MAX are a least and a greatest value that is not NULL, present exactly when there is one |
| LikePatterns.MatchLikePattern | src/executor/executor.cpp:2031-2069 | main result: the table of the dynamic program answers whether the string can be cut into pieces that fit the pattern character by character, for all strings and patterns |
| LikePatterns.LikePercent | src/executor/executor.cpp:2031-2069 | % at the end of a pattern stands for nothing or for one character more |
| LikePatterns.LikeOne | src/executor/executor.cpp:2031-2069 | any other character at the end stands for the last character, _ for every one |
| ValueOrders.UnmixedIsStrictWeak | src/executor/executor.cpp:1012-1058 | the ORDER BY comparator is a strict weak ordering of the result rows for every list of keys, known or not, and every mix of directions, when in no key column a NaN meets two different numbers of its type |
| ValueOrders.OneKeyIff | src/executor/executor.cpp:1012-1058 | by one key it is one exactly then |
| ValueOrders.RowLessIsStrictWeak | src/executor/executor.cpp:1012-1058 | the same for any three rows |
| ValueOrders.StrictWeakIff | src/executor/executor.cpp:986-1006 | a set of values is strictly weakly ordered by compareValues exactly when no NaN meets two different numbers of its type |
| ValueOrders.CompareIsOrder | src/executor/executor.cpp:986-1006 | compareValues is antisymmetric and transitive, and 0 exactly on equal values |
| SortOrders.CompareIsEarlier | src/executor/executor.cpp:986-1006 | on values of one type compareValues is negative exactly when the first is the smaller one: integers by value, finite floats by the number they stand for, strings by the first differing byte, false before true, and NULL after all others |
| SortOrders.SortsByValue | src/executor/executor.cpp:1012-1058 | main result, by the values themselves: row a goes before row b exactly when some key prefers it and no earlier key tells the two apart, an ascending key preferring the smaller value and NULL last, a descending one the other way round |
| SortOrders.OrderByMeaning | src/executor/executor.cpp:1012-1058 | the same said of the ORDER BY items, each standing for the column its name or alias resolves to |
| ValueOrders.UnknownKeySkipped | src/executor/executor.cpp:1036-1043 | a key that resolves to no column decides nothing |
| ValueOrders.TextOrder | src/common/value.h:218-220 | the byte order of strings is a strict total order |
| SelectResults.GoesBefore | src/executor/executor.cpp:1013-1058 | the comparator with its alias and column lookups computes the ordering the lemmas are about, also on rows wider than the result schema |
| SelectResults.ColumnIsFirst | src/executor/executor.cpp:1036-1043 | the lookup finds the first column of the name, and none exactly when there is none |
| SelectResults.ComparedItemIff | src/executor/executor.cpp:472-498 | the result schema has the column items only, so ORDER BY a selected column compares that item exactly when every item before it is a column of the table; otherwise it compares another item |
| SelectResults.DistinctIsExact | src/executor/executor.cpp:2075-2092 | DISTINCT gives a subsequence without repeats that holds every first occurrence and stands for every row |
| SelectResults.DistinctKeepsFirsts | src/executor/executor.cpp:2075-2092 | on any rows, NaN or not, it keeps exactly the rows that equal no earlier row |
| SelectResults.NaNRowIsKept | src/executor/executor.cpp:962-984 | a row that holds NaN is never taken for a repeat |
| SelectResults.SameRowIsEquivalence | src/executor/executor.cpp:962-984 | rowsEqual is an equivalence on rows without NaN |
| SelectResults.ResultSet.ApplyDistinct | src/executor/executor.cpp:2075-2092 | the nested loops compute Distinct |
| SelectResults.ResultSet.ApplyLimitOffset | src/executor/executor.cpp:2094-2110 | the code keeps the rows from the offset up to the 64-bit sum of offset and limit |
| SelectResults.LimitedIsWindowIff | src/executor/executor.cpp:2094-2110 | that is the window LIMIT and OFFSET mean exactly when the sum does not wrap, or the offset is past the last row anyway |
| SelectResults.ParsedLimitIsWindow | src/executor/executor.cpp:2094-2110 | for all numbers the parser accepts it is that window |
| SelectResults.NegativeLimit | src/executor/executor.cpp:2094-2110 | a negative limit with an offset would return no row at all |
| CatalogCodec.SaveLoad | src/storage/storage_manager.cpp:49-188 | loading a saved catalog, with any bytes behind it, restores every schema exactly when it is within the limits of the loader, and is refused otherwise |
| CatalogCodec.LoadsAll | src/storage/storage_manager.cpp:183-184 | loaded into an empty storage, the tables are the saved ones whatever order they were saved in |
| DiskFormats.CatalogBytesIff | src/storage/storage_manager.cpp:49-84 | the bytes written are exactly the number of tables and per table its name, the number of its columns and per column its name, its type id and whether it may be NULL, numbers in four bytes lowest first, strings with their length |
| CatalogCodec.ReadCatalog | src/storage/storage_manager.cpp:103-188 | on any byte string either all declared tables are decoded or the schemas are those of before |
| CatalogCodec.WriteCatalog | src/storage/storage_manager.cpp:49-84 | the loops write the encoding |
| StorageManagers.StorageManager.SaveCatalogMeta | src/storage/storage_manager.cpp:49-101 | writes the schemas of the storage and changes none of them |
| StorageManagers.StorageManager.LoadCatalogMeta | src/storage/storage_manager.cpp:103-188 | takes the loaded schemas or keeps the old ones; a missing file is an empty catalog |
| Lexers.SpansInOrder | src/parser/lexer.cpp:193-384 | main result: token spans are in order and disjoint with only white space and comments between them, and each location is the newline and column count of the text before it |
| Lexers.DoublingUndone | src/parser/lexer.cpp:505-540 | scanning a string literal undoes the doubling of quotes, for every string |
| Lexers.PrintedStringIff | src/parser/ast.cpp:18-25 | a string as toString prints it, between quotes that are not doubled inside, is scanned back exactly when it holds no quote |
| Lexers.SkippedIsBlank | src/parser/lexer.cpp:193-240 | what is skipped is white space and comments only |
| LexerText.NextIff | src/parser/lexer.cpp:193-384 | main result: the lexer gives a token and stops at e exactly when white space and comments, as far as they go, and then the text of that token lead there, with no character behind that would belong to it; the end of input likewise |
| LexerText.TokenIff | src/parser/lexer.cpp:277-540 | for every kind, said by the characters alone: keywords in any case, identifiers, integers below 2^63 by the value of their digits, floats, strings with doubled quotes, operators with the longer one first |
| LexerText.PointedNumber | src/parser/lexer.cpp:432-503 | an integer part, a point and digits, with neither a digit nor an exponent letter after them, are one float token whose text is exactly these characters, or an error when the number is out of range |
| LexerText.NumberRead | src/parser/lexer.cpp:432-503 | the same for any integer part with or without a fraction and an exponent, each as far as it goes |
| LexerText.SkipIff | src/parser/lexer.cpp:193-240 | what is skipped is exactly a sequence of white space characters, line comments and block comments up to where none begins |
| LexerText.FloatValueIs | src/parser/lexer.cpp:482-484 | the number of a float text, by which its range is checked, is its digits moved by its exponent |
| Lexers.Lexer.NextToken | src/parser/lexer.cpp:242-384 | gives the next token of the text at its place; every call but the one at the end consumes input |
| Lexers.Lexer.PeekToken | src/parser/lexer.cpp:387-398 | gives what NextToken will give, and a token peeked at is not consumed |
| Lexers.Lexer.TokenizeAll | src/parser/lexer.cpp:242-384 | calling it until the end or the first error terminates with the tokens in order |
| Lexers.Lexer.Advance | src/parser/lexer.cpp:157-169 | moves one character on and keeps line and column exact |
| Lexers.Lexer.SkipWhitespaceAndComments | src/parser/lexer.cpp:193-240 | stops where the skipped text ends |
| Lexers.Lexer.ScanNumber | src/parser/lexer.cpp:432-503 | reads digits, fraction and exponent as the number rule says, and refuses integers past 63 bits and floats outside the range of double |
| Lexers.Lexer.ScanString | src/parser/lexer.cpp:505-540 | reads up to the closing quote, or fails at the end of input |
| SqlRoundTrip.Whole | src/parser/ast.cpp:18-129 | main result: the printed tokens of a well-formed expression, followed by any token that does not continue it, are read back as the same tree, and nothing behind them is touched |
| SqlWholeTree.TreeBackIff | src/parser/ast.cpp:18-129 | main result: for every expression tree, whatever its parts: what it prints is read back as the same tree exactly when the tree is well formed |
| SqlAcceptance.TextIff | src/parser/parser.cpp:610-890 | main result: a token sequence is read as a tree exactly when it spells the tree, said by precedence and associativity of the operators, with any parentheses around any part |
| SqlAcceptance.ReadIffSpelled | src/parser/parser.cpp:610-890 | the same before any tokens that end an expression |
| SqlAcceptance.OneTree | src/parser/parser.cpp:610-890 | the expression grammar is not ambiguous |
| SqlSpelling.ExpressionSpelled | src/parser/parser.cpp:610-1216 | what the expression parser takes off any tokens spells the tree it gives, and the rest is left as it is |
| SqlWholeTree.BackIff | src/parser/parser.cpp:610-890 | the same with any tokens behind that end an expression |
| SqlWholeTree.OnlyWF | src/parser/parser.cpp:610-1216 | for every tree, every rule of the grammar and any tokens behind: a tree that the rule reads off its own print is well formed, so a misread part never cancels out in a larger tree |
| SqlWholeTree.OperandLevel | src/parser/parser.cpp:731-785 | a tree read back as an operand is neither NOT nor a NULL test, and one read back as a primary has no sign |
| SqlWholeTree.Split | src/parser/parser.cpp:614-785 | an operation that is read back was read as its own two sides, split at its own operator, both by one rule |
| SqlBalance.ExpressionPast | src/parser/parser.cpp:610-1216 | for all input: the tokens the expression rule takes have balanced parentheses and it leaves the rest as it is |
| SqlBalance.Printed | src/parser/ast.cpp:18-129 | every tree prints balanced parentheses |
| SqlRoundTrip.NotIsPulledOut | src/parser/ast.cpp:36-38 | a NOT on the left of an operator is read back as the negation of the whole |
| SqlRoundTrip.SecondNullTestIsLeftOver | src/parser/ast.cpp:40-42 | of two NULL tests in a row only the first is read |
| SqlWholeTree.LiteralBackIff | src/parser/ast.cpp:18-25 | a literal is read back exactly when it has no sign and, for a float, is the double nearest to its six decimals |
| Numbers.SurvivesIff | src/parser/ast.cpp:21 | a double is the one nearest to its printed six decimals exactly when it is 2^33 or more, or the double nearest to some number of six decimals |
| Numbers.SpelledStable | src/parser/ast.cpp:21 | what is printed for a double is printed again after it is read, so a second round changes nothing |
| SqlRoundTrip.NegativeNumberIsSigned | src/parser/ast.cpp:20-21 | a negative number literal, integer or float, is read back as a sign and a number |
| SqlRoundTrip.SignedPatternFails | src/parser/parser.cpp:1141-1154 | a signed LIKE pattern is not read at all |
| SqlTokensKept.ParsePrintKeepsTokens | src/parser/parser.cpp:610-1216 | for every token sequence the expression parser accepts, printing its tree gives the tokens that were read, in order, with nothing lost or added but parentheses |
| SqlTokensKept.ExpressionKept | src/parser/parser.cpp:610-612 | the same as an invariant of the expression rule, with what it leaves unread |
| SqlTokensKept.PrimaryKept | src/parser/parser.cpp:787-890 | the same for primaries |
| SqlStatementRoundTrip.StatementBack | src/parser/ast.cpp:146-301 | main result: printing and parsing a well-formed SELECT, INSERT, UPDATE, DELETE, CREATE TABLE or DROP TABLE gives the statement back |
| SqlStatementRoundTrip.ScriptBack | src/parser/parser.cpp:1219-1236 | and so for every script of such statements |
| SqlStatementRoundTrip.LimitBackIff | src/parser/parser.cpp:379-400 | LIMIT and OFFSET are read back exactly when neither is negative and OFFSET has a LIMIT |
| SqlWholeStatement.EveryStatementBackIff | src/parser/ast.cpp:146-301 | main result: for every statement, whatever its expressions: it is read back exactly when it is well formed: well-formed expressions, a star or items, comma tables before joins with ON, OFFSET only with LIMIT, neither negative, no empty VALUES or SET, and a length for exactly the VARCHAR columns |
| SqlStatementAcceptance.StmtIff | src/parser/parser.cpp:63-607 | main result: a statement is read off the tokens before the next one exactly when they spell it, by a grammar of all six kinds in which every optional word may be written or left out |
| SqlStatementAcceptance.ScriptIff | src/parser/parser.cpp:1219-1236 | a token sequence is read as a script exactly when it spells it, a semicolon after each statement or none |
| SqlStatementAcceptance.OneScript | src/parser/parser.cpp:1219-1236 | no text spells two scripts |
| SqlStatementAcceptance.DirectionIsOptional | src/parser/parser.cpp:448-473 | any spelling of an expression without ASC or DESC behind it is read as an ascending item, as with ASC; with DESC as a descending one |
| SqlStatementAcceptance.PlainOrderIsAscending | src/parser/parser.cpp:448-473 | so a printed well-formed tree, before any rest that ends an expression and begins with neither word, is read as an ascending item |
| SqlStatementAcceptance.InnerIsOptional | src/parser/parser.cpp:920-969 | a bare JOIN is read as the INNER JOIN |
| SqlStatementAcceptance.AsIsOptional | src/parser/parser.cpp:407-432 | an alias without AS is read as the alias with it, in the select list and in FROM |
| SqlStatementSpelling.StmtSpelled | src/parser/parser.cpp:63-607 | what the statement parser takes off any tokens spells the statement it gives, and the rest is left as it is |
| SqlWholeStatement.OnlyExprsWF | src/parser/parser.cpp:160-607 | a statement that is read back has well-formed expressions in all its places |
| SqlStatementExact.StatementBackIff | src/parser/ast.cpp:146-301 | with well-formed expressions, a statement is read back exactly when the rest of it is well formed |
| SqlStatementExact.CrossAfterOnIsLost | src/parser/ast.cpp:224-233 | for every condition: the parser accepts a SELECT with a CROSS JOIN after an INNER JOIN with ON, but what its tree prints is not read back |
| SqlStatementExact.JoinsBackIff | src/parser/parser.cpp:920-969 | the loop over the joins reads a list back exactly when each join has a keyword and a condition |
| SqlParser.Parser.ParseExpression | src/parser/parser.cpp:610-612 | the recursive descent computes ReadExpression, the function the round trip is about |
| SqlParser.Parser.ParseOrExpr | src/parser/parser.cpp:614-628 | the loop over OR: the parser object consumes the tokens and builds the tree the grammar function gives |
| SqlParser.Parser.ParseAndExpr | src/parser/parser.cpp:630-644 | the loop over AND: the parser object consumes the tokens and builds the tree the grammar function gives |
| SqlParser.Parser.ParseNotExpr | src/parser/parser.cpp:646-657 | NOT: the parser object consumes the tokens and builds the tree the grammar function gives |
| SqlParser.Parser.ParseComparisonExpr | src/parser/parser.cpp:659-729 | at most one comparison, then at most one test: the parser object consumes the tokens and builds the tree the grammar function gives |
| SqlParser.Parser.ParseAdditiveExpr | src/parser/parser.cpp:731-750 | the loop over sums and concatenations: the parser object consumes the tokens and builds the tree the grammar function gives |
| SqlParser.Parser.ParseMultiplicativeExpr | src/parser/parser.cpp:752-771 | the loop over *, / and %: the parser object consumes the tokens and builds the tree the grammar function gives |
| SqlParser.Parser.ParseUnaryExpr | src/parser/parser.cpp:773-785 | signs: the parser object consumes the tokens and builds the tree the grammar function gives |
| SqlParser.Parser.ParsePrimaryExpr | src/parser/parser.cpp:787-890 | primaries: the parser object consumes the tokens and builds the tree the grammar function gives |
| SqlParser.Parser.ParseAggregateExpr | src/parser/parser.cpp:972-1021 | aggregates: the parser object consumes the tokens and builds the tree the grammar function gives |
| SqlParser.Parser.ParseCaseExpr | src/parser/parser.cpp:1040-1086 | CASE: the parser object consumes the tokens and builds the tree the grammar function gives |
| SqlParser.Parser.ParseInExpr | src/parser/parser.cpp:1088-1115 | IN: the parser object consumes the tokens and builds the tree the grammar function gives |
| SqlParser.Parser.ParseBetweenExpr | src/parser/parser.cpp:1117-1139 | BETWEEN: the parser object consumes the tokens and builds the tree the grammar function gives |
| SqlParser.Parser.ParseLikeExpr | src/parser/parser.cpp:1141-1154 | LIKE: the parser object consumes the tokens and builds the tree the grammar function gives |
| SqlParser.Parser.ParseCoalesceExpr | src/parser/parser.cpp:1156-1183 | COALESCE: the parser object consumes the tokens and builds the tree the grammar function gives |
| SqlParser.Parser.ParseNullifExpr | src/parser/parser.cpp:1185-1216 | NULLIF: the parser object consumes the tokens and builds the tree the grammar function gives |
| SqlParser.Parser.ParseSelect | src/parser/parser.cpp:269-406 | SELECT: the parser object consumes the tokens and builds the tree the grammar function gives |
| SqlParser.Parser.ParseJoinClause | src/parser/parser.cpp:920-969 | joins: the parser object consumes the tokens and builds the tree the grammar function gives |
| SqlParser.Parser.ParseInsert | src/parser/parser.cpp:472-527 | INSERT: the parser object consumes the tokens and builds the tree the grammar function gives |
| SqlParser.Parser.ParseUpdate | src/parser/parser.cpp:529-576 | UPDATE: the parser object consumes the tokens and builds the tree the grammar function gives |
| SqlParser.Parser.ParseDelete | src/parser/parser.cpp:578-605 | DELETE: the parser object consumes the tokens and builds the tree the grammar function gives |
| SqlParser.Parser.ParseCreateTable | src/parser/parser.cpp:87-126 | CREATE TABLE: the parser object consumes the tokens and builds the tree the grammar function gives |
| SqlParser.Parser.ParseDropTable | src/parser/parser.cpp:128-158 | DROP TABLE: the parser object consumes the tokens and builds the tree the grammar function gives |
| SqlParser.Parser.ParseAll | src/parser/parser.cpp:1219-1236 | scripts: the parser object consumes the tokens and builds the tree the grammar function gives |
| SqlPrinter.ExprToString | src/parser/ast.cpp:18-129 | prints the tree the round trip is about |
| SqlPrinter.CaseToString | src/parser/ast.cpp:66-77 | the loop over WHEN clauses: the appended pieces are the printed form |
| SqlPrinter.InToString | src/parser/ast.cpp:79-89 | the loop over IN values: the appended pieces are the printed form |
| SqlPrinter.AggregateToString | src/parser/ast.cpp:44-58 | aggregates: the appended pieces are the printed form |
| SqlPrinter.AppendOrderBy | src/parser/ast.cpp:248-255 | the loop over ORDER BY items: the appended pieces are the printed form |
| SqlPrinter.AppendJoins | src/parser/ast.cpp:224-233 | the loop over joins: the appended pieces are the printed form |
| SqlPrinter.SelectToString | src/parser/ast.cpp:205-263 | SELECT: the appended pieces are the printed form |
| SqlPrinter.InsertToString | src/parser/ast.cpp:265-281 | INSERT: the appended pieces are the printed form |
| SqlPrinter.UpdateToString | src/parser/ast.cpp:283-293 | UPDATE: the appended pieces are the printed form |
| SqlPrinter.StmtToString | src/parser/ast.cpp:190-301 | statements: the appended pieces are the printed form |

## Left out

- Threads, page latches and the wait for a loading frame: pool methods are atomic steps, as if the pool latch were held throughout; FlushAll's second look at a frame then never differs.
- Real file I/O: a disk is a map from file ids to blocks; reads and writes of pages of open files succeed, writes to a dropped file fail. The free list of DiskManager has no caller and is not modelled.
- findVictim drops a frame even when its write-back failed (src/storage/buffer/buffer_pool.cpp:223-226): in the model this happens for dropped files only, whose pages are no longer part of the store.
- Pages.Page.InsertRecord: for records of 65532 to 65535 bytes the 16-bit sum at src/storage/page.h:104 wraps; where the check then passes, the source writes outside the page, which has no outcome to model, and the contract leaves those calls out. InsertRow and UpdateRow leave out the four sizes.
- PoolRuns.RunRefines: asks of every run that a miss or a new page does not find a pinned victim, a condition on the pool; PoolDiscipline.DisciplineRefines has none, but is about clients with one pin at a time, as StorageManager and HeapTableIterator are. A repaired pool in which a hit takes the frame off the list is not modelled.
- PoolDiscipline.DisciplineRefines: a fetch names a page of an open file, existing or not; what a pool hands out for a page of a dropped file that is still cached has no counterpart in the store.
- The branches of updateRow and HeapTableIterator::next for a fetch that fails although the page exists are shown unreachable under the single pin, not modelled as outcomes.
- Expression evaluation: WHERE, SET, HAVING and projection are functions of the row; no scalar functions.
- Executors.Executor.ExecuteUpdate: SET values may have any type; the row is stored as the eight bytes of each value read in the type of its column. C++ leaves reading another union member undefined; the model takes the bytes as they lie in memory, little-endian, and any nonzero byte as true. The rows that replace the matching ones of the table must not have one of the four sizes that wrap, nor a value in a column of a type no row is written in.
- An in-place update to a row that encodes to no bytes (a table without columns) deletes the old record and reports failure; UpdateRow states it, and Executors.UpdateMeaning asks nothing about such rows.
- Aggregates.SumResult: doubles are rounded, but above the largest double the grid goes on instead of giving an infinity, and NaN and infinite values count as 0; the result of casting a sum outside 64 bits, which C++ leaves undefined, is not modelled.
- Aggregates.AverageResult: the average is not the exact quotient, as the division is rounded too; the count is taken to be below 2^53.
- Grouping.GroupsArePartitionIff: the hash functions and the order in which a hash map yields its groups are not modelled, groups come in order of first appearance.
- Joins of several tables, evaluation of join conditions, and the column resolution they use.
- std::sort itself: what is proved is what it demands of its comparator, and which row the comparator puts first.
- SortOrders.SortsByValue: is about rows without NaN in the key columns, whose values there have one type or are NULL, as stored columns do; with NaN ValueOrders.OneKeyIff says when the comparator is an ordering at all.
- CatalogCodec.WriteCatalog: the order of the tables is a parameter, since a hash map yields them in any order; the temporary file, its rename and stream errors are not modelled.
- SqlStatementExact.StatementBackIff: is about statements whose expressions are well formed; SqlWholeStatement.EveryStatementBackIff is about all.
- SqlWholeStatement.EveryStatementBackIff: what stands behind the statement begins with a semicolon, if it is anything, and has no empty identifier before a dot, which the lexer never makes; SqlWholeTree.BackIff asks the same of what stands behind an expression. Float literals are numbers rounded to doubles on reading; negative zero, NaN and infinities are not modelled.
- Lexers.Lexer.ScanNumber: a float is taken to be in range when it is zero or from the smallest normal double up to what rounds past the largest; numbers strictly between zero and the smallest normal double, which C++ leaves to the library, count as out of range.
- SqlTokensKept.ParsePrintKeepsTokens: no empty identifier stands before a dot, as the lexer makes none; statements are not covered, as toString writes them in a normal form (a comma for CROSS JOIN, AS, ASC and INNER always); what they may look like is SqlStatementAcceptance.StmtIff.
- The printed forms are token sequences; numbers carry their six decimals there, and string literals are treated at the level of characters by Lexers.PrintedStringIff. The lexer's tokens are kept apart from the parser's: keyword lookup and number conversion are not modelled, and parser errors carry no message.
- Command line, configuration, logging, formatting, transactions and indexes.
