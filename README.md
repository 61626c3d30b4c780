# Buffer manager and heap file, modelled in Dafny

This project models two layers of a small teaching database.

- **The buffer manager.** Its state is three parts:
  - a free list of never-used frames;
  - a page map from page ids to frames;
  - the per-frame metadata: pin count, valid, dirty, reference bit and page id.

  On a miss, the manager takes the last frame of the free list; once the list is empty, it asks a clock (second-chance) replacement policy for a victim.
- **The heap file.** It keeps a doubly linked list of directory pages starting at the head page. Each directory page holds entries of the form (data page, record count, free bytes). The heap file walks this list to count records, find room, find a page's entry, update an entry, insert a data page, delete one, and delete the whole file.

The modules follow the program:

| file | module | models |
|---|---|---|
| `global.dfy` | `Global` | page ids and the reserved INVALID_PAGEID |
| `frames.dfy` | `Frames` | the frame descriptor, as a class |
| `clock.dfy` | `Replacement` | the clock, as a class with the hand `current` |
| `bufmgr.dfy` | `Buffer` | the buffer manager, as a class over the free list, the page map and the frames |
| `directory.dfy` | `Directory` | directory pages as values, the functions that say what each walk computes, and the lemmas about them |
| `heapfile.dfy` | `Heap` | the heap file, as a class whose methods walk the directory with the source's loops |

How the model represents the surrounding system:

- **Order of map iteration.** Java's `HashMap` iteration order is a parameter, `order`. Each operation requires that `order` list every key exactly once.
- **Disk calls.** Calls to the disk manager are appended to a ghost log, `disk`.
- **The buffer as the heap file sees it.** The heap file sees the buffer manager through two pieces of state:
  - `pins`, a multiset holding the pins this file has on each page;
  - `freed`, the pages it has had freed, in order.

  `freePage` refuses a page in `pins`, and `unpinPage` refuses a page not in `pins`. Pin balance, and the pins left held when an operation fails, are stated against this state.
- **Page ids from the allocator.** Page ids that `newPage` would return are parameters. `Fresh` states that they are new.

Where the model follows the code rather than its comments:

- **pinPage hit.** A hit adds a pin whatever `contents` says. The doc comment's IllegalArgumentException for PIN_MEMCPY on a pinned page is never raised (`src/bufmgr/BufMgr.java:84`, `93-95`).
- **getNumFrames.** It returns the number of page-map keys, not the number of frames in the pool (`src/bufmgr/BufMgr.java:338`).
- **flushAllFrames.** It removes every entry of the page map while writing, though its comment says flushing only writes.
- **Eviction.** A victim is written under the requested id, not under its own. Only the requested id is removed from the map. So stale keys survive, and two keys can map to one frame. The model does not claim that keys and frames correspond one to one; `CandidatesCountKeys` states what does hold.
- **freePage.** Its map removal is guarded by `containsKey` on a boxed `int`, which never equals a `PageId`, so the map is never changed.
- **insertRecord.** It adds a slot size to the length, and `getAvailPage` adds another one. So it asks for `recLen + 2 * slotSize` free bytes.
- **deletePage.** It frees the data page while `deleteRecord` still holds its pin, so `freePage` always refuses it. Had the page been unpinned, `unpinPage` would refuse it right after the free. Either way the call ends before its directory part. That directory part is modelled on its own (`Heap.HeapFile.RemoveEntry`), together with its proofs.
- **selectRecord.** It rethrows a data-page refusal without unpinning, so the pin is kept.
- **Clock hand out of range.** Taken on its own, `pickVictim` throws IndexOutOfBoundsException at its first `get(current)` when the hand is at or past the end of a non-empty list. `Replacement.Clock.PickVictim` returns `HandOutOfRange` there.

  Inside the buffer manager that path is unreachable. `Buffer.BufMgr.Valid` includes `HandInRange`:
  - the hand moves only during clock calls, and those happen only once the free list is empty, which nothing refills;
  - between clock calls the page map only grows, except that `flushAllFrames` empties it;
  - so whenever the page map is non-empty, the hand is below its size.

  Every operation keeps this invariant. So the buffer manager has no IndexOutOfBounds outcome.

## Model

| member | source | states |
|---|---|---|
| Frames.FrameDesc.constructor | src/bufmgr/FrameDesc.java:23-30 | a new frame is not valid, has no pins, is not dirty, has its reference bit clear and holds no page id |
| Replacement.Clock.constructor | src/bufmgr/Clock.java:14-18 | the hand starts at 0 with no candidate list |
| Replacement.Clock.PickVictim | src/bufmgr/Clock.java:22-53 | the frame returned is never valid and pinned: it is invalid, or unpinned with its reference bit clear. There is no victim exactly when every candidate is valid and pinned, after two full sweeps. The hand moves one place per frame passed (`passed`), modulo the list size, and stops on the victim. Each frame passed over could not be taken when the hand reached it: it was valid, and pinned, or unpinned with its bit set and reached for the first time (`PassesOver`). The victim's slot is one the scan can take (`TakeableAt`), so by `ScanStopsAtFirst` it is the first such slot from the old hand; a frame listed twice is taken on its second visit once the first cleared its bit. Exactly the reference bits of the unpinned frames passed over are cleared, and nothing else changes. An empty list gives no victim and keeps the hand; a hand beyond a non-empty list fails before any change |
| Replacement.Clock.Sweep | src/bufmgr/Clock.java:26-48 | the loop: the hand is `passed` steps on from where it started; every frame passed was valid and pinned, or unpinned with its bit set, first reached then and cleared; a bit changes only on such a frame; the slot it stops on holds a frame that is invalid or unpinned with its bit clear |
| Replacement.ScanStopsAtFirst | src/bufmgr/Clock.java:27-46 | two scans from the same hand over the same list that pass only frames they cannot take and stop at one they can pass the same number of frames, so the victim is unique |
| Replacement.PassedNotTakeable | src/bufmgr/Clock.java:30-41 | a slot a scan passes over is one it could not take |
| Replacement.Pos | src/bufmgr/Clock.java:46 | the hand after any number of `(current + 1) % n` steps from a position in range stays below `n` |
| Replacement.PosNext | src/bufmgr/Clock.java:46 | one more step moves the hand by one, wrapping at the list size |
| Replacement.PosCovers | src/bufmgr/Clock.java:27 | from any start, each list position is reached within the first sweep |
| Replacement.TwoSweepsAllPinned | src/bufmgr/Clock.java:26-27 | a frame passed over unpinned on the first sweep has its bit cleared, so finding none of them on the second sweep means every candidate is pinned; the hand is then back where it started |
| Buffer.Candidates | src/bufmgr/Clock.java:24 | the clock's list holds the page map's values in iteration order, one per key |
| Buffer.EnumerationSize | src/bufmgr/Clock.java:24 | the clock's candidate list is exactly as long as the page map, since the iteration order lists each key once |
| Buffer.CandidatesCountKeys | src/bufmgr/Clock.java:24 | a frame appears among the candidates once per key mapping to it: a frame under several keys appears several times, and a free-list frame not at all |
| Buffer.BufMgr.constructor | src/bufmgr/BufMgr.java:44-57 | the free list holds `numframes` (or, for a non-positive argument, no) distinct, new, unused frames; the page map is empty; the clock is new |
| Buffer.BufMgr.PinPage | src/bufmgr/BufMgr.java:87-184 | its effect is `PinOutcome`, and the disk calls it makes, `writes`, are appended to the log. A hit adds one pin to the mapped frame and changes nothing else. A miss with a non-empty free list takes the last frame without asking the clock. A miss with an empty list asks the clock over the map's values and takes the frame the clock's scan stops at from the hand, clearing exactly the bits the scan clears (`ClockOutcome`). It fails (pool full) exactly when that list is empty or every candidate is pinned, and then the map, the free list and the disk are unchanged. After a successful miss with PIN_DISKIO, PIN_MEMCPY or PIN_NOOP, the frame has one pin, is valid and clean, has its reference bit set, holds the requested id and is mapped from it. Only PIN_DISKIO reads the disk. A dirty victim is written under the requested id. Any other `contents` value leaves the frame reset and unmapped. The hand stays in range (`Valid`) |
| Buffer.BufMgr.PinFromFreeList | src/bufmgr/BufMgr.java:99-181 | a miss with frames on the free list removes the last one, fills it as `contents` says and leaves the clock and every other frame untouched |
| Buffer.BufMgr.PinFromClock | src/bufmgr/BufMgr.java:102-181 | a miss with an empty free list fails exactly when the clock has no victim; otherwise the clock's victim (`ClockChoice`) is written out when dirty, reset and filled, and every other frame is left as the clock left it (`ClockFrames`) |
| Buffer.BufMgr.TakeVictim | src/bufmgr/BufMgr.java:102-123 | the clock's candidates are the map's values. It fails (pool full) exactly when there are none or all are pinned, leaving the hand where it was; an out-of-range hand cannot occur. Otherwise the victim is the frame PickVictim stops at from the old hand (`ClockChoice`: the hand is `passed` steps on, the frames passed could not be taken, the victim's slot could be), and the hand points at it, inside the page map. On every other frame exactly the bits of the unpinned frames passed are cleared (`ClockFrames`). The victim is reset, and is written out under the requested id when it was dirty |
| Buffer.BufMgr.Fill | src/bufmgr/BufMgr.java:126-181 | the three known kinds of `contents` make the frame hold the page with one pin and map the page to it, and only PIN_DISKIO reads; any other value matches no case |
| Buffer.BufMgr.UnpinPage | src/bufmgr/BufMgr.java:194-223 | refused, with no frame changed, exactly when the page is unmapped or has no pins; otherwise the dirty bit becomes exactly the flag passed, the pin count drops by one, and the reference bit is set when the count reaches 0 |
| Buffer.BufMgr.NewPage | src/bufmgr/BufMgr.java:236-262 | with nothing unpinned it fails (pool full) before allocating, changing nothing. It also fails before allocating when the id a fresh PageId holds is mapped and pinned. Otherwise it returns the run's first id, the allocation comes first in the disk log, followed by the pin's own calls, and the pin of that page with PIN_MEMCPY does exactly what `PinOutcome` says, the clock's choice included. The pin always succeeds, so the page is mapped and pinned, holding the page when it was not mapped before |
| Buffer.BufMgr.AllocateAndPin | src/bufmgr/BufMgr.java:254-256 | the allocation is logged first, followed by the pin's own calls (`writes`). With a free frame or an unpinned page among the candidates, the pin cannot fail |
| Buffer.BufMgr.UnpinnedCandidate | src/bufmgr/BufMgr.java:245-256 | when some mapped frame has no pins, an unpinned frame is among the clock's candidates, so newPage's pin cannot fail for a full pool |
| Buffer.BufMgr.FreePage | src/bufmgr/BufMgr.java:270-290 | refused exactly when the page is mapped to a pinned frame; otherwise the page is deallocated; the page map never changes |
| Buffer.BufMgr.FlushAllFrames | src/bufmgr/BufMgr.java:298-310 | the page map ends empty; the writes are those of the visited keys whose frames are valid and dirty, in visiting order; no frame changes and none returns to the free list |
| Buffer.FlushWritesExactly | src/bufmgr/BufMgr.java:306-307 | every write flushAllFrames makes is of a visited, valid and dirty page, and every such page is written |
| Buffer.BufMgr.FlushPage | src/bufmgr/BufMgr.java:317-331 | a null frame is refused; otherwise the page is written exactly when the frame is dirty, and the frame is left as it is |
| Buffer.BufMgr.GetNumFrames | src/bufmgr/BufMgr.java:336-340 | the number of page-map keys, which is at least the number of distinct frames mapped |
| Buffer.ValuesAtMostKeys | src/bufmgr/BufMgr.java:338 | a map has no more distinct values than keys |
| Buffer.BufMgr.GetNumUnpinned | src/bufmgr/BufMgr.java:345-364 | the free-list size plus the number of page-map keys whose frame has no pins, whatever the iteration order |
| Buffer.UnpinnedTotal | src/bufmgr/BufMgr.java:353-361 | the loop's count along any enumeration of the map is the number of unpinned keys |
| Directory.ToShort | src/heap/HeapFile.java:420-421 | the `(short)` cast keeps a value in range, and otherwise agrees with it modulo 2^16 |
| Directory.FirstFit | src/heap/HeapFile.java:325-333 | the first entry with at least the needed free bytes: no earlier entry has enough, and none at all when there is no result |
| Directory.FirstFitAppend | src/heap/HeapFile.java:320-338 | the first fit of two parts is the first part's, or else the second part's, shifted |
| Directory.FitAtFlat | src/heap/HeapFile.java:320-338 | the page-by-page scan finds the data page of the first entry with room among all entries in list order |
| Directory.IndexOf | src/heap/HeapFile.java:375-380 | the first entry naming the page; no earlier entry names it, and none does when there is no result |
| Directory.Locate | src/heap/HeapFile.java:365-386 | the first directory page with an entry for the page, and the index of that entry; no earlier page has one |
| Directory.LocateInFlat | src/heap/HeapFile.java:365-389 | when findDirEntry finds nothing, no entry of the file names the page; when it finds one, that entry sits at EntryPos among all entries |
| Directory.FirstRoom | src/heap/HeapFile.java:443-489 | the first directory page with fewer than 125 entries; every earlier page is full |
| Directory.InsertPlacesEntry | src/heap/HeapFile.java:443-502 | insertPage adds exactly the new entry, at InsertPos (at the end of the first page with room, or on a new last page), and keeps every other entry in order |
| Directory.InsertRecSum | src/heap/HeapFile.java:500 | the record total grows by exactly the new entry's count |
| Directory.InsertLinked | src/heap/HeapFile.java:459-472 | the new directory page becomes the old tail's next and points back to it, and the list stays a doubly linked list of distinct pages |
| Directory.InsertWellformed | src/heap/HeapFile.java:435-511 | insertPage with fresh page ids keeps the directory well formed: linked from the head, within capacity, with distinct data pages |
| Directory.Compact | src/heap/HeapFile.java:530 | compaction keeps the entry count and moves the entries after the index one place left |
| Directory.RemovePlacesEntry | src/heap/HeapFile.java:529-567 | deletePage's directory part removes exactly the entry at the index from all entries, keeps the list linked and distinct, and keeps the head |
| Directory.RemoveSpliced | src/heap/HeapFile.java:537-561 | a non-head page left with one entry after compaction is spliced out of the list (prev.next := next, next.prev := prev) and takes its only entry with it |
| Directory.RemoveRecSum | src/heap/HeapFile.java:529-567 | removing an entry takes its record count out of the total |
| Directory.RemoveWellformed | src/heap/HeapFile.java:529-567 | deletePage's directory part keeps the directory well formed |
| Directory.SetPlacesEntry | src/heap/HeapFile.java:420-421 | rewriting one entry replaces it at its place among all entries, leaving the others as they were |
| Directory.SetRecSum | src/heap/HeapFile.java:420 | rewriting one entry changes the record total by the difference of the counts |
| Directory.SetWellformed | src/heap/HeapFile.java:412-424 | updateDirEntry's rewrite of an entry keeps the directory well formed |
| Directory.FreeOrderCovers | src/heap/HeapFile.java:109-128 | deleteFile's free order holds every directory page and every data page of the directory, and nothing else |
| Directory.FreeOrderPrefix | src/heap/HeapFile.java:109-128 | the pages freed for the first pages of the list are a prefix of the free order of the whole list |
| Heap.FirstPinned | src/heap/HeapFile.java:115-124 | the position of the first pinned page in an order of frees, which is the one freePage refuses |
| Heap.FirstPinnedIsFirst | src/heap/HeapFile.java:115-124 | no page before the first pinned one is pinned, and with no result no page is |
| Heap.PinnedAt | src/heap/HeapFile.java:115-124 | a pinned page with no pinned page before it is the first pinned one |
| Heap.FirstPinnedAppend | src/heap/HeapFile.java:109-128 | the first pinned page of two parts in sequence is the first part's, or else the second part's, shifted |
| Heap.FirstPinnedOther | src/heap/HeapFile.java:111 | pinning the directory page does not change the first pinned page among its data pages |
| Heap.Recount | src/heap/HeapFile.java:412-421 | the entry keeps its data page id; its record count becomes the old count plus the change, and its free count becomes the value given, whenever these fit in a short |
| Heap.CountRecords | src/heap/HeapFile.java:273-279 | the sum of the record counts of one page's entries |
| Heap.SearchEntries | src/heap/HeapFile.java:372-380 | the first entry of one page that names the page (IndexOf) |
| Heap.FitEntries | src/heap/HeapFile.java:324-333 | the first entry of one page with enough free bytes (FirstFit) |
| Heap.HeapFile.constructor | src/heap/HeapFile.java:65-72 | a new file has one empty head directory page, well formed, with no pins held |
| Heap.HeapFile.DeleteFile | src/heap/HeapFile.java:102-134 | with no pinned page in the free order, every data page and directory page is freed in that order, with pins balanced; otherwise the pages before the first pinned one are freed, the call fails, and when that first page is a data page its directory page stays pinned |
| Heap.HeapFile.FreeDirPage | src/heap/HeapFile.java:111-124 | one directory page: its data pages are freed in order, then it is unpinned and freed; the first refusal ends the visit, and a refusal among the data pages leaves it pinned |
| Heap.HeapFile.FreeData | src/heap/HeapFile.java:114-119 | the data pages of one page are freed in order, up to the first pinned one, which is refused |
| Heap.HeapFile.GetRecCnt | src/heap/HeapFile.java:257-290 | the sum of the record counts of every entry of every directory page along the list from the head; every page pinned is unpinned |
| Heap.HeapFile.FindDirEntry | src/heap/HeapFile.java:357-392 | the first directory page with an entry for the page and that entry's index, with that page left pinned; without one, index -1 and no page left pinned |
| Heap.HeapFile.ScanForSpace | src/heap/HeapFile.java:320-338 | the data page of the first entry, in list order and then entry order, with at least the free bytes needed, or none; every page pinned is unpinned |
| Heap.HeapFile.GetAvailPage | src/heap/HeapFile.java:313-345 | with a first fit for `reclen` plus a slot, its data page, and the directory unchanged; without one, the page insertPage adds, with the directory after that insertion; pins balanced either way |
| Heap.HeapFile.InsertPage | src/heap/HeapFile.java:435-511 | the new data page gets an entry with no records on the first directory page with room, or on a new directory page linked after the tail; all other entries keep their order; the directory stays well formed; every page pinned, the new ones included, is unpinned |
| Heap.HeapFile.FindRoom | src/heap/HeapFile.java:443-489 | the walk stops on the first page with room and leaves it pinned; with every page full, the new page is linked after the tail and is the one left pinned |
| Heap.HeapFile.LinkTail | src/heap/HeapFile.java:459-469 | the new directory page becomes the tail's next with the tail as its prev; the tail's pin moves to the new page |
| Heap.HeapFile.UpdateDirEntry | src/heap/HeapFile.java:402-426 | when the count would drop below one, deletePage is called, which on this path always fails, with the directory page left pinned; otherwise only that entry changes, to the new count and free count, and the directory page is unpinned; a page without an entry changes nothing; a rewrite changes the record total by exactly `deltaRec` unless the short count wraps |
| Heap.HeapFile.DeletePage | src/heap/HeapFile.java:522-528 | the data page's free is refused when it is pinned; when it is not pinned, the free succeeds and the following unpin is refused; either way the call fails before the directory part |
| Heap.HeapFile.RemoveEntry | src/heap/HeapFile.java:529-567 | the entry is removed from all entries, leaving the others in order; a non-head page left with one entry is spliced out, unpinned and freed; any other page keeps one entry fewer and is unpinned; the directory stays well formed, and the record total drops by the removed entry's count |
| Heap.RemovedTakesCount | src/heap/HeapFile.java:529-567 | removing one entry of one page takes exactly that entry's record count out of the file's total |
| Heap.HeapFile.Unlink | src/heap/HeapFile.java:539-556 | the neighbours are pointed at each other, each pinned and unpinned in turn, and the page leaves the list |
| Heap.HeapFile.Shrink | src/heap/HeapFile.java:564-567 | the page keeps one entry fewer after compaction and is unpinned |
| Heap.HeapFile.InsertRecord | src/heap/HeapFile.java:147-178 | a record longer than the maximum is refused before any page is touched. Otherwise the data page from getAvailPage (asked for `recLen` plus two slots) is pinned. If the data page throws, the call ends with its pin held and the directory as found. If it stores the record or returns no rid, the entry gets one record more and the new free count, the pin is released, and the rid (or the null rid) is returned. Unless the short count wraps, the file's record total grows by exactly one |
| Heap.HeapFile.PlaceRecord | src/heap/HeapFile.java:161-174 | with the data page's entry at `pos`: a throwing data page leaves its pin held and the entries unchanged; a stored record or a null rid both give the entry one record more and the new free count, and the data page is pinned and unpinned |
| Heap.RecountShifts | src/heap/HeapFile.java:412-421 | updateDirEntry's rewrite of one entry by `deltaRec` records changes the record total that getRecCnt returns by exactly `deltaRec`, unless the short count wraps: one more for insertRecord, one fewer for deleteRecord |
| Heap.HeapFile.SelectRecord | src/heap/HeapFile.java:185-202 | the data page is unpinned after a successful read; a refusal is rethrown with the pin kept |
| Heap.HeapFile.UpdateRecord | src/heap/HeapFile.java:209-222 | the data page is unpinned whether or not its update is refused |
| Heap.HeapFile.DeleteRecord | src/heap/HeapFile.java:230-252 | a refusal by the data page unpins it and changes nothing. Deleting a record that leaves one or more records decrements its entry, sets the new free count and balances pins. Deleting the last record fails through deletePage, with the data page unpinned and the directory page left pinned. A page with no entry fails through the same handler, with the data page unpinned and nothing else changed. On success, the rewritten entry is the data page's entry in the old directory, so by `RecountShifts` the record total drops by exactly one |

## Left out

- Disk I/O and page bytes: reads, writes, allocation and deallocation are entries of a ghost log, and page contents and copying are not modelled.
- The data page's own record operations (`insertRecord`, `selectRecord`, `updateRecord`, `deleteRecord`, `getFreeSpace` of DataPage and HFPage) are not part of this model. Their outcomes are parameters of the heap-file methods: `reply`, `accepted`, `found`, `freeAfter` and `emptyFree`.
- `Heap.HeapFile.InsertRecord`: DataPage is not part of this model, and nothing in the source says how its `insertRecord` refuses a record. Both ways are modelled (`PageInsert`). A throw leaves `insertRecord` at once, with the data page pinned, because the call at `src/heap/HeapFile.java:162` has no handler. A null rid goes on through lines 165-175: the entry is counted one record more, the data page is unpinned dirty, and null is returned (`NoRid`).
- Directory-page byte layout: `DirPage` is not part of this model. Its entries are a sequence, and the entry count is the sequence's length.
- `Directory.Compact`: `DirPage.compact` is not part of this model. It is taken to move the entries after the index one place left and to keep the count, which is what the test `entryCount == 1` and the decrement after it rely on.
- The heap file works against an abstract buffer (`pins`, `freed`), not the `Buffer.BufMgr` class. Dirty flags, the clock, and failures of the heap file's own `pinPage` and `newPage` calls (pool full) are not modelled there.
- Page ids from the disk allocator are parameters (`newDirId`, `dataId`). `Fresh` assumes that they name pages that are not yet in the directory.
- The file library: `get_file_entry`, `add_file_entry` and `delete_file_entry`, the constructor's `isTemp` flag and its name check, `finalize`, `openScan` and `toString` are left out as library plumbing. `Heap.HeapFile.DeleteFile` does not model the removal of the library entry.
- `Heap.HeapFile.UpdateDirEntry`: when no entry is found, the source goes on to call `getRecCnt(-1)` on a page the model does not have. The model stops there with `NoEntry`, with nothing changed.
- `Heap.HeapFile.DeleteRecord`: a data page with no entry is taken to end in the IllegalArgumentException handler, with the directory unchanged. With index -1 and no directory page (`dirId` is INVALID_PAGEID), `updateDirEntry` either reaches `freePage` of the data page, which is pinned, or reaches `unpinPage(INVALID_PAGEID)`. Both throw that exception, taking INVALID_PAGEID to be mapped to no pinned frame. If `getRecCnt(-1)` itself throws IllegalArgumentException, the same handler runs. The model assumes that the accesses at index -1 throw no exception of another type and change no directory entry. `DirPage` is not part of this model.
- Directory reads after a pin: `Heap.HeapFile.GetRecCnt`, `FindDirEntry`, `ScanForSpace` (`getAvailPage`), `FindRoom` (`insertPage`), `UpdateDirEntry`, `DeleteFile` (`FreeListPage`, `FreeDirPage`) and `RemoveEntry` take every pin of a directory page to deliver that page's current entries. In `BufMgr.pinPage`, only a PIN_DISKIO miss copies the frame into the `DirPage` handed in (`src/bufmgr/BufMgr.java:142`). A hit copies nothing (`93-95`), and what the heap file then reads depends on the `Page` class, which is not part of this model.
- `Heap.HeapFile.GetRecCnt`: does not model the 32-bit wrap-around of Java's `int` accumulator; the sum is unbounded.
- The slot size and the maximum record length come from HFPage and GlobalConst, which are not part of this model; they are constructor parameters of `Heap.HeapFile`. INVALID_PAGEID is taken to be -1. A new `PageId()` is taken to hold INVALID_PAGEID, which the probe of `Buffer.BufMgr.NewPage` relies on (`src/bufmgr/BufMgr.java:239`, `242`); `PageId` is not part of this model.
- The page map's iteration order is a parameter (`order`), any enumeration of the keys; the model does not fix one.
- Concurrency: the source is sequential, and so is the model.
