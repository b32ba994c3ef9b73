# Buffer manager (BufMgr) in Dafny

This project models `BufMgr` from `buf.C`, the buffer-pool manager of a small database system. It proves properties of that model. The pool has `numBufs` frames:

- `bufTable`, a fixed array of frame descriptors;
- `bufPool`, the page contents of the frames;
- a hash table from (file, page number) to frame number;
- a persistent clock hand.

`allocBuf` finds a frame with the clock (second-chance) policy over at most `2 * numBufs` steps. If the frame holds an unpinned page, it first writes that page back when dirty and drops it from the hash table. The other operations built on that state are:

- `readPage` (hit or miss);
- `unPinPage`, `allocPage` and `disposePage`;
- `flushFile`;
- the destructor's write-back.

The project has six modules, one per file:

- `BufTypes` (`buf_types.dfy`): status codes, the frame descriptor with the `Set`/`Clear` helpers of `buf.h`, and the hash-table key.
- `BufHash` (`buf_hash.dfy`): the hash table `BufHashTbl` seen through its contract, as a map whose `Insert` refuses a key already present and whose `Remove` reports a missing key.
- `Clock` (`clock.dfy`): the allocBuf scan as a function `Scan` of the frame table and the hand, with its properties. These are which frame it chooses (the candidate nearest the hand on the first lap, else the unpinned frame nearest the hand), which refbits it clears, the exact two-lap bound, and where it leaves the hand.
- `BufSpec` (`buf_spec.dfy`): the whole manager state as a value `Pool` and its invariant `Inv`. There is one function per operation giving its status, out-parameters and new state.
  - `Inv` says that frame `i` is numbered `i`, that empty frames are unowned, unpinned and clean, and that the hash table maps (f, p) to `i` exactly when frame `i` is valid and holds page p of f.
- `BufManager` (`buf_mgr.dfy`): the class `BufMgr`, with `bufTable` and `bufPool` as arrays and the hash table, hand and page store as fields. Each method is proved to produce exactly the status, out-parameters and new state of a specification function, and all but one keep the invariant.
  - The operations match their `BufSpec` functions; `EvictAtHand` matches `Evict` and `Destroy` matches `WriteBackFrom`.
  - `Sweep`, the loop of allocBuf, is proved equal to `Clock.Scan`. It needs only the table's length; `AllocBuf` restores the invariant after it.
- `BufProps` (`buf_props.dfy`): what the operations promise their callers, proved about the `BufSpec` functions.

The `File` calls (`readPage`, `writePage`, `allocatePage` and `disposePage`) are not modelled. Each one's result is a parameter of the operation that makes the call:

- `writeStatus` for allocBuf's write-back;
- `readStatus` for the read of a missing page;
- `allocStatus` and `newPageNo` for the page allocation;
- `disposeStatus` for the disposal;
- a sequence with one status per frame for flushFile and the destructor.

The page store behind all files is a map `disk` from (file, page number) to page contents. A successful write updates the map. A read loads what the map holds, or a blank page for a page never written. A successful disposal removes the key.

Four behaviours of `buf.C` are modelled as written:

- `unPinPage` sets the dirty flag before it checks the pin count (buf.C:199-207), so a PAGENOTPINNED result can still have set it.
- `flushFile` returns PAGEPINNED at the first pinned frame of the file (buf.C:273-274). By then it has already written back, unindexed and invalidated the file's earlier frames (buf.C:276-292).
- `allocBuf` reports any failure of the victim's write-back as UNIXERR, whatever status the write returned (buf.C:101-102).
- `readPage` returns the hash table's own status when the insertion fails (buf.C:160-161). `allocPage` turns any insertion failure into HASHTBLERROR (buf.C:240-241).

## Model

| member | source | states |
|---|---|---|
| `Clock.Advance` | buf.C:119 | The hand stays inside the pool and moves to the next frame, wrapping to frame 0 after the last. |
| `Clock.Scan` | buf.C:78-121 | The scan keeps the number of frames. What it chooses is stated by `Clock.ScanFacts`. |
| `Clock.ScanFacts` | buf.C:78-121 | The scan changes only refbits, and only from set to clear. It never touches an empty frame. The frame it returns is under the hand, and is either empty or valid, unpinned and with its refbit clear. |
| `Clock.AllPinnedExhausts` | buf.C:78-122 | When every frame is valid and pinned, no number of steps finds a frame, and every frame the hand has passed has its refbit cleared. |
| `Clock.ExhaustedScanKeepsHand` | buf.C:78-122 | When every frame is pinned, the 2 * numBufs advances bring the hand back to the frame it started from. |
| `Clock.ReachesCandidate` | buf.C:78-121 | A free or unpinned frame is found within one lap of the hand, plus a second lap if its refbit must first be cleared. |
| `Clock.ScanExhaustedIffAllPinned` | buf.C:78-122 | A scan of 2 * numBufs steps fails if and only if every frame is valid and pinned. |
| `Clock.OnePinnedFrameFailsAfterTwoSteps` | buf.C:78-122 | In a one-frame pool with a pinned page whose refbit is set, the scan fails after exactly two steps. It leaves only the refbit cleared and the hand on frame 0. |
| `Clock.ScanTakesNearestCandidate` | buf.C:78-117 | When some frame is empty, or unpinned with its refbit clear, the scan takes the one nearest the hand in clock order: Free if it is empty, Victim otherwise. It leaves the hand on it and clears the refbit of exactly the frames it passed. |
| `Clock.ScanTakesNearestUnpinned` | buf.C:78-117 | When no frame is a first-lap candidate, the scan clears every refbit and takes the unpinned frame nearest the hand as victim, leaving the hand on it. |
| `Clock.SecondLapFindsVictim` | buf.C:78-117 | One lap is not enough to choose an unpinned frame whose refbit is set. The second lap chooses it. |
| `BufTypes.BufDesc.Clear` | buf.C:110 | The frame becomes empty: not valid, owned by no file, unpinned and clean, with its frame number kept. |
| `BufTypes.BufDesc.Set` | buf.C:163 | The frame holds the given page of the given file, pinned once, clean and with its refbit set. Its frame number is kept. |
| `BufHash.Insert` | buf.C:160 | HASHTBLERROR if and only if the key is already present, otherwise OK. Afterwards the key is present. On OK it maps to the given frame and every other entry is unchanged. On error the table is unchanged. |
| `BufHash.Remove` | buf.C:112 | OK if and only if the key was present, otherwise HASHNOTFOUND. Afterwards the key is absent and every other entry keeps its frame. |
| `BufSpec.InitPool` | buf.C:23-41 | The constructor's state has numBufs empty frames numbered 0 to numBufs - 1, an empty hash table and the hand on numBufs - 1, and satisfies the invariant. |
| `BufSpec.ClearKeepsInv` | buf.C:106-112 | Clearing a valid frame and removing its page from the hash table keeps the invariant. |
| `BufSpec.SetKeepsInv` | buf.C:160-163 | Setting an empty frame to a page not in the hash table, and inserting that page, keeps the invariant. |
| `BufSpec.RefbitsKeepInv` | buf.C:86-89 | Clearing refbits, moving the hand, or changing frame contents or the page store keeps the invariant. |
| `BufSpec.Evict` | buf.C:91-117 | The victim branch returns only OK or UNIXERR, and UNIXERR exactly when the frame is dirty and its write fails. Then the frame is -1 and the state is unchanged. The hand, the frame contents and the number of frames are never changed. |
| `BufSpec.EvictKeepsInv` | buf.C:91-117 | The victim branch keeps the invariant and the hand, and returns only OK or UNIXERR. On OK the frame it returns is the victim, now empty. |
| `BufSpec.AllocBufSpec` | buf.C:74-127 | allocBuf returns only OK, UNIXERR or BUFFEREXCEEDED, with frame -1 unless OK. The number of frames and their contents are kept. |
| `BufSpec.AllocBufKeepsInv` | buf.C:74-127 | allocBuf keeps the invariant and returns only OK, UNIXERR or BUFFEREXCEEDED. A frame it returns is empty and under the hand. |
| `BufSpec.InstallSpec` | buf.C:160-163 | Inserting a page into the hash table for an empty frame and setting the frame to it keeps the invariant. The insertion fails, with HASHTBLERROR and nothing changed, exactly when the page is already in the hash table. On OK the frame holds the page, pinned once, clean and referenced, and the hash table maps the page to it. Nothing else changes. |
| `BufSpec.Rehit` | buf.C:172-173 | A hit adds one pin to the frame and sets its refbit. The hash table, the frame contents, the page store and the hand are unchanged. |
| `BufSpec.ReadPageSpec` | buf.C:145-182 | readPage keeps the invariant in every outcome. |
| `BufSpec.UnPinPageSpec` | buf.C:189-216 | unPinPage keeps the invariant in every outcome. |
| `BufSpec.AllocPageSpec` | buf.C:228-246 | allocPage keeps the invariant in every outcome. |
| `BufSpec.DisposePageSpec` | buf.C:248-263 | disposePage keeps the invariant, even when the page is pinned. |
| `BufSpec.TearDown` | buf.C:276-292 | The torn-down frame becomes empty and unowned with its pin count kept. Its page leaves the hash table, no page leaves the store, and the hand and frame contents are unchanged. |
| `BufSpec.TearDownKeepsInv` | buf.C:276-292 | Tearing down an unpinned frame of the flushed file keeps the invariant. |
| `BufSpec.FlushFrom` | buf.C:265-300 | flushFile keeps the number of frames and, from a state satisfying the invariant, the invariant, whichever way it returns. |
| `BufSpec.WriteBackFrom` | buf.C:48-60 | The destructor's write-back never removes a page from the store. |
| `BufManager.BufMgr.constructor` | buf.C:23-42 | The new manager's state is `InitPool`: numBufs empty frames, an empty hash table, the hand on the last frame. |
| `BufManager.BufMgr.AllocBuf` | buf.C:74-127 | The status, the frame and the new state are those of `AllocBufSpec`, and the invariant is kept. |
| `BufManager.BufMgr.Sweep` | buf.C:78-121 | The loop reports the outcome, and leaves the table and the hand, of the scan `Clock.Scan` of 2 * numBufs steps from the old table and hand. |
| `BufManager.BufMgr.EvictAtHand` | buf.C:91-117 | The victim branch does what `Evict` describes: write back if dirty (UNIXERR if that fails), look the page up again, clear the frame, remove the page from the hash table. The invariant is kept. |
| `BufManager.BufMgr.ReadPage` | buf.C:145-182 | The status, the frame and the new state are those of `ReadPageSpec`, and the invariant is kept. |
| `BufManager.BufMgr.Install` | buf.C:160-163 | The hash-table insertion and `Set()` end in the state `InstallSpec` gives, and the invariant is kept. |
| `BufManager.BufMgr.UnPinPage` | buf.C:189-216 | The status and the new state are those of `UnPinPageSpec`, and the invariant is kept. |
| `BufManager.BufMgr.AllocPage` | buf.C:228-246 | The status, page number, frame and new state are those of `AllocPageSpec`, and the invariant is kept. |
| `BufManager.BufMgr.DisposePage` | buf.C:248-263 | The status and the new state are those of `DisposePageSpec`, and the invariant is kept. |
| `BufManager.BufMgr.FlushFile` | buf.C:265-300 | The status and the new state are those of `FlushFrom` from frame 0, and the invariant is kept. |
| `BufManager.BufMgr.Destroy` | buf.C:45-64 | The page store ends as `WriteBackFrom` describes. The frame table, hash table and hand are unchanged, and the invariant is kept. |
| `BufProps.IndexExact` | buf.C:106-112 | The hash table maps a page to frame i if and only if frame i is valid and holds that page. |
| `BufProps.NoPageTwice` | buf.C:160-162 | No page is held by two frames at once. |
| `BufProps.EvictLookupFindsVictim` | buf.C:106-111 | The lookup that overwrites the frame number in allocBuf finds the victim's own frame. So a successful eviction returns the frame under the hand. |
| `BufProps.AllocBufChoosesUnpinned` | buf.C:78-117 | On OK allocBuf returns only an empty frame, or one whose page was unpinned, and the hand stays on it. Every other frame changes at most by losing its refbit. |
| `BufProps.AllocBufEmptiesFrame` | buf.C:78-117 | On OK, an empty frame is returned as it was. An occupied one is written back first if dirty (which needs the write to succeed), then cleared and removed from the hash table. |
| `BufProps.AllocBufTakesNearestCandidate` | buf.C:78-117 | allocBuf takes the candidate nearest the hand (empty, or unpinned with its refbit clear) and leaves the hand on it. Frames it passed lose their refbit and every other frame is untouched. An empty frame is returned at once as it was. An occupied one is cleared, or, exactly when it is dirty and its write fails, left intact with UNIXERR. |
| `BufProps.AllocBufTakesNearestUnpinned` | buf.C:78-117 | With no first-lap candidate, allocBuf clears every refbit and evicts the unpinned frame nearest the hand, leaving the hand on it. UNIXERR happens exactly when that frame is dirty and its write fails. |
| `BufProps.AllocBufWriteFails` | buf.C:98-102 | UNIXERR means the write failed. The victim stays under the hand, valid, dirty, unpinned and in the hash table. Only refbits have changed. |
| `BufProps.AllocBufExceededIffAllPinned` | buf.C:78-122 | BUFFEREXCEEDED is returned if and only if every frame holds a pinned page. |
| `BufProps.AllocBufExceededClearsRefbits` | buf.C:78-122 | When every frame is pinned, allocBuf returns BUFFEREXCEEDED with frame -1. Every refbit is now clear, the hand is back where it was, and nothing else changed. |
| `BufProps.ReadPageHit` | buf.C:170-176 | A page in the pool is returned from its frame, with one more pin and the refbit set. No other frame, the hash table, the frame contents, the page store and the hand are unchanged. |
| `BufProps.ReadPageMiss` | buf.C:149-167 | A missing page is read into the frame allocBuf returns, and pinned once, clean and referenced. It is in the hash table, and the hash-table insertion cannot fail. No other frame, the hand or the page store changes after allocBuf. An allocBuf or read failure is returned as it is, with allocBuf's state and the page not in the hash table. |
| `BufProps.AllocPageThenReadHits` | buf.C:240-243 | Reading a page right after allocPage created it is a hit on the same frame, which it pins a second time. |
| `BufProps.UnPinPageCases` | buf.C:189-211 | HASHNOTFOUND changes nothing. Otherwise the dirty flag is set when asked, even with PAGENOTPINNED. A pinned page loses exactly one pin, and an unpinned one keeps pin count 0. No other frame changes. |
| `BufProps.UnPinPageKeepsDirty` | buf.C:199-202 | unPinPage never clears a dirty flag. |
| `BufProps.FetchesAddPins` | buf.C:172-173 | n readPage hits on a frame add exactly n pins and change nothing else but its refbit. |
| `BufProps.FetchedKeepsInv` | buf.C:172-173 | Repeated hits on a valid frame keep the invariant and the hash table. |
| `BufProps.ReleasesRemovePins` | buf.C:205-209 | Each of n unpins of a page with at least n pins succeeds and removes one pin. |
| `BufProps.PinsBalance` | buf.C:172-209 | After n hits and n unpins, an unpinned page is unpinned again, and one more unpin reports PAGENOTPINNED. |
| `BufProps.AllocPageCases` | buf.C:228-246 | A file allocation failure comes first and changes nothing. Then an allocBuf failure is passed on. After a successful allocBuf, HASHTBLERROR happens exactly when the new page number is still in the pool, and leaves allocBuf's state. Otherwise the new page is in the allocBuf frame, in the hash table, pinned once, clean and referenced. No other frame, the frame contents, the hand or the page store changes. |
| `BufProps.DisposePageCases` | buf.C:248-263 | disposePage frees the page's frame whatever its pin count, removes the page from the hash table, and returns the file's status. It touches no other frame. The page leaves the store only if the file's disposal succeeded. |
| `BufProps.TearDownFacts` | buf.C:276-292 | Tearing down a frame empties and unowns it and removes its page from the hash table. If the frame was dirty, its contents are written to the store. No other frame or stored page changes. |
| `BufProps.FlushKeepsOthers` | buf.C:269-297 | flushFile changes only frames of the flushed file, and never a pinned frame, whatever it returns. It only removes hash-table entries, never those of another file, and writes only pages of that file. |
| `BufProps.FlushOkWritesSucceeded` | buf.C:276-283 | A flush that returns OK met no failed write: every dirty page of the file, from the starting frame on, was written successfully. |
| `BufProps.FlushOkDropsFile` | buf.C:265-300 | OK from flushFile means no page of the file was pinned, and every write of a dirty page of the file succeeded. No frame and no hash-table entry belongs to the file any more, and every other file's frames are as they were. |
| `BufProps.FlushFails` | buf.C:271-284 | When no empty frame belongs to the file (which the invariant guarantees), every failure of flushFile is one of two kinds: PAGEPINNED at a pinned frame of the file, or the store's status at an unpinned dirty frame of the file whose write failed. That frame and every later frame are left as they were. Every earlier frame of the file was unpinned, so PAGEPINNED comes from the first pinned frame, and is already empty and out of the hash table. |
| `BufProps.FlushBadBufferOnlyFromStore` | buf.C:295-296 | Under the invariant flushFile reports BADBUFFER only when the page store returned it for the write of an unpinned dirty page of the file, at the frame where the flush stopped. |
| `BufProps.FlushSparesUnindexed` | buf.C:276-288 | A page not in the pool keeps its stored contents through a flush. |
| `BufProps.FlushWritesBack` | buf.C:276-286 | Every dirty page of the file that the flush tore down was first written to the store with the contents of its frame. |
| `BufProps.FlushWritesOnlyTornDownDirty` | buf.C:271-288 | flushFile writes a page of the pool only if its frame is dirty and torn down. A clean page keeps its stored contents, and so does one whose frame the flush leaves valid: pinned, past the frame where the flush stopped, or owned by another file. |
| `BufProps.FlushKeepsEntry` | buf.C:271-288 | A page keeps its stored contents through a flush if every frame holding it is clean or is left valid by the flush. |
| `BufProps.FlushLeavesTornDownEmpty` | buf.C:276-292 | A frame the flush tears down stays empty for the rest of the flush. |
| `BufProps.FlushTearsDownClean` | buf.C:276-288 | A clean frame that the flush tears down is not written: its page keeps its stored contents. |
| `BufProps.TearDownSparesOther` | buf.C:276-292 | Tearing down one frame keeps the invariant and leaves every other valid frame, and its page's stored contents, as they were. |
| `BufProps.WriteBackSparesUnindexed` | buf.C:48-60 | The destructor leaves the stored contents of every page not in the pool as they were. |
| `BufProps.WriteBackSaves` | buf.C:48-60 | Every valid dirty frame, pinned or not, whose write succeeds ends in the store with the contents of its frame. |
| `BufProps.WriteBackSkipsClean` | buf.C:51-58 | The destructor writes a page only when its frame is valid and dirty and the write succeeds. A clean frame, or one whose write fails, leaves its page's stored contents as they were. |

## Left out

- File I/O: the bodies of `File::readPage`, `writePage`, `allocatePage` and `disposePage` and their disk access are not modelled. Each call's result is a parameter, and the page store is the map `disk`. allocPage does call `file->allocatePage` (buf.C:232), but the model does not capture that call's effect on the store: its status and the new page number are parameters, and `disk` is unchanged by it.
- BufHashTbl's hashing, chaining and hash-table sizing are not modelled, because the sizing is floating-point (`bufs * 1.2`) and only tunes the table. The table is a map with the insert, remove and lookup contracts.
- Page bytes: a page is an opaque `seq<bv8>`. The constructor's `memset`, the `new` and `delete` of the arrays, the `ASSERT` macro, the `DEBUGBUF` printing and `printSelf` are raw memory or console output and are left out.
- The `page` out-parameter of readPage and allocPage, a pointer into `bufPool`, is the frame number. The aliasing hazard of such a pointer outliving its pin is not modelled.
- `Set()`, `Clear()` and `advanceClock()` live in `buf.h`, which is not part of this model. They are defined with their conventional meaning (see `BufTypes` and `Clock.Advance`).
- The global `bufMgr` pointer that allocBuf uses for the clock hand is taken to be the object the method runs on.
- When an operation fails, its `frame` result is -1. In the source the caller's variable keeps its old value.
- BufSpec.AllocPageSpec: when `file->allocatePage` fails, the page number it returns is -1. In the source `pageNo` holds whatever that call left in it (buf.C:232-233).
- On a failed `file->readPage` the model leaves the frame's contents unchanged. What a failing read leaves in the frame is part of the I/O layer.
- The source's `int` fields (pin counts, page numbers) are unbounded integers. Overflow of `pinCnt++` is not modelled.
- Page-store writes are not counted. The model shows that a dirty page is written with its frame's contents before the frame is reused (`BufProps.AllocBufEmptiesFrame`, `BufProps.FlushWritesBack`). It also shows that a clean page is never written, and neither is one the flush or the destructor leaves unwritten (`BufProps.FlushWritesOnlyTornDownDirty`, `BufProps.WriteBackSkipsClean`). It does not show that a page is written exactly once.
- The destructor's `delete` of the arrays is not modelled, and neither is the object's end of life. `Destroy` models only the write-back loop, which ignores a failed write.
- Clock.Scan: its own contract gives only the number of frames, so that callers do not unfold it needlessly. Its choice of frame is stated by `Clock.ScanFacts`.
- BufSpec.Evict, BufSpec.AllocBufSpec, BufSpec.Rehit, BufSpec.TearDown and BufSpec.WriteBackFrom: their own contracts give the statuses, the sizes, and what never changes. The full effect is stated by lemmas. `Evict` by `BufSpec.EvictKeepsInv` and `BufProps.EvictLookupFindsVictim`. `AllocBufSpec` by `BufSpec.AllocBufKeepsInv` and the `BufProps.AllocBuf*` lemmas. `Rehit` by `BufProps.FetchesAddPins` and `BufProps.ReadPageHit`. `TearDown` by `BufProps.TearDownFacts`. `WriteBackFrom` by `BufProps.WriteBackSparesUnindexed`, `BufProps.WriteBackSaves` and `BufProps.WriteBackSkipsClean`.
- BufSpec.ReadPageSpec, BufSpec.UnPinPageSpec, BufSpec.AllocPageSpec, BufSpec.DisposePageSpec and BufSpec.FlushFrom: their own contracts state only that the invariant is kept. What each outcome means is stated by the `BufProps` lemmas of the same operation.
- A null `File*`: file identifiers are natural numbers, so `FlushFile` cannot be given the null file. In the source `flushFile(NULL)` finds the first empty frame, whose `file` is null, and returns BADBUFFER (buf.C:295-296).
- BufProps.FlushFails: it requires that no empty frame belongs to the file. That is the BADBUFFER case, and the invariant guarantees it.
