# BadgerDB buffer manager in Dafny

This project models `BufMgr`, the buffer manager of the BadgerDB teaching
database (`buffer.cpp`). BufMgr is a fixed pool of `numBufs` frames. Each frame
has a descriptor (`BufDesc`: owning file, page number, frame number, pin count,
dirty bit, valid bit and reference bit). The pool also has a clock hand for
second-chance replacement, and a hash table that maps a (file, page number)
key to a frame. Its operations are:

- `allocBuf` and `advanceClock`: clock replacement;
- `readPage`, `allocPage` and `unPinPage`: page access;
- `flushFile`: write-back of a file;
- `disposePage`: removal of a page.

The project has two layers.

- `PoolOps` (pool_ops.dfy), with its helpers in `BufferTypes` (buffer_types.dfy)
  and `ClockSweep` (clock_sweep.dfy), gives each operation as a pure function
  from a `Pool` value to a `Step`. A `Pool` holds the descriptor table, the
  clock hand and the hash table. A `Step` holds the new pool, the calls made
  into the File layer (in order) and the outcome: a value, or one of the
  exceptions as a `BufError`. Properties of one call are ensures clauses of
  these functions. Properties of several calls are lemmas in `PoolProperties`
  (pool_properties.dfy) and `Scenarios` (scenarios.dfy).
- `BufferManager.BufMgr` (buf_mgr.dfy) is the class itself. `bufDescTable` is
  an `array<BufDesc>` updated in place, `clockHand` and `hashTable` are
  fields, and the File calls go to a ghost log. `allocBuf` keeps its `while`
  loop with `continue`, and `flushFile` keeps its `for` loop over a local copy
  of each descriptor. Each method is proved to leave `Model()`, the log and
  its result exactly as the PoolOps function of the same name says.

The model follows the code as written. In five places the code does less
than its own comments or the operation names suggest, and each is stated as
a lemma:

- `allocBuf` does not remove the hash entry of a clean victim (the removal at
  buffer.cpp:86 is commented out). A later `readPage` of the old key is then
  a hit on a frame that holds another page (`CleanEvictionLeavesStaleEntry`,
  `Scenarios.CleanEvictionAliasesFrame`).
- Through such a stale key, `disposePage` Clears the frame that now holds
  another page, even while that page is pinned (buffer.cpp:229-231). A later
  `readPage` of the other page is a hit on an invalid frame, with no read
  from the file (`Scenarios.DisposeStaleKeyClearsFrame`).
- `flushFile` works on a copy of each descriptor, taken at buffer.cpp:200.
  Its `dirty = false` (:210) and `Clear()` (:213) change only the copy. The
  file's frames therefore stay valid and dirty, and a second flush of the
  same file throws HashNotFoundException (`FlushTwiceFails`). The same
  happens when two valid frames of the file hold the same page, which this
  makes reachable. The `@throws` list at buffer.cpp:193-194 does not mention
  HashNotFoundException.
- `allocBuf` counts visits to pinned frames, not frames. It can throw
  BufferExceededException while an unpinned frame exists
  (`ClockSweep.ExhaustedWithUnpinnedFrame`).
- The comment of `disposePage` (buffer.cpp:219) says the page is deleted from
  the file "and also from buffer pool if present". The code, however, calls
  `File::deletePage` (:232) only after a successful lookup (:229). A page that
  is not resident is not deleted from the file (`PoolOps.DisposePage`).

The hash table's `insert` and `remove` are modelled with their error cases:
HashAlreadyPresentException on a present key, HashNotFoundException on an
absent one. In `readPage` the insert cannot fail, and this is proved. In
`allocPage` the insert can fail, on a stale entry. The `remove` of a dirty
victim in `allocBuf` and the `remove` in `flushFile` can both throw.

## Model

| member | source | states |
|---|---|---|
| `BufferTypes.BufDesc.Set` | buffer.cpp:118 | the frame holds the given file and page, is valid and referenced, is pinned exactly once and is clean; its frame number is kept |
| `BufferTypes.BufDesc.Clear` | buffer.cpp:231 | the frame is invalid, unowned, unpinned, clean and unreferenced; its frame number is kept |
| `BufferTypes.Insert` | buffer.cpp:117 | insert succeeds exactly when the key is absent and then adds exactly that entry; otherwise it fails with HashAlreadyPresent for that key and frame |
| `BufferTypes.Remove` | buffer.cpp:81 | remove succeeds exactly when the key is present and then drops exactly that key; otherwise it fails with HashNotFound for that key |
| `ClockSweep.Advance` | buffer.cpp:59-62 | the hand stays below numBufs and steps to the next frame, wrapping from the last frame to frame 0 |
| `ClockSweep.SweepFrom` | buffer.cpp:67-93 | the `while (count <= numBufs)` loop: the table keeps its size, the hand stays in range, and a victim is always the frame the hand stopped on; what the loop clears, where it stops and when it gives up is stated by SweepOutcome, SweepReaches, SweepFirstPass, SweepFirstRound and SweepSecondPass |
| `ClockSweep.SweepOutcome` | buffer.cpp:68-91 | the sweep keeps the hand in range, changes nothing but reference bits (and only from set to clear), and stops only at the hand, on a frame that is free or unpinned and unreferenced |
| `ClockSweep.SweepExhaustsWhenAllPinned` | buffer.cpp:68-93 | when every frame is valid and pinned, the sweep ends with no victim, from any hand and counter |
| `ClockSweep.SweepReaches` | buffer.cpp:68-91 | an evictable frame that the hand reaches before the counter passes numBufs makes the sweep find a victim, at that frame or at one the hand reaches earlier |
| `ClockSweep.SweepFirstPass` | buffer.cpp:68-91 | when frame i is the first evictable frame after the hand, the sweep stops at i, clears the reference bits of exactly the frames it passed, and leaves i and every frame after it unchanged |
| `ClockSweep.FirstEvictableExists` | buffer.cpp:68-91 | if any frame is evictable, then some evictable frame is the first one after the hand |
| `ClockSweep.SweepFromStart` | buffer.cpp:64-94 | starting with count 0, the sweep gives up if every frame is valid and pinned, and finds a victim if any frame is free or unpinned and unreferenced, or if no frame is pinned |
| `ClockSweep.SweepVisitsWarmFrame` | buffer.cpp:70-78 | one iteration on a valid frame that is pinned or referenced: a set reference bit is cleared without counting, a clear one on a pinned frame adds one to the counter |
| `ClockSweep.SweepFirstRound` | buffer.cpp:67-78 | on a table where every frame is valid and pinned or referenced, the first pass finds no victim, comes back to the start with every reference bit cleared, and has counted exactly the frames that were pinned with the bit already clear |
| `ClockSweep.SweepRunsOutBefore` | buffer.cpp:67-93 | when every frame before frame i is pinned and unreferenced and the counter would pass numBufs before the hand gets to i, the sweep gives up |
| `ClockSweep.SweepSecondPass` | buffer.cpp:64-94 | on a table where every frame is valid and pinned or referenced, with P frames pinned and unreferenced and u the first unpinned frame after the hand: the sweep gives up exactly when P + Dist(hand, u) - 1 > numBufs, and otherwise stops at u with every reference bit cleared |
| `ClockSweep.ExhaustedWithUnpinnedFrame` | buffer.cpp:67-78 | three frames, two pinned and one unpinned but referenced, hand on the unpinned one: the counter passes numBufs before the unpinned frame is seen again, so allocBuf throws |
| `PoolOps.Evict` | buffer.cpp:79-91 | the last step of allocBuf: the hand stays where the sweep stopped, the table keeps its size, BufferExceeded comes exactly when the sweep found no victim, and a returned frame is the victim; the write-back, the entry removal and the errors are stated by EvictOutcome |
| `PoolOps.EvictOutcome` | buffer.cpp:79-91 | a dirty valid victim gives exactly one write of its page, then the removal of its entry and a clean descriptor, or HashNotFound with the entry missing; a clean or free victim leaves the table and the File layer alone; no victim gives BufferExceeded and no write |
| `PoolOps.AllocBuf` | buffer.cpp:64-94 | the returned frame is the hand and is free, or unpinned, unreferenced and clean; only HashNotFound and BufferExceeded escape; all frames pinned gives BufferExceeded; an evictable frame rules it out; the first evictable frame after the hand is the one taken, the frames passed before it lose only their reference bit, and later frames are untouched; with no write only reference bits change; with a write it is exactly one dirty eviction; the pool in which the first pass finds nothing is covered by AllocBufSecondPass |
| `PoolOps.AllocTakesFirstEvictable` | buffer.cpp:68-91 | allocBuf stops at the first evictable frame after the hand; that frame loses only its dirty bit, and only when it is written back; frames passed lose their reference bit; the others are untouched |
| `PoolOps.AllocAfterSecondPass` | buffer.cpp:64-94 | on a table where every frame is valid and pinned or referenced, allocBuf throws BufferExceeded exactly when the pinned frames counted on both passes exceed numBufs before the first unpinned frame u; otherwise it takes u, every frame loses its reference bit and u loses its dirty bit when it is written back |
| `PoolOps.AllocBufSecondPass` | buffer.cpp:64-94 | allocBuf never throws BufferExceeded when no frame is pinned; on a table where every frame is valid and pinned or referenced it throws exactly under the two-pass count condition and otherwise takes the first unpinned frame after the hand, clearing every reference bit |
| `PoolOps.ReadPage` | buffer.cpp:105-122 | a hit returns the table's frame, adds one pin, sets its reference bit and calls nothing; a miss reads the page once into the allocBuf frame, enters the key and Sets the descriptor; the insert never fails; allocBuf's errors propagate |
| `PoolOps.UnPinPage` | buffer.cpp:132-147 | an absent key changes nothing; a pin count of 0 gives PageNotPinned and no change; otherwise the pin count drops by one, dirty becomes old dirty or the flag, and nothing else changes |
| `PoolOps.AllocPage` | buffer.cpp:157-185 | the page is allocated in the file before allocBuf runs; on success the new page number and the frame are returned, the key is entered and the frame is Set; allocBuf's errors and HashAlreadyPresent on a present key propagate |
| `PoolOps.FlushFrom` | buffer.cpp:198-215 | the loop never changes a descriptor or the clock hand, only removes hash entries, and lets only BadBuffer, PagePinned and HashNotFound escape |
| `PoolOps.PassesFromIff` | buffer.cpp:198-212 | judging frames one by one on the table left by the ones before is the same as: all valid, and each of the file's frames unpinned with its entry present and its page number not repeated earlier |
| `PoolOps.FlushOneFrame` | buffer.cpp:200-213 | one iteration on a frame that passes: the frame's dirty write, then the rest of the loop on the table without that frame's key |
| `PoolOps.FlushPrefix` | buffer.cpp:198-215 | running the loop over frames that pass is the same as removing their keys, writing their dirty pages in frame order and continuing after them |
| `PoolOps.FlushFromSucceeds` | buffer.cpp:198-215 | the loop from a frame on finishes without an exception exactly when every frame from there on passes its checks |
| `PoolOps.FlushFromOutcome` | buffer.cpp:198-215 | the loop succeeds exactly when its frames pass; it then has removed exactly the keys of the file's frames and written exactly their dirty pages, in frame order |
| `PoolOps.FlushFile` | buffer.cpp:196-216 | descriptors and hand never change; only BadBuffer, PagePinned and HashNotFound escape; success exactly when every frame is valid and every frame of the file is unpinned, has its entry present, and holds a page that no earlier frame of the file holds; then no frame of the file keeps an entry and every dirty frame of the file was written once, in frame order |
| `PoolOps.DisposePage` | buffer.cpp:225-234 | never fails; afterwards the key is absent; an absent key changes nothing and calls nothing; a present key is removed, its frame Cleared and deletePage called once |
| `PoolOps.ValidFrames` | buffer.cpp:242-252 | the valid-frame count is at most numBufs, equals numBufs exactly when all frames are valid, and is 0 exactly when none is |
| `PoolOps.InitialPool` | buffer.cpp:32-48 | every descriptor i is empty and invalid with frameNo i, the table is empty, the hand is numBufs - 1 and the first advance lands on frame 0 |
| `PoolProperties.FlushStopsAtInvalidFrame` | buffer.cpp:201-202 | the first invalid frame throws BadBuffer with that frame's bits, whoever owns it, and the removals and writes for the frames before it stay done |
| `PoolProperties.FlushStopsAtPinnedFrame` | buffer.cpp:204-207 | the first pinned frame of the file throws PagePinned for that page and frame, after the work on the frames before it |
| `PoolProperties.FlushFromErrorFrame` | buffer.cpp:198-207 | a BadBuffer or PagePinned from the loop names a frame that really fails that check, and every frame before it passes |
| `PoolProperties.FlushFileErrorFrame` | buffer.cpp:198-207 | flushFile's BadBuffer or PagePinned names the first frame that fails the checks |
| `PoolProperties.FlushTwiceFails` | buffer.cpp:200-213 | after a successful flush, flushing the same file again writes its first page once more if it was dirty and throws HashNotFound for that page |
| `PoolProperties.FlushFreshPoolFails` | buffer.cpp:36-40 | on a freshly built pool flushFile throws BadBuffer for frame 0 and changes nothing |
| `PoolProperties.FlushNeedsAllFramesValid` | buffer.cpp:201-202 | a successful flush implies that every frame of the pool is valid |
| `PoolProperties.ReadPageAgain` | buffer.cpp:108-112 | reading a resident page again returns the same frame, adds one pin, reads nothing and changes no other frame |
| `PoolProperties.ReadThenUnpin` | buffer.cpp:136-143 | unpinning the page just read succeeds and calls nothing; the pin count returns to its old value on a hit and to 0 on a miss; dirty only grows |
| `PoolProperties.UnpinTwiceAfterMiss` | buffer.cpp:137-138 | a page read in on a miss is pinned once, so a second unpin throws PageNotPinned and changes nothing |
| `PoolProperties.FullPoolRejectsNewPages` | buffer.cpp:176-177 | with every frame valid and pinned, reading a non-resident page and allocating a page both throw BufferExceeded; allocPage has already allocated its page in the file |
| `PoolProperties.DisposeThenRead` | buffer.cpp:229-232 | after disposePage the key is absent, so a following read is a miss that ends with one read of that page into a frame it Sets |
| `PoolProperties.CleanEvictionLeavesStaleEntry` | buffer.cpp:86-88 | when a read reuses a clean frame, the frame's old key still names it, and reading that key is a hit on the frame that now holds the new page |
| `Scenarios.FillFirst` | buffer.cpp:115-119 | on a fresh pool of three frames the first read takes frame 0 |
| `Scenarios.FillSecond` | buffer.cpp:115-119 | the second read takes frame 1 |
| `Scenarios.FillThird` | buffer.cpp:115-119 | the third read takes frame 2 |
| `Scenarios.ExhaustThree` | buffer.cpp:68-93 | with all three frames pinned, the sweep clears the three reference bits, counts four pinned visits and throws BufferExceeded with no write |
| `Scenarios.ReuseDirtyFrame` | buffer.cpp:79-84 | after page 3 is unpinned dirty, reading page 4 writes page 3 back, removes its entry, reads page 4 into frame 2 and leaves frames 0 and 1 alone |
| `Scenarios.PoolOfThree` | buffer.cpp:105-147 | the whole pool-of-three run: three reads fill the pool, a fourth throws BufferExceeded, and after an unpin it reuses the unpinned dirty frame |
| `Scenarios.ReadAndUnpinOne` | buffer.cpp:114-119 | on a fresh one-frame pool, page 1 is read into frame 0 and unpinned clean |
| `Scenarios.EvictCleanOne` | buffer.cpp:86-88 | reading page 2 then evicts page 1 with no write and keeps page 1's entry next to page 2's |
| `Scenarios.CleanEvictionAliasesFrame` | buffer.cpp:86-88 | with one frame: read page 1, unpin it clean, read page 2 (no write); reading page 1 again is then a hit on the frame holding page 2, and both keys map to it |
| `Scenarios.DisposeStaleKeyClearsFrame` | buffer.cpp:229-231 | continuing that run, disposing of page 1 deletes it and Clears the frame that holds the pinned page 2; reading page 2 is then a hit with no File call on a frame that is not valid |
| `BufferManager.BufMgr.constructor` | buffer.cpp:32-48 | the object starts as InitialPool(bufs) over a fresh array, with an empty log |
| `BufferManager.BufMgr.AdvanceClock` | buffer.cpp:59-62 | only the hand changes, to Advance of the old hand |
| `BufferManager.BufMgr.AllocBuf` | buffer.cpp:64-94 | the loop over the array leaves exactly the table, hand, hash table, log and result of PoolOps.AllocBuf |
| `BufferManager.BufMgr.ReadPage` | buffer.cpp:105-122 | the new state, log and result are those of PoolOps.ReadPage |
| `BufferManager.BufMgr.UnPinPage` | buffer.cpp:132-147 | the new state and result are those of PoolOps.UnPinPage |
| `BufferManager.BufMgr.AllocPage` | buffer.cpp:157-185 | the new state, log and result are those of PoolOps.AllocPage |
| `BufferManager.BufMgr.FlushFile` | buffer.cpp:196-216 | the loop over local descriptor copies changes only the hash table and the log, as PoolOps.FlushFile says; the array is outside its frame |
| `BufferManager.BufMgr.DisposePage` | buffer.cpp:225-234 | the new state and log are those of PoolOps.DisposePage |
| `BufferManager.BufMgr.CountValidFrames` | buffer.cpp:242-252 | the loop's count is ValidFrames of the table |

## Left out

- File I/O (`File::readPage`, `writePage`, `allocatePage`, `deletePage`,
  `filename`) is outside the core. Each call is an `IoEvent` in a ghost log,
  and the page number that `allocatePage` returns is a parameter of
  `AllocPage`. Exceptions raised by the File layer are not modelled.
- Page contents and `bufPool` are not modelled. The `page` out-parameters of
  `readPage` and `allocPage` become the frame number.
- `BufHashTbl` internals (hashing, buckets) are not modelled: the table is a
  map. The bucket count computed with floating point at buffer.cpp:44 does not
  affect behaviour.
- buffer.h is not part of this model. `BufDesc::Set` and `BufDesc::Clear`
  follow the usual BadgerDB definitions. Clear sets the page number to 0,
  which is never read while the frame is invalid.
- The destructor (buffer.cpp:53-57) and raw `new[]` allocation are not
  modelled.
- `printSelf` console output is not modelled; only its valid-frame count is
  (`CountValidFrames`).
- `BufferManager.BufMgr.constructor`: requires numBufs below 2^32 - 1. With
  0 frames `advanceClock` divides by zero. With 2^32 - 1 frames the 32-bit
  `count` in allocBuf wraps and the loop never ends.
- `PoolOps.UnPinPage` and `PoolOps.ReadPage`: the pin count is unbounded and
  does not model the overflow of the source's `int`.
- Files are identified by a number that stands for the `File*` pointer.
  Exceptions carry that number where the source formats the file name.
- Concurrency: the source has none.
