/** Properties that relate several buffer manager operations, or that follow
    the flushFile loop to the frame where it stops.
 */
module PoolProperties {
  import opened BufferTypes
  import opened ClockSweep
  import opened PoolOps

  // ---------------------------------------------------------------- flushFile

  /** Frames none of which the file owns contribute no keys and no writes. */
  lemma {:induction false} NothingOwned(descs: seq<BufDesc>, file: FileId, lo: nat, hi: nat)
    requires lo <= hi <= |descs|
    requires forall k :: lo <= k < hi ==> !Owned(descs[k], file)
    ensures OwnedKeys(descs, file, lo, hi) == {} && DirtyWrites(descs, file, lo, hi) == []
    decreases hi - lo
  {
    if lo < hi {
      NothingOwned(descs, file, lo + 1, hi);
    }
  }

  /** flushFile throws BadBufferException at the first invalid frame the loop
      reaches, whoever owned it; what it did to earlier frames stays done. */
  lemma FlushStopsAtInvalidFrame(p: Pool, file: FileId, j: nat)
    requires WellFormed(p) && j < |p.descs| && FlushableRange(p, file, 0, j) && !p.descs[j].valid
    ensures var r := FlushFile(p, file);
      r.result == Err(BadBuffer(j, p.descs[j].dirty, false, p.descs[j].refbit)) &&
      r.pool.hashTable == p.hashTable - OwnedKeys(p.descs, file, 0, j) &&
      r.events == DirtyWrites(p.descs, file, 0, j)
  {
    PassesFromIff(p, file, 0, j);
    FlushPrefix(p, file, 0, j);
  }

  /** flushFile throws PagePinnedException at the first pinned frame of the
      file that the loop reaches, after the work on earlier frames. */
  lemma FlushStopsAtPinnedFrame(p: Pool, file: FileId, j: nat)
    requires WellFormed(p) && j < |p.descs| && FlushableRange(p, file, 0, j)
    requires p.descs[j].valid && Owned(p.descs[j], file) && p.descs[j].pinCnt != 0
    ensures var r := FlushFile(p, file);
      r.result == Err(PagePinned(file, p.descs[j].pageNo, j)) &&
      r.pool.hashTable == p.hashTable - OwnedKeys(p.descs, file, 0, j) &&
      r.events == DirtyWrites(p.descs, file, 0, j)
  {
    PassesFromIff(p, file, 0, j);
    FlushPrefix(p, file, 0, j);
  }

  /** Conversely, a BadBuffer or PagePinned error from the loop names the first
      frame that fails the checks. */
  lemma {:induction false} FlushFromErrorFrame(p: Pool, file: FileId, i: nat)
    requires WellFormed(p) && i <= |p.descs|
    ensures var r := FlushFrom(p, file, i);
      (r.result.Err? && r.result.error.BadBuffer? ==>
         var j := r.result.error.frame;
         i <= j < |p.descs| && !p.descs[j].valid && PassesFrom(p, file, i, j)) &&
      (r.result.Err? && r.result.error.PagePinned? ==>
         var j := r.result.error.frame;
         i <= j < |p.descs| && p.descs[j].valid && Owned(p.descs[j], file) && p.descs[j].pinCnt != 0 &&
         PassesFrom(p, file, i, j))
    decreases |p.descs| - i
  {
    if i < |p.descs| && FrameFlushable(p, file, i) {
      FlushFromErrorFrame(AfterFrame(p, file, i), file, i + 1);
    }
  }

  /** flushFile's BadBuffer and PagePinned errors name the first failing frame. */
  lemma FlushFileErrorFrame(p: Pool, file: FileId)
    requires WellFormed(p)
    ensures var r := FlushFile(p, file);
      (r.result.Err? && r.result.error.BadBuffer? ==>
         var j := r.result.error.frame;
         j < |p.descs| && !p.descs[j].valid && FlushableRange(p, file, 0, j)) &&
      (r.result.Err? && r.result.error.PagePinned? ==>
         var j := r.result.error.frame;
         j < |p.descs| && p.descs[j].valid && Owned(p.descs[j], file) && p.descs[j].pinCnt != 0 &&
         FlushableRange(p, file, 0, j))
  {
    FlushFromErrorFrame(p, file, 0);
    var r := FlushFile(p, file);
    if r.result.Err? && (r.result.error.BadBuffer? || r.result.error.PagePinned?) {
      PassesFromIff(p, file, 0, r.result.error.frame);
    }
  }

  /** A successful flush leaves every descriptor as it was, so the file's
      frames stay valid with their entries gone: flushing the same file again
      writes its first page back once more if it was dirty and then throws
      HashNotFoundException for it. */
  lemma FlushTwiceFails(p: Pool, file: FileId, j: nat)
    requires WellFormed(p) && FlushFile(p, file).result.Ok?
    requires j < |p.descs| && Owned(p.descs[j], file)
    requires forall k :: 0 <= k < j ==> !Owned(p.descs[k], file)
    ensures var q := FlushFile(p, file).pool;
      var r := FlushFile(q, file);
      r.result == Err(HashNotFound(file, p.descs[j].pageNo)) &&
      r.events == (if p.descs[j].dirty then [Write(file, p.descs[j].pageNo, j)] else [])
  {
    var q := FlushFile(p, file).pool;
    var key := (file, p.descs[j].pageNo);
    assert key in OwnedKeys(p.descs, file, 0, |p.descs|);
    assert key !in q.hashTable;
    NothingOwned(q.descs, file, 0, j);
    assert FlushableRange(q, file, 0, j);
    PassesFromIff(q, file, 0, j);
    FlushPrefix(q, file, 0, j);
    assert q.(hashTable := q.hashTable - {}) == q;
  }

  /** A freshly built pool cannot be flushed: frame 0 is invalid. */
  lemma FlushFreshPoolFails(n: nat, file: FileId)
    requires 0 < n
    ensures var r := FlushFile(InitialPool(n), file);
      r.result == Err(BadBuffer(0, false, false, false)) && r.events == [] &&
      r.pool == InitialPool(n)
  {
    FlushStopsAtInvalidFrame(InitialPool(n), file, 0);
    assert InitialPool(n).hashTable - {} == InitialPool(n).hashTable;
  }

  /** flushFile succeeds only on a pool whose frames are all valid. */
  lemma FlushNeedsAllFramesValid(p: Pool, file: FileId)
    requires WellFormed(p) && FlushFile(p, file).result.Ok?
    ensures ValidFrames(p.descs) == |p.descs|
  {
  }

  // ------------------------------------------------------ readPage, unPinPage

  /** Reading a page that is resident again returns the same frame, pins it
      once more and makes no File call. */
  lemma ReadPageAgain(p: Pool, file: FileId, pageNo: PageId)
    requires WellFormed(p) && ReadPage(p, file, pageNo).result.Ok?
    ensures var r1 := ReadPage(p, file, pageNo);
      var f := r1.result.value;
      var r2 := ReadPage(r1.pool, file, pageNo);
      r2.result == Ok(f) && r2.events == [] && r2.pool.hashTable == r1.pool.hashTable &&
      r2.pool.descs[f].pinCnt == r1.pool.descs[f].pinCnt + 1 &&
      forall i :: 0 <= i < |p.descs| && i != f ==> r2.pool.descs[i] == r1.pool.descs[i]
  {
  }

  /** Unpinning the page just read gives the pin back: the pin count returns
      to what it was on a hit and to 0 on a miss, and dirty only grows. */
  lemma ReadThenUnpin(p: Pool, file: FileId, pageNo: PageId, dirty: bool)
    requires WellFormed(p) && ReadPage(p, file, pageNo).result.Ok?
    ensures var r := ReadPage(p, file, pageNo);
      var f := r.result.value;
      var u := UnPinPage(r.pool, file, pageNo, dirty);
      u.result == Ok(()) && u.events == [] &&
      u.pool.descs[f].pinCnt == (if (file, pageNo) in p.hashTable then p.descs[f].pinCnt else 0) &&
      u.pool.descs[f].dirty == (dirty || r.pool.descs[f].dirty)
  {
  }

  /** A page read in on a miss is pinned once: a second unpin throws
      PageNotPinnedException and changes nothing. */
  lemma UnpinTwiceAfterMiss(p: Pool, file: FileId, pageNo: PageId, d1: bool, d2: bool)
    requires WellFormed(p) && (file, pageNo) !in p.hashTable && ReadPage(p, file, pageNo).result.Ok?
    ensures var r := ReadPage(p, file, pageNo);
      var u1 := UnPinPage(r.pool, file, pageNo, d1);
      var u2 := UnPinPage(u1.pool, file, pageNo, d2);
      u2.result == Err(PageNotPinned(file, pageNo, r.result.value)) && u2.pool == u1.pool
  {
  }

  /** With every frame valid and pinned, a page that is not resident can be
      neither read nor allocated: both throw BufferExceededException, and
      allocPage has already allocated its page in the file. */
  lemma FullPoolRejectsNewPages(p: Pool, file: FileId, pageNo: PageId, newPageNo: PageId)
    requires WellFormed(p) && (file, pageNo) !in p.hashTable
    requires forall i :: 0 <= i < |p.descs| ==> p.descs[i].valid && p.descs[i].pinCnt > 0
    ensures ReadPage(p, file, pageNo).result == Err(BufferExceeded)
    ensures ReadPage(p, file, pageNo).events == []
    ensures AllocPage(p, file, newPageNo).result == Err(BufferExceeded)
    ensures AllocPage(p, file, newPageNo).events == [Allocate(file, newPageNo)]
  {
  }

  /** After disposePage the page is not resident, so reading it again is a
      miss that reads it from the file. */
  lemma DisposeThenRead(p: Pool, file: FileId, pageNo: PageId)
    requires WellFormed(p)
    ensures var d := DisposePage(p, file, pageNo);
      var r := ReadPage(d.pool, file, pageNo);
      (file, pageNo) !in d.pool.hashTable &&
      (r.result.Ok? ==>
         |r.events| > 0 && r.events[|r.events| - 1] == Read(file, pageNo) &&
         r.pool.descs[r.result.value].valid && r.pool.descs[r.result.value].pinCnt == 1 &&
         r.pool.descs[r.result.value].file == Some(file) && r.pool.descs[r.result.value].pageNo == pageNo)
  {
  }

  /** allocBuf leaves a clean victim's hash entry in place. When readPage
      loads a page into such a frame, the old key still names the frame, and
      reading the old key returns the frame that now holds the new page. */
  lemma CleanEvictionLeavesStaleEntry(p: Pool, file: FileId, pageNo: PageId, stale: Key)
    requires WellFormed(p) && (file, pageNo) !in p.hashTable
    requires ReadPage(p, file, pageNo).result.Ok?
    requires ReadPage(p, file, pageNo).events == [Read(file, pageNo)]
    requires stale in p.hashTable && p.hashTable[stale] == ReadPage(p, file, pageNo).result.value
    ensures var r := ReadPage(p, file, pageNo);
      var f := r.result.value;
      var again := ReadPage(r.pool, stale.0, stale.1);
      stale in r.pool.hashTable && r.pool.hashTable[stale] == f &&
      again.result == Ok(f) && again.events == [] &&
      again.pool.descs[f].file == Some(file) && again.pool.descs[f].pageNo == pageNo
  {
  }
}
