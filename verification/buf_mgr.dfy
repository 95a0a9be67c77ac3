/** Class BufMgr of buffer.cpp: the descriptor table is an array updated in
    place, the clock hand and the hash table are fields, and the calls into
    the File layer are recorded in a ghost log. Every method is proved to do
    exactly what the PoolOps function of the same name does to Model().
 */
module BufferManager {
  import opened BufferTypes
  import opened ClockSweep
  import opened PoolOps

  class BufMgr {
    /** Number of frames in the pool. */
    const numBufs: nat
    /** bufDescTable: one descriptor per frame. */
    const bufDescTable: array<BufDesc>
    var clockHand: nat
    /** BufHashTbl: (file, page number) -> frame. */
    var hashTable: map<Key, FrameId>
    /** The File calls made so far (readPage, writePage, allocatePage, deletePage). */
    ghost var ioLog: seq<IoEvent>

    /** The state of the object as a Pool value. */
    ghost function Model(): Pool
      reads this, bufDescTable
    {
      Pool(bufDescTable[..], clockHand, hashTable)
    }

    ghost predicate Valid()
      reads this, bufDescTable
    {
      0 < numBufs < MaxBufs && bufDescTable.Length == numBufs && WellFormed(Model())
    }

    /** BufMgr::BufMgr(bufs). `new BufDesc[bufs]` gives cleared descriptors;
        the loop then numbers them and marks them invalid. */
    constructor (bufs: nat)
      requires 0 < bufs < MaxBufs
      ensures Valid() && fresh(bufDescTable)
      ensures numBufs == bufs && Model() == InitialPool(bufs) && ioLog == []
    {
      var table := new BufDesc[bufs](_ => EmptyDesc(0));
      for i := 0 to bufs
        invariant forall j :: 0 <= j < i ==> table[j] == EmptyDesc(j)
        invariant forall j :: i <= j < bufs ==> table[j] == EmptyDesc(0)
      {
        table[i] := table[i].(frameNo := i, valid := false);
      }
      numBufs := bufs;
      bufDescTable := table;
      hashTable := map[];
      clockHand := bufs - 1;
      ioLog := [];
      new;
      assert bufDescTable[..] == InitialPool(bufs).descs;
    }

    /** BufMgr::advanceClock. */
    method AdvanceClock()
      requires Valid()
      modifies this`clockHand
      ensures Valid() && clockHand == Advance(old(clockHand), numBufs)
    {
      clockHand := (clockHand + 1) % numBufs;
    }

    /** BufMgr::allocBuf: the clock sweep and the eviction of its victim. */
    method AllocBuf() returns (r: Result<FrameId>)
      requires Valid()
      modifies this`clockHand, this`hashTable, this`ioLog, bufDescTable
      ensures Valid()
      ensures var s := PoolOps.AllocBuf(old(Model()));
        Model() == s.pool && ioLog == old(ioLog) + s.events && r == s.result
    {
      var count := 0;
      while count <= numBufs
        invariant Valid() && count <= numBufs + 1
        invariant hashTable == old(hashTable) && ioLog == old(ioLog)
        invariant AllocFrom(Model(), count) == PoolOps.AllocBuf(old(Model()))
        decreases numBufs + 1 - count, RefSet(bufDescTable[..])
      {
        AdvanceClock();
        if bufDescTable[clockHand].valid {
          if bufDescTable[clockHand].refbit {
            ghost var before := bufDescTable[..];
            bufDescTable[clockHand] := bufDescTable[clockHand].(refbit := false);
            assert clockHand in RefSet(before) - RefSet(bufDescTable[..]);
            continue;
          }
          if bufDescTable[clockHand].pinCnt > 0 {
            count := count + 1;
            continue;
          }
          if bufDescTable[clockHand].dirty {
            var d := bufDescTable[clockHand];
            var k := (d.file.value, d.pageNo);
            ioLog := ioLog + [Write(k.0, k.1, clockHand)];
            var removed := Remove(hashTable, k);
            if removed.Err? {
              return Err(removed.error);
            }
            hashTable := removed.value;
            bufDescTable[clockHand] := d.(dirty := false);
            return Ok(clockHand);
          }
          // The source leaves the clean victim's hash entry in place.
          return Ok(clockHand);
        }
        return Ok(clockHand);
      }
      return Err(BufferExceeded);
    }

    /** BufMgr::readPage; the page handle is the frame number. */
    method ReadPage(file: FileId, pageNo: PageId) returns (r: Result<FrameId>)
      requires Valid()
      modifies this`clockHand, this`hashTable, this`ioLog, bufDescTable
      ensures Valid()
      ensures var s := PoolOps.ReadPage(old(Model()), file, pageNo);
        Model() == s.pool && ioLog == old(ioLog) + s.events && r == s.result
    {
      var key := (file, pageNo);
      if key in hashTable {
        var f := hashTable[key];
        bufDescTable[f] := bufDescTable[f].(pinCnt := bufDescTable[f].pinCnt + 1, refbit := true);
        return Ok(f);
      }
      r := AllocBuf();
      if r.Err? {
        return;
      }
      var f := r.value;
      ioLog := ioLog + [Read(file, pageNo)];
      // The key missed above and allocBuf only removes keys, so this insert
      // cannot throw HashAlreadyPresentException.
      hashTable := hashTable[key := f];
      bufDescTable[f] := bufDescTable[f].Set(file, pageNo);
    }

    /** BufMgr::unPinPage. */
    method UnPinPage(file: FileId, pageNo: PageId, dirty: bool) returns (r: Result<()>)
      requires Valid()
      modifies bufDescTable
      ensures Valid()
      ensures var s := PoolOps.UnPinPage(old(Model()), file, pageNo, dirty);
        Model() == s.pool && ioLog == old(ioLog) + s.events && r == s.result
    {
      var key := (file, pageNo);
      if key !in hashTable {
        return Ok(());
      }
      var f := hashTable[key];
      if bufDescTable[f].pinCnt == 0 {
        return Err(PageNotPinned(file, pageNo, f));
      }
      bufDescTable[f] := bufDescTable[f].(pinCnt := bufDescTable[f].pinCnt - 1);
      if dirty {
        bufDescTable[f] := bufDescTable[f].(dirty := true);
      }
      return Ok(());
    }

    /** BufMgr::allocPage. `newPageNo` is the number of the page that
        File::allocatePage creates; the result is that number and the frame. */
    method AllocPage(file: FileId, newPageNo: PageId) returns (r: Result<(PageId, FrameId)>)
      requires Valid()
      modifies this`clockHand, this`hashTable, this`ioLog, bufDescTable
      ensures Valid()
      ensures var s := PoolOps.AllocPage(old(Model()), file, newPageNo);
        Model() == s.pool && ioLog == old(ioLog) + s.events && r == s.result
    {
      ioLog := ioLog + [Allocate(file, newPageNo)];
      var a := AllocBuf();
      if a.Err? {
        return Err(a.error);
      }
      var f := a.value;
      var inserted := Insert(hashTable, (file, newPageNo), f);
      if inserted.Err? {
        return Err(inserted.error);
      }
      hashTable := inserted.value;
      bufDescTable[f] := bufDescTable[f].Set(file, newPageNo);
      return Ok((bufDescTable[f].pageNo, f));
    }

    /** BufMgr::flushFile. Each descriptor is read into the local `frame`;
        what the loop does to that copy never reaches bufDescTable, which is
        why the method may not modify it. */
    method FlushFile(file: FileId) returns (r: Result<()>)
      requires Valid()
      modifies this`hashTable, this`ioLog
      ensures Valid()
      ensures var s := PoolOps.FlushFile(old(Model()), file);
        Model() == s.pool && ioLog == old(ioLog) + s.events && r == s.result
    {
      for i := 0 to numBufs
        invariant Valid()
        invariant var t := FlushFrom(Model(), file, i);
          var s := FlushFrom(old(Model()), file, 0);
          t.pool == s.pool && t.result == s.result && old(ioLog) + s.events == ioLog + t.events
      {
        ghost var m := Model();
        var frame := bufDescTable[i];
        assert frame == m.descs[i];
        if !frame.valid {
          return Err(BadBuffer(frame.frameNo, frame.dirty, frame.valid, frame.refbit));
        }
        if frame.file == Some(file) {
          if frame.pinCnt != 0 {
            return Err(PagePinned(file, frame.pageNo, frame.frameNo));
          }
          if frame.dirty {
            ioLog := ioLog + [Write(file, frame.pageNo, i)];
            frame := frame.(dirty := false);
          }
          var removed := Remove(hashTable, (file, frame.pageNo));
          if removed.Err? {
            return Err(removed.error);
          }
          hashTable := removed.value;
          frame := frame.Clear();
        }
      }
      return Ok(());
    }

    /** BufMgr::disposePage: nothing escapes; a page the table does not know
        is neither cleared nor deleted. */
    method DisposePage(file: FileId, pageNo: PageId)
      requires Valid()
      modifies this`hashTable, this`ioLog, bufDescTable
      ensures Valid()
      ensures var s := PoolOps.DisposePage(old(Model()), file, pageNo);
        Model() == s.pool && ioLog == old(ioLog) + s.events
    {
      var key := (file, pageNo);
      if key !in hashTable {
        return;
      }
      var f := hashTable[key];
      // The lookup succeeded, so remove finds the key.
      hashTable := hashTable - {key};
      bufDescTable[f] := bufDescTable[f].Clear();
      ioLog := ioLog + [Delete(file, pageNo)];
    }

    /** The valid-frame total of printSelf (the printing itself is not modelled). */
    method CountValidFrames() returns (n: nat)
      requires Valid()
      ensures n == ValidFrames(bufDescTable[..])
    {
      n := 0;
      for i := 0 to numBufs
        invariant n == ValidFrames(bufDescTable[..i])
      {
        assert bufDescTable[..i + 1][..i] == bufDescTable[..i];
        if bufDescTable[i].valid {
          n := n + 1;
        }
      }
      assert bufDescTable[..numBufs] == bufDescTable[..];
    }
  }
}
