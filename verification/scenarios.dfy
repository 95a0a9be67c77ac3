/** Concrete runs of the buffer manager from a freshly built pool, followed
    operation by operation.
 */
module Scenarios {
  import opened BufferTypes
  import opened ClockSweep
  import opened PoolOps

  // Descriptors and tables met along the pool-of-three run.
  const Page1 := EmptyDesc(0).Set(1, 1)
  const Page2 := EmptyDesc(1).Set(1, 2)
  const Page3 := EmptyDesc(2).Set(1, 3)
  const Table3: map<Key, FrameId> := map[(1, 1) := 0, (1, 2) := 1, (1, 3) := 2]
  const Full3 := Pool([Page1, Page2, Page3], 2, Table3)
  const Swept3 := [Page1.(refbit := false), Page2.(refbit := false), Page3.(refbit := false)]

  const One3 := Pool([Page1, EmptyDesc(1), EmptyDesc(2)], 0, map[(1, 1) := 0])
  const Two3 := Pool([Page1, Page2, EmptyDesc(2)], 1, map[(1, 1) := 0, (1, 2) := 1])

  /** The first read takes frame 0, the one after the initial hand. */
  lemma FillFirst()
    ensures ReadPage(InitialPool(3), 1, 1) == Step(One3, [Read(1, 1)], Ok(0))
  {
    var free := [EmptyDesc(0), EmptyDesc(1), EmptyDesc(2)];
    assert InitialPool(3).descs == free;
    assert SweepFrom(free, 2, 0) == Sweep(free, 0, Some(0));
  }

  /** The second read takes the next free frame. */
  lemma FillSecond()
    ensures ReadPage(One3, 1, 2) == Step(Two3, [Read(1, 2)], Ok(1))
  {
    assert SweepFrom(One3.descs, 0, 0) == Sweep(One3.descs, 1, Some(1));
  }

  /** The third read takes the last free frame. */
  lemma FillThird()
    ensures ReadPage(Two3, 1, 3) == Step(Full3, [Read(1, 3)], Ok(2))
  {
    assert SweepFrom(Two3.descs, 1, 0) == Sweep(Two3.descs, 2, Some(2));
  }

  /** With all three frames pinned the sweep clears the three reference bits,
      then counts four visits to pinned frames and gives up. */
  lemma ExhaustThree()
    ensures ReadPage(Full3, 1, 4) == Step(Pool(Swept3, 0, Table3), [], Err(BufferExceeded))
  {
    var c1 := Page1.(refbit := false);
    var c2 := Page2.(refbit := false);
    assert SweepFrom(Swept3, 2, 3) == Sweep(Swept3, 0, None);
    assert SweepFrom(Swept3, 1, 2) == SweepFrom(Swept3, 2, 3);
    assert SweepFrom(Swept3, 0, 1) == SweepFrom(Swept3, 1, 2);
    assert SweepFrom(Swept3, 2, 0) == SweepFrom(Swept3, 0, 1);
    assert [Page1, Page2, Page3][0 := c1] == [c1, Page2, Page3];
    assert [c1, Page2, Page3][1 := c2] == [c1, c2, Page3];
    assert [c1, c2, Page3][2 := Page3.(refbit := false)] == Swept3;
    assert SweepFrom([c1, c2, Page3], 1, 0) == SweepFrom(Swept3, 2, 0);
    assert SweepFrom([c1, Page2, Page3], 0, 0) == SweepFrom([c1, c2, Page3], 1, 0);
    assert SweepFrom([Page1, Page2, Page3], 2, 0) == SweepFrom([c1, Page2, Page3], 0, 0);
  }

  /** Unpinning page 3 dirty and reading page 4 reuses frame 2 after writing
      page 3 back; frames 0 and 1 keep their descriptors. */
  lemma ReuseDirtyFrame()
    ensures var u := UnPinPage(Pool(Swept3, 0, Table3), 1, 3, true);
      var e := ReadPage(u.pool, 1, 4);
      u.result == Ok(()) &&
      e.result == Ok(2) && e.events == [Write(1, 3, 2), Read(1, 4)] &&
      e.pool.hashTable == map[(1, 1) := 0, (1, 2) := 1, (1, 4) := 2] &&
      e.pool.descs == [Swept3[0], Swept3[1], BufDesc(Some(1), 4, 2, 1, false, true, true)]
  {
    var dirty3 := Swept3[2].(pinCnt := 0, dirty := true);
    var unpinned := [Swept3[0], Swept3[1], dirty3];
    var u := UnPinPage(Pool(Swept3, 0, Table3), 1, 3, true);
    assert u == Step(Pool(unpinned, 0, Table3), [], Ok(()));
    assert SweepFrom(unpinned, 1, 1) == Sweep(unpinned, 2, Some(2));
    assert SweepFrom(unpinned, 0, 0) == SweepFrom(unpinned, 1, 1);
    assert Table3 - {(1, 3)} == map[(1, 1) := 0, (1, 2) := 1];
  }

  /** A pool of three frames: pages 1, 2 and 3 of file 1 fill it and stay
      pinned, so reading page 4 throws BufferExceededException (after the
      sweep has cleared every reference bit). Once page 3 is unpinned and
      marked dirty, reading page 4 reuses its frame: page 3 is written back,
      its entry removed, page 4 read in, and frames 0 and 1 are untouched. */
  lemma PoolOfThree()
    ensures var a := ReadPage(InitialPool(3), 1, 1);
      var b := ReadPage(a.pool, 1, 2);
      var c := ReadPage(b.pool, 1, 3);
      var d := ReadPage(c.pool, 1, 4);
      var u := UnPinPage(d.pool, 1, 3, true);
      var e := ReadPage(u.pool, 1, 4);
      a.result == Ok(0) && b.result == Ok(1) && c.result == Ok(2) &&
      d.result == Err(BufferExceeded) && d.events == [] &&
      u.result == Ok(()) &&
      e.result == Ok(2) && e.events == [Write(1, 3, 2), Read(1, 4)] &&
      (1, 3) !in e.pool.hashTable && e.pool.hashTable[(1, 4)] == 2 &&
      e.pool.descs[0] == u.pool.descs[0] && e.pool.descs[1] == u.pool.descs[1] &&
      e.pool.descs[2] == BufDesc(Some(1), 4, 2, 1, false, true, true)
  {
    FillFirst();
    FillSecond();
    FillThird();
    ExhaustThree();
    ReuseDirtyFrame();
  }

  // The one-frame run: page 1 of file 1 read in and unpinned, then page 2
  // read into the same frame while page 1's entry stays.
  const Clean1 := EmptyDesc(0).Set(1, 1).(pinCnt := 0)
  const Holds2 := Clean1.(refbit := false).Set(1, 2)
  const Aliased := Pool([Holds2], 0, map[(1, 1) := 0, (1, 2) := 0])

  /** Page 1 is read into the only frame and unpinned clean. */
  lemma ReadAndUnpinOne()
    ensures var r := ReadPage(InitialPool(1), 1, 1);
      var u := UnPinPage(r.pool, 1, 1, false);
      r.result == Ok(0) && r.events == [Read(1, 1)] && u.result == Ok(()) &&
      u.pool == Pool([Clean1], 0, map[(1, 1) := 0])
  {
    assert InitialPool(1).descs == [EmptyDesc(0)];
    assert SweepFrom([EmptyDesc(0)], 0, 0) == Sweep([EmptyDesc(0)], 0, Some(0));
  }

  /** Reading page 2 evicts page 1 with no write and keeps page 1's entry. */
  lemma EvictCleanOne()
    ensures ReadPage(Pool([Clean1], 0, map[(1, 1) := 0]), 1, 2) == Step(Aliased, [Read(1, 2)], Ok(0))
  {
    var swept := Clean1.(refbit := false);
    assert [Clean1][0 := swept] == [swept];
    assert SweepFrom([swept], 0, 0) == Sweep([swept], 0, Some(0));
    assert SweepFrom([Clean1], 0, 0) == SweepFrom([swept], 0, 0);
  }

  /** A pool of one frame: page 1 is read and unpinned clean, then reading
      page 2 evicts it with no write. Because allocBuf keeps a clean victim's
      entry, reading page 1 again is a hit on the frame that now holds page 2:
      no read, the pin count goes to 2, and the table maps both keys to it. */
  lemma CleanEvictionAliasesFrame()
    ensures var r1 := ReadPage(InitialPool(1), 1, 1);
      var u := UnPinPage(r1.pool, 1, 1, false);
      var r2 := ReadPage(u.pool, 1, 2);
      var r3 := ReadPage(r2.pool, 1, 1);
      r1.result == Ok(0) && u.result == Ok(()) &&
      r2.result == Ok(0) && r2.events == [Read(1, 2)] &&
      r3.result == Ok(0) && r3.events == [] &&
      r3.pool.hashTable == map[(1, 1) := 0, (1, 2) := 0] &&
      r3.pool.descs[0].file == Some(1) && r3.pool.descs[0].pageNo == 2 && r3.pool.descs[0].pinCnt == 2
  {
    ReadAndUnpinOne();
    EvictCleanOne();
  }

  /** Continuing the one-frame run: disposing of page 1 through its stale
      entry Clears the frame that holds page 2, pinned as it is, and deletes
      page 1 from the file. Reading page 2 afterwards is a hit that makes no
      File call and returns a frame that is not valid. */
  lemma DisposeStaleKeyClearsFrame()
    ensures var r1 := ReadPage(InitialPool(1), 1, 1);
      var u := UnPinPage(r1.pool, 1, 1, false);
      var r2 := ReadPage(u.pool, 1, 2);
      var d := DisposePage(r2.pool, 1, 1);
      var r3 := ReadPage(d.pool, 1, 2);
      r2.result == Ok(0) && r2.pool.descs[0].pinCnt == 1 &&
      d.events == [Delete(1, 1)] && !d.pool.descs[0].valid &&
      r3.result == Ok(0) && r3.events == [] &&
      !r3.pool.descs[0].valid && r3.pool.descs[0].pinCnt == 1
  {
    ReadAndUnpinOne();
    EvictCleanOne();
  }
}
