/** The operations of BufMgr as functions from one Pool value to the next.
    Each is what the corresponding method of class BufMgr (module
    BufferManager) is proved to do to its array, clock hand and hash table.
 */
module PoolOps {
  import opened BufferTypes
  import opened ClockSweep

  /** A frame allocBuf may hand out: free, or holding an unpinned,
      unreferenced page whose contents are on disk. */
  predicate Reusable(d: BufDesc) {
    !d.valid || (d.pinCnt == 0 && !d.refbit && !d.dirty)
  }

  /** The last part of allocBuf, after the sweep has stopped: a valid dirty
      victim is written back and its hash entry removed; a clean or free one
      is returned as it is (its hash entry, if any, stays). */
  function Evict(s: Sweep, h: map<Key, FrameId>): (r: Step<FrameId>)
    requires s.hand < |s.descs|
    requires s.victim.Some? ==> s.victim.value < |s.descs|
    requires s.victim.Some? && s.descs[s.victim.value].valid ==> s.descs[s.victim.value].file.Some?
    ensures r.pool.clockHand == s.hand && |r.pool.descs| == |s.descs|
    ensures r.result == Err(BufferExceeded) <==> s.victim == None
    ensures r.result.Ok? ==> s.victim == Some(r.result.value)
  {
    match s.victim
    case None => Step(Pool(s.descs, s.hand, h), [], Err(BufferExceeded))
    case Some(f) =>
      var d := s.descs[f];
      if d.valid && d.dirty then
        var k := (d.file.value, d.pageNo);
        var writes := [Write(k.0, k.1, f)];
        match Remove(h, k)
        case Err(e) => Step(Pool(s.descs, s.hand, h), writes, Err(e))
        case Ok(h') => Step(Pool(s.descs[f := d.(dirty := false)], s.hand, h'), writes, Ok(f))
      else
        Step(Pool(s.descs, s.hand, h), [], Ok(f))
  }

  /** allocBuf continued from a pool reached inside its loop with counter `count`. */
  function AllocFrom(p: Pool, count: nat): Step<FrameId>
    requires WellFormed(p) && count <= |p.descs| + 1
  {
    SweepOutcome(p.descs, p.clockHand, count);
    Evict(SweepFrom(p.descs, p.clockHand, count), p.hashTable)
  }

  /** A dirty victim: one write of exactly that frame's page, then either the
      removal of its hash entry and a clean descriptor, or HashNotFound when
      its entry is already gone (the descriptor then stays dirty). */
  predicate DirtyEviction(p: Pool, r: Step<FrameId>)
    requires WellFormed(p) && WellFormed(r.pool) && |r.pool.descs| == |p.descs|
  {
    var f := r.pool.clockHand;
    var d := r.pool.descs[f];
    d.valid && d.file.Some? && p.descs[f].dirty &&
    var k := (d.file.value, d.pageNo);
    r.events == [Write(k.0, k.1, f)] &&
    match r.result
    case Ok(g) =>
      g == f && !d.dirty && k in p.hashTable && r.pool.hashTable == p.hashTable - {k} &&
      OnlyRefbitsCleared(p.descs, r.pool.descs[f := d.(dirty := true)])
    case Err(e) =>
      e == HashNotFound(k.0, k.1) && k !in p.hashTable && r.pool.hashTable == p.hashTable &&
      OnlyRefbitsCleared(p.descs, r.pool.descs)
  }

  /** What the eviction step makes of any sweep outcome that SweepOutcome allows. */
  lemma EvictOutcome(p: Pool, s: Sweep)
    requires WellFormed(p) && s.hand < |p.descs| && OnlyRefbitsCleared(p.descs, s.descs)
    requires s.victim.Some? ==> s.victim.value == s.hand && Evictable(s.descs[s.hand])
    ensures var r := Evict(s, p.hashTable);
      WellFormed(r.pool) && |r.pool.descs| == |p.descs| && r.pool.clockHand == s.hand &&
      r.pool.hashTable.Keys <= p.hashTable.Keys &&
      (r.result.Ok? ==> r.result.value == s.hand && Reusable(r.pool.descs[s.hand])) &&
      (r.result == Err(BufferExceeded) <==> s.victim == None) &&
      (r.result.Err? ==> r.result.error == BufferExceeded || r.result.error.HashNotFound?) &&
      (r.result == Err(BufferExceeded) ==> r.events == []) &&
      (r.events == [] ==> r.pool.hashTable == p.hashTable && OnlyRefbitsCleared(p.descs, r.pool.descs)) &&
      (r.events != [] ==> DirtyEviction(p, r))
  {
    var r := Evict(s, p.hashTable);
    assert forall i :: 0 <= i < |p.descs| ==>
      s.descs[i].valid == p.descs[i].valid && s.descs[i].file == p.descs[i].file &&
      s.descs[i].frameNo == p.descs[i].frameNo && s.descs[i].dirty == p.descs[i].dirty;
    if s.victim.Some? {
      var f := s.hand;
      var d := s.descs[f];
      if d.valid && d.dirty {
        var k := (d.file.value, d.pageNo);
        if k in p.hashTable {
          assert r.pool.descs[f := r.pool.descs[f].(dirty := true)] == s.descs;
        }
      }
    }
  }

  /** allocBuf when the first pass finds frame i, the first evictable frame
      after the hand: the hand stops at i and i is returned unless its entry
      is missing; frames passed on the way lose only their reference bit,
      frames after i are untouched, and i itself only loses its dirty bit
      when it is written back. */
  predicate TakesFirstEvictable(p: Pool, r: Step<FrameId>, i: nat)
    requires WellFormed(p) && i < |p.descs| && |r.pool.descs| == |p.descs|
  {
    var n := |p.descs|;
    r.pool.clockHand == i && (r.result.Ok? ==> r.result.value == i) &&
    r.pool.descs[i] == (if p.descs[i].valid && p.descs[i].dirty && r.result.Ok? then p.descs[i].(dirty := false) else p.descs[i]) &&
    forall j :: 0 <= j < n && j != i ==>
      r.pool.descs[j] == if Dist(p.clockHand, j, n) < Dist(p.clockHand, i, n) then p.descs[j].(refbit := false) else p.descs[j]
  }

  /** The allocation takes the first evictable frame after the hand. */
  lemma AllocTakesFirstEvictable(p: Pool, i: nat)
    requires WellFormed(p) && FirstEvictable(p.descs, p.clockHand, i)
    ensures |AllocFrom(p, 0).pool.descs| == |p.descs| && TakesFirstEvictable(p, AllocFrom(p, 0), i)
  {
    SweepFirstPass(p.descs, p.clockHand, 0, i);
  }

  /** allocBuf when the sweep over a warm table takes frame u on its second
      pass: the hand stops at u and u is returned unless its entry is
      missing; every frame has lost its reference bit, and u also its dirty
      bit when it is written back. */
  predicate TakesAfterSecondPass(p: Pool, r: Step<FrameId>, u: nat)
    requires WellFormed(p) && u < |p.descs| && |r.pool.descs| == |p.descs|
  {
    var d := p.descs[u].(refbit := false);
    r.pool.clockHand == u && (r.result.Ok? ==> r.result.value == u) &&
    r.pool.descs[u] == (if d.valid && d.dirty && r.result.Ok? then d.(dirty := false) else d) &&
    forall j :: 0 <= j < |p.descs| && j != u ==> r.pool.descs[j] == p.descs[j].(refbit := false)
  }

  /** On a warm table allocBuf gives up exactly when the pinned frames the
      two passes count exceed numBufs before the hand reaches u, the first
      unpinned frame after it; otherwise it takes u. */
  lemma AllocAfterSecondPass(p: Pool, u: nat)
    requires WellFormed(p) && Warm(p.descs) && FirstEvictable(RefbitsCleared(p.descs), p.clockHand, u)
    ensures var r := AllocFrom(p, 0);
      |r.pool.descs| == |p.descs| &&
      (r.result == Err(BufferExceeded) <==>
         PinnedAhead(p.descs, p.clockHand, |p.descs|) + Dist(p.clockHand, u, |p.descs|) > |p.descs| + 1) &&
      (r.result != Err(BufferExceeded) ==> TakesAfterSecondPass(p, r, u))
  {
    SweepSecondPass(p.descs, p.clockHand);
    SweepOutcome(p.descs, p.clockHand, 0);
    EvictOutcome(p, SweepFrom(p.descs, p.clockHand, 0));
  }

  /** BufMgr::allocBuf. */
  function AllocBuf(p: Pool): (r: Step<FrameId>)
    requires WellFormed(p)
    ensures WellFormed(r.pool) && |r.pool.descs| == |p.descs|
    ensures r.pool.hashTable.Keys <= p.hashTable.Keys
    ensures r.result.Ok? ==> r.result.value == r.pool.clockHand && Reusable(r.pool.descs[r.result.value])
    ensures r.result.Err? ==> r.result.error == BufferExceeded || r.result.error.HashNotFound?
    ensures r.result == Err(BufferExceeded) ==> r.events == []
    ensures (forall i :: 0 <= i < |p.descs| ==> p.descs[i].valid && p.descs[i].pinCnt > 0) ==>
              r.result == Err(BufferExceeded)
    ensures (exists i :: 0 <= i < |p.descs| && Evictable(p.descs[i])) ==> r.result != Err(BufferExceeded)
    ensures r.events == [] ==> r.pool.hashTable == p.hashTable && OnlyRefbitsCleared(p.descs, r.pool.descs)
    ensures r.events != [] ==> DirtyEviction(p, r)
    ensures forall i :: FirstEvictable(p.descs, p.clockHand, i) ==> TakesFirstEvictable(p, r, i)
  {
    SweepOutcome(p.descs, p.clockHand, 0);
    SweepFromStart(p.descs, p.clockHand);
    EvictOutcome(p, SweepFrom(p.descs, p.clockHand, 0));
    forall i | FirstEvictable(p.descs, p.clockHand, i)
      ensures TakesFirstEvictable(p, AllocFrom(p, 0), i)
    {
      AllocTakesFirstEvictable(p, i);
    }
    AllocFrom(p, 0)
  }

  /** allocBuf on a pool in which the first pass finds nothing. With no frame
      pinned it always finds a frame. On a warm table it gives up exactly
      when the pinned frames counted on both passes exceed numBufs before
      the hand comes back round to u, the first unpinned frame after it;
      otherwise it takes u, and every reference bit ends cleared. */
  lemma AllocBufSecondPass(p: Pool)
    requires WellFormed(p)
    ensures (forall i :: 0 <= i < |p.descs| ==> p.descs[i].pinCnt == 0) ==> AllocBuf(p).result != Err(BufferExceeded)
    ensures Warm(p.descs) ==> forall u :: FirstEvictable(RefbitsCleared(p.descs), p.clockHand, u) ==>
              var r := AllocBuf(p);
              (r.result == Err(BufferExceeded) <==>
                 PinnedAhead(p.descs, p.clockHand, |p.descs|) + Dist(p.clockHand, u, |p.descs|) > |p.descs| + 1) &&
              (r.result != Err(BufferExceeded) ==> TakesAfterSecondPass(p, r, u))
  {
    SweepFromStart(p.descs, p.clockHand);
    SweepOutcome(p.descs, p.clockHand, 0);
    EvictOutcome(p, SweepFrom(p.descs, p.clockHand, 0));
    forall u | Warm(p.descs) && FirstEvictable(RefbitsCleared(p.descs), p.clockHand, u)
      ensures var r := AllocBuf(p);
        (r.result == Err(BufferExceeded) <==>
           PinnedAhead(p.descs, p.clockHand, |p.descs|) + Dist(p.clockHand, u, |p.descs|) > |p.descs| + 1) &&
        (r.result != Err(BufferExceeded) ==> TakesAfterSecondPass(p, r, u))
    {
      AllocAfterSecondPass(p, u);
    }
  }

  /** BufMgr::readPage. A hit pins the frame the table names again; a miss
      takes a frame from allocBuf, reads the page into it, enters it in the
      table and sets its descriptor. */
  function ReadPage(p: Pool, file: FileId, pageNo: PageId): (r: Step<FrameId>)
    requires WellFormed(p)
    ensures WellFormed(r.pool) && |r.pool.descs| == |p.descs|
    ensures r.result.Ok? ==>
              var f := r.result.value;
              (file, pageNo) in r.pool.hashTable && r.pool.hashTable[(file, pageNo)] == f &&
              r.pool.descs[f].pinCnt >= 1 && r.pool.descs[f].refbit
    ensures r.result.Err? ==> r.result.error == BufferExceeded || r.result.error.HashNotFound?
    ensures (file, pageNo) in p.hashTable ==>
              var f := p.hashTable[(file, pageNo)];
              r.result == Ok(f) && r.events == [] &&
              r.pool.hashTable == p.hashTable && r.pool.clockHand == p.clockHand &&
              r.pool.descs == p.descs[f := p.descs[f].(pinCnt := p.descs[f].pinCnt + 1, refbit := true)]
    ensures (file, pageNo) !in p.hashTable ==>
              var a := AllocBuf(p);
              (a.result.Err? ==> r == a) &&
              (a.result.Ok? ==>
                 var f := a.result.value;
                 r.result == Ok(f) && r.events == a.events + [Read(file, pageNo)] &&
                 r.pool.clockHand == a.pool.clockHand &&
                 r.pool.hashTable == a.pool.hashTable[(file, pageNo) := f] &&
                 r.pool.descs == a.pool.descs[f := a.pool.descs[f].Set(file, pageNo)])
  {
    var key := (file, pageNo);
    if key in p.hashTable then
      var f := p.hashTable[key];
      var d := p.descs[f];
      Step(p.(descs := p.descs[f := d.(pinCnt := d.pinCnt + 1, refbit := true)]), [], Ok(f))
    else
      var a := AllocBuf(p);
      match a.result
      case Err(_) => a
      case Ok(f) =>
        var events := a.events + [Read(file, pageNo)];
        match Insert(a.pool.hashTable, key, f)
        case Err(e) => Step(a.pool, events, Err(e))
        case Ok(h) => Step(Pool(a.pool.descs[f := a.pool.descs[f].Set(file, pageNo)], a.pool.clockHand, h), events, Ok(f))
  }

  /** BufMgr::unPinPage. */
  function UnPinPage(p: Pool, file: FileId, pageNo: PageId, dirty: bool): (r: Step<()>)
    requires WellFormed(p)
    ensures WellFormed(r.pool) && |r.pool.descs| == |p.descs|
    ensures r.events == [] && r.pool.hashTable == p.hashTable && r.pool.clockHand == p.clockHand
    ensures (file, pageNo) !in p.hashTable ==> r == Step(p, [], Ok(()))
    ensures (file, pageNo) in p.hashTable ==>
              var f := p.hashTable[(file, pageNo)];
              (r.result.Err? <==> p.descs[f].pinCnt == 0) &&
              (r.result.Err? ==> r.result.error == PageNotPinned(file, pageNo, f) && r.pool == p) &&
              (r.result.Ok? ==>
                 r.pool.descs[f].pinCnt + 1 == p.descs[f].pinCnt &&
                 r.pool.descs[f].dirty == (p.descs[f].dirty || dirty) &&
                 r.pool.descs == p.descs[f := r.pool.descs[f]] &&
                 r.pool.descs[f] == p.descs[f].(pinCnt := r.pool.descs[f].pinCnt, dirty := r.pool.descs[f].dirty))
  {
    var key := (file, pageNo);
    if key !in p.hashTable then Step(p, [], Ok(()))
    else
      var f := p.hashTable[key];
      var d := p.descs[f];
      if d.pinCnt == 0 then Step(p, [], Err(PageNotPinned(file, pageNo, f)))
      else
        var d' := d.(pinCnt := d.pinCnt - 1);
        var d'' := if dirty then d'.(dirty := true) else d';
        Step(p.(descs := p.descs[f := d'']), [], Ok(()))
  }

  /** BufMgr::allocPage. The File layer allocates page `newPageNo` first; then
      a frame is taken from allocBuf, entered in the table under the new page
      and set. The result is the page number and the frame. */
  function AllocPage(p: Pool, file: FileId, newPageNo: PageId): (r: Step<(PageId, FrameId)>)
    requires WellFormed(p)
    ensures WellFormed(r.pool) && |r.pool.descs| == |p.descs|
    ensures var a := AllocBuf(p);
            r.events == [Allocate(file, newPageNo)] + a.events &&
            r.pool.clockHand == a.pool.clockHand &&
            (a.result.Err? ==> r.pool == a.pool && r.result == Err(a.result.error)) &&
            (a.result.Ok? ==>
               var f := a.result.value;
               var key := (file, newPageNo);
               (key in a.pool.hashTable ==> r.pool == a.pool && r.result == Err(HashAlreadyPresent(file, newPageNo, f))) &&
               (key !in a.pool.hashTable ==>
                  r.result == Ok((newPageNo, f)) &&
                  r.pool.hashTable == a.pool.hashTable[key := f] &&
                  r.pool.descs == a.pool.descs[f := a.pool.descs[f].Set(file, newPageNo)]))
  {
    var a := AllocBuf(p);
    var events := [Allocate(file, newPageNo)] + a.events;
    match a.result
    case Err(e) => Step(a.pool, events, Err(e))
    case Ok(f) =>
      match Insert(a.pool.hashTable, (file, newPageNo), f)
      case Err(e) => Step(a.pool, events, Err(e))
      case Ok(h) =>
        Step(Pool(a.pool.descs[f := a.pool.descs[f].Set(file, newPageNo)], a.pool.clockHand, h), events, Ok((newPageNo, f)))
  }

  predicate Owned(d: BufDesc, file: FileId) {
    d.file == Some(file)
  }

  /** flushFile gets past frames lo..hi-1: each is valid, and each one the file
      owns is unpinned and still has its hash entry (which an earlier frame of
      the file with the same page number would already have removed). */
  predicate FlushableRange(p: Pool, file: FileId, lo: nat, hi: nat)
    requires lo <= hi <= |p.descs|
  {
    forall k :: lo <= k < hi ==>
      p.descs[k].valid &&
      (Owned(p.descs[k], file) ==>
         p.descs[k].pinCnt == 0 && (file, p.descs[k].pageNo) in p.hashTable &&
         forall j :: lo <= j < k && Owned(p.descs[j], file) ==> p.descs[j].pageNo != p.descs[k].pageNo)
  }

  /** The hash keys of the frames lo..hi-1 that `file` owns. */
  function OwnedKeys(descs: seq<BufDesc>, file: FileId, lo: nat, hi: nat): set<Key>
    requires lo <= hi <= |descs|
  {
    set k | lo <= k < hi && Owned(descs[k], file) :: (file, descs[k].pageNo)
  }

  /** The write-backs of the dirty frames lo..hi-1 that `file` owns, in frame order. */
  function DirtyWrites(descs: seq<BufDesc>, file: FileId, lo: nat, hi: nat): seq<IoEvent>
    requires lo <= hi <= |descs|
    decreases hi - lo
  {
    if lo == hi then []
    else
      (if Owned(descs[lo], file) && descs[lo].dirty then [Write(file, descs[lo].pageNo, lo)] else []) +
      DirtyWrites(descs, file, lo + 1, hi)
  }

  /** The pool flushFile moves on with after frame i has passed its checks. */
  function AfterFrame(p: Pool, file: FileId, i: nat): Pool
    requires i < |p.descs|
  {
    if Owned(p.descs[i], file) then p.(hashTable := p.hashTable - {(file, p.descs[i].pageNo)}) else p
  }

  /** Frame i alone passes flushFile's checks. */
  predicate FrameFlushable(p: Pool, file: FileId, i: nat)
    requires i < |p.descs|
  {
    p.descs[i].valid &&
    (Owned(p.descs[i], file) ==> p.descs[i].pinCnt == 0 && (file, p.descs[i].pageNo) in p.hashTable)
  }

  /** FlushableRange unrolled by one frame. */
  lemma FlushableStep(p: Pool, file: FileId, i: nat, hi: nat)
    requires i < hi <= |p.descs|
    ensures FlushableRange(p, file, i, hi) <==>
              FrameFlushable(p, file, i) && FlushableRange(AfterFrame(p, file, i), file, i + 1, hi)
  {
    var q := AfterFrame(p, file, i);
    if FlushableRange(p, file, i, hi) {
      forall k | i + 1 <= k < hi && Owned(q.descs[k], file)
        ensures (file, q.descs[k].pageNo) in q.hashTable
      {
        if Owned(p.descs[i], file) {
          assert p.descs[i].pageNo != p.descs[k].pageNo;
        }
      }
    }
    if FrameFlushable(p, file, i) && FlushableRange(q, file, i + 1, hi) {
      forall k | i <= k < hi
        ensures p.descs[k].valid
        ensures Owned(p.descs[k], file) ==>
                  p.descs[k].pinCnt == 0 && (file, p.descs[k].pageNo) in p.hashTable &&
                  forall j :: i <= j < k && Owned(p.descs[j], file) ==> p.descs[j].pageNo != p.descs[k].pageNo
      {
        if k > i && Owned(p.descs[k], file) {
          assert (file, p.descs[k].pageNo) in q.hashTable;
        }
      }
    }
  }

  /** The loop's own reading of "frames lo..hi-1 pass the checks": frame by
      frame, each one judged on the pool that the frames before it left. */
  predicate PassesFrom(p: Pool, file: FileId, lo: nat, hi: nat)
    requires lo <= hi <= |p.descs|
    decreases hi - lo
  {
    lo == hi || (FrameFlushable(p, file, lo) && PassesFrom(AfterFrame(p, file, lo), file, lo + 1, hi))
  }

  /** The frame-by-frame reading and the whole-range condition agree. */
  lemma {:induction false} PassesFromIff(p: Pool, file: FileId, lo: nat, hi: nat)
    requires lo <= hi <= |p.descs|
    ensures PassesFrom(p, file, lo, hi) <==> FlushableRange(p, file, lo, hi)
    decreases hi - lo
  {
    if lo < hi {
      FlushableStep(p, file, lo, hi);
      PassesFromIff(AfterFrame(p, file, lo), file, lo + 1, hi);
    }
  }

  /** OwnedKeys unrolled by one frame. */
  lemma OwnedKeysStep(descs: seq<BufDesc>, file: FileId, i: nat, hi: nat)
    requires i < hi <= |descs|
    ensures OwnedKeys(descs, file, i, hi) ==
              (if Owned(descs[i], file) then {(file, descs[i].pageNo)} else {}) + OwnedKeys(descs, file, i + 1, hi)
  {
  }

  /** The `for` loop of flushFile from frame i on. It reads each descriptor
      into a local copy; the copy's `dirty = false` and `Clear()` never reach
      the table, so only the hash table and the File layer see an effect. */
  function FlushFrom(p: Pool, file: FileId, i: nat): (r: Step<()>)
    requires WellFormed(p) && i <= |p.descs|
    ensures r.pool.descs == p.descs && r.pool.clockHand == p.clockHand
    ensures r.pool.hashTable.Keys <= p.hashTable.Keys && WellFormed(r.pool)
    ensures r.result.Err? ==> r.result.error.BadBuffer? || r.result.error.PagePinned? || r.result.error.HashNotFound?
    decreases |p.descs| - i
  {
    if i == |p.descs| then Step(p, [], Ok(()))
    else
      var frame := p.descs[i];
      if !frame.valid then
        Step(p, [], Err(BadBuffer(frame.frameNo, frame.dirty, frame.valid, frame.refbit)))
      else if frame.file == Some(file) then
        if frame.pinCnt != 0 then Step(p, [], Err(PagePinned(file, frame.pageNo, frame.frameNo)))
        else
          var writes := if frame.dirty then [Write(file, frame.pageNo, i)] else [];
          match Remove(p.hashTable, (file, frame.pageNo))
          case Err(e) => Step(p, writes, Err(e))
          case Ok(h) =>
            var rest := FlushFrom(p.(hashTable := h), file, i + 1);
            Step(rest.pool, writes + rest.events, rest.result)
      else
        FlushFrom(p, file, i + 1)
  }

  /** A step preceded by some File calls. */
  function Prepend(w: seq<IoEvent>, s: Step<()>): Step<()> {
    Step(s.pool, w + s.events, s.result)
  }

  /** File calls prepended in two goes are prepended in one. */
  lemma PrependTwice(w1: seq<IoEvent>, w2: seq<IoEvent>, s: Step<()>)
    ensures Prepend(w1, Prepend(w2, s)) == Prepend(w1 + w2, s)
  {
    assert w1 + (w2 + s.events) == (w1 + w2) + s.events;
  }

  /** One iteration of the loop on a frame that passes the checks. */
  lemma FlushOneFrame(p: Pool, file: FileId, i: nat)
    requires WellFormed(p) && i < |p.descs| && FrameFlushable(p, file, i)
    ensures FlushFrom(p, file, i) ==
            Prepend(DirtyWrites(p.descs, file, i, i + 1), FlushFrom(AfterFrame(p, file, i), file, i + 1))
  {
    assert DirtyWrites(p.descs, file, i + 1, i + 1) == [];
  }

  /** The pool without the hash entries of the file's frames lo..hi-1. */
  function KeysRemoved(p: Pool, file: FileId, lo: nat, hi: nat): (q: Pool)
    requires WellFormed(p) && lo <= hi <= |p.descs|
    ensures WellFormed(q) && q.descs == p.descs
  {
    p.(hashTable := p.hashTable - OwnedKeys(p.descs, file, lo, hi))
  }

  /** Removing frame i's key and then the keys of frames i+1..j-1 removes
      the keys of frames i..j-1. */
  lemma AfterFrameKeys(p: Pool, file: FileId, i: nat, j: nat)
    requires WellFormed(p) && i < j <= |p.descs|
    ensures KeysRemoved(AfterFrame(p, file, i), file, i + 1, j) == KeysRemoved(p, file, i, j)
  {
    OwnedKeysStep(p.descs, file, i, j);
  }

  /** DirtyWrites splits at any frame between its bounds. */
  lemma {:induction false} DirtyWritesSplit(descs: seq<BufDesc>, file: FileId, lo: nat, mid: nat, hi: nat)
    requires lo <= mid <= hi <= |descs|
    ensures DirtyWrites(descs, file, lo, hi) == DirtyWrites(descs, file, lo, mid) + DirtyWrites(descs, file, mid, hi)
    decreases mid - lo
  {
    if lo < mid {
      DirtyWritesSplit(descs, file, lo + 1, mid, hi);
    }
  }

  /** Running the loop over flushable frames i..j-1 is the same as removing
      their keys, writing back their dirty pages and going on from frame j. */
  lemma {:induction false} FlushPrefix(p: Pool, file: FileId, i: nat, j: nat)
    requires WellFormed(p) && i <= j <= |p.descs| && PassesFrom(p, file, i, j)
    ensures FlushFrom(p, file, i) == Prepend(DirtyWrites(p.descs, file, i, j), FlushFrom(KeysRemoved(p, file, i, j), file, j))
    decreases j - i
  {
    if i == j {
      assert KeysRemoved(p, file, i, j) == p;
    } else {
      var a := AfterFrame(p, file, i);
      var q := FlushFrom(KeysRemoved(p, file, i, j), file, j);
      FlushOneFrame(p, file, i);
      FlushPrefix(a, file, i + 1, j);
      AfterFrameKeys(p, file, i, j);
      DirtyWritesSplit(p.descs, file, i, i + 1, j);
      PrependTwice(DirtyWrites(p.descs, file, i, i + 1), DirtyWrites(p.descs, file, i + 1, j), q);
    }
  }

  /** The loop from frame i on succeeds exactly when frames i.. pass its checks. */
  lemma {:induction false} FlushFromSucceeds(p: Pool, file: FileId, i: nat)
    requires WellFormed(p) && i <= |p.descs|
    ensures FlushFrom(p, file, i).result.Ok? <==> PassesFrom(p, file, i, |p.descs|)
    decreases |p.descs| - i
  {
    if i < |p.descs| && FrameFlushable(p, file, i) {
      FlushOneFrame(p, file, i);
      FlushFromSucceeds(AfterFrame(p, file, i), file, i + 1);
    }
  }

  /** The loop from frame i on succeeds exactly when frames i.. pass its
      checks; it then has removed the hash entries of the file's frames and
      written back its dirty ones, in frame order. */
  lemma FlushFromOutcome(p: Pool, file: FileId, i: nat)
    requires WellFormed(p) && i <= |p.descs|
    ensures var r := FlushFrom(p, file, i);
      (r.result.Ok? <==> PassesFrom(p, file, i, |p.descs|)) &&
      (r.result.Ok? ==>
         r.pool.hashTable == p.hashTable - OwnedKeys(p.descs, file, i, |p.descs|) &&
         r.events == DirtyWrites(p.descs, file, i, |p.descs|))
  {
    FlushFromSucceeds(p, file, i);
    if PassesFrom(p, file, i, |p.descs|) {
      FlushPrefix(p, file, i, |p.descs|);
      assert DirtyWrites(p.descs, file, i, |p.descs|) + [] == DirtyWrites(p.descs, file, i, |p.descs|);
    }
  }

  /** BufMgr::flushFile. */
  function FlushFile(p: Pool, file: FileId): (r: Step<()>)
    requires WellFormed(p)
    ensures r.pool.descs == p.descs && r.pool.clockHand == p.clockHand && WellFormed(r.pool)
    ensures r.result.Ok? <==> FlushableRange(p, file, 0, |p.descs|)
    ensures r.result.Err? ==> r.result.error.BadBuffer? || r.result.error.PagePinned? || r.result.error.HashNotFound?
    ensures r.result.Ok? ==>
              (forall i :: 0 <= i < |p.descs| && Owned(p.descs[i], file) ==>
                 (file, p.descs[i].pageNo) !in r.pool.hashTable) &&
              r.pool.hashTable == p.hashTable - OwnedKeys(p.descs, file, 0, |p.descs|) &&
              r.events == DirtyWrites(p.descs, file, 0, |p.descs|)
  {
    var r := FlushFrom(p, file, 0);
    FlushFromOutcome(p, file, 0);
    PassesFromIff(p, file, 0, |p.descs|);
    assert r.result.Ok? ==> forall i :: 0 <= i < |p.descs| && Owned(p.descs[i], file) ==>
      (file, p.descs[i].pageNo) in OwnedKeys(p.descs, file, 0, |p.descs|);
    r
  }

  /** BufMgr::disposePage. Never fails: a page the table does not know is left
      alone, and File::deletePage is only called for one it knows. */
  function DisposePage(p: Pool, file: FileId, pageNo: PageId): (r: Step<()>)
    requires WellFormed(p)
    ensures WellFormed(r.pool) && |r.pool.descs| == |p.descs| && r.pool.clockHand == p.clockHand
    ensures r.result == Ok(())
    ensures (file, pageNo) !in r.pool.hashTable
    ensures (file, pageNo) !in p.hashTable ==> r.pool == p && r.events == []
    ensures (file, pageNo) in p.hashTable ==>
              var f := p.hashTable[(file, pageNo)];
              r.events == [Delete(file, pageNo)] &&
              r.pool.hashTable == p.hashTable - {(file, pageNo)} &&
              r.pool.descs == p.descs[f := p.descs[f].Clear()]
  {
    var key := (file, pageNo);
    if key !in p.hashTable then Step(p, [], Ok(()))
    else
      var f := p.hashTable[key];
      Step(Pool(p.descs[f := p.descs[f].Clear()], p.clockHand, p.hashTable - {key}), [Delete(file, pageNo)], Ok(()))
  }

  /** The number of valid frames, as printSelf totals them. */
  function ValidFrames(descs: seq<BufDesc>): (n: nat)
    ensures n <= |descs|
    ensures n == |descs| <==> forall i :: 0 <= i < |descs| ==> descs[i].valid
    ensures n == 0 <==> forall i :: 0 <= i < |descs| ==> !descs[i].valid
  {
    if descs == [] then 0
    else
      var init := descs[..|descs| - 1];
      var rest := ValidFrames(init);
      assert forall i :: 0 <= i < |init| ==> init[i] == descs[i];
      rest + (if descs[|descs| - 1].valid then 1 else 0)
  }

  /** The pool the BufMgr constructor builds: every frame free and knowing its
      index, an empty table, and the hand on the last frame so that the first
      advance lands on frame 0. */
  function InitialPool(n: nat): (p: Pool)
    requires 0 < n
    ensures WellFormed(p) && |p.descs| == n && p.hashTable == map[]
    ensures forall i :: 0 <= i < n ==> p.descs[i] == EmptyDesc(i)
    ensures forall i :: 0 <= i < n ==> p.descs[i].frameNo == i && !p.descs[i].valid
    ensures p.clockHand == n - 1 && Advance(p.clockHand, n) == 0
    ensures ValidFrames(p.descs) == 0
  {
    Pool(seq(n, i requires 0 <= i => EmptyDesc(i)), n - 1, map[])
  }
}
