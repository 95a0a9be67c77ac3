/** The clock (second-chance) sweep of BufMgr::allocBuf, without its final
    eviction step: which frame the hand stops at, which reference bits it
    clears on the way, and when the pinned-frame counter gives up.
 */
module ClockSweep {
  import opened BufferTypes

  /** BufMgr::advanceClock: one cyclic step of the hand. */
  function Advance(hand: nat, n: nat): (r: nat)
    requires hand < n
    ensures r < n
    ensures r == if hand == n - 1 then 0 else hand + 1
  {
    (hand + 1) % n
  }

  /** Number of advances that take the hand from `from` to `to` (1 to n). */
  function Dist(from: nat, to: nat, n: nat): (d: nat)
    requires from < n && to < n
    ensures 1 <= d <= n
    ensures Advance(from, n) == to <==> d == 1
  {
    if to > from then to - from else to + n - from
  }

  /** Each advance that misses `to` brings the hand one step closer to it. */
  lemma DistStep(from: nat, to: nat, n: nat)
    requires from < n && to < n && Advance(from, n) != to
    ensures Dist(Advance(from, n), to, n) == Dist(from, to, n) - 1
  {
  }

  /** A frame the sweep may stop at: free, or holding an unpinned page whose
      second chance is used up. */
  predicate Evictable(d: BufDesc) {
    !d.valid || (d.pinCnt == 0 && !d.refbit)
  }

  /** `b` differs from `a` at most in reference bits that went from set to clear. */
  predicate OnlyRefbitsCleared(a: seq<BufDesc>, b: seq<BufDesc>) {
    |a| == |b| &&
    forall i :: 0 <= i < |a| ==> b[i] == a[i].(refbit := b[i].refbit) && (b[i].refbit ==> a[i].refbit)
  }

  /** The valid frames whose reference bit is still set: each clearing step
      removes one, which bounds the steps that do not advance the counter. */
  function RefSet(descs: seq<BufDesc>): set<FrameId> {
    set i | 0 <= i < |descs| && descs[i].valid && descs[i].refbit
  }

  /** Where a sweep ends: the table after it, the hand, and the frame it
      stopped at (None when the counter ran past numBufs). */
  datatype Sweep = Sweep(descs: seq<BufDesc>, hand: nat, victim: Option<FrameId>)

  /** The `while (count <= numBufs)` loop of allocBuf, entered with the given
      table, hand and counter. */
  function SweepFrom(descs: seq<BufDesc>, hand: nat, count: nat): (r: Sweep)
    requires hand < |descs| && count <= |descs| + 1
    ensures |r.descs| == |descs| && r.hand < |descs|
    ensures r.victim.Some? ==> r.victim.value == r.hand
    decreases |descs| + 1 - count, RefSet(descs)
  {
    if count > |descs| then Sweep(descs, hand, None)
    else
      var h := Advance(hand, |descs|);
      var d := descs[h];
      if d.valid && d.refbit then
        var cleared := descs[h := d.(refbit := false)];
        assert h in RefSet(descs) - RefSet(cleared);
        SweepFrom(cleared, h, count)
      else if d.valid && d.pinCnt > 0 then
        SweepFrom(descs, h, count + 1)
      else
        Sweep(descs, h, Some(h))
  }

  /** The sweep keeps the hand in range, touches nothing but reference bits,
      and stops only at the hand, on an evictable frame. */
  lemma {:induction false} SweepOutcome(descs: seq<BufDesc>, hand: nat, count: nat)
    requires hand < |descs| && count <= |descs| + 1
    ensures var s := SweepFrom(descs, hand, count);
      s.hand < |descs| && OnlyRefbitsCleared(descs, s.descs) &&
      (s.victim.Some? ==> s.victim.value == s.hand && Evictable(s.descs[s.hand]))
    decreases |descs| + 1 - count, RefSet(descs)
  {
    if count <= |descs| {
      var h := Advance(hand, |descs|);
      var d := descs[h];
      if d.valid && d.refbit {
        var cleared := descs[h := d.(refbit := false)];
        assert h in RefSet(descs) - RefSet(cleared);
        SweepOutcome(cleared, h, count);
      } else if d.valid && d.pinCnt > 0 {
        SweepOutcome(descs, h, count + 1);
      }
    }
  }

  /** When every frame is valid and pinned the counter runs out: BufferExceeded. */
  lemma {:induction false} SweepExhaustsWhenAllPinned(descs: seq<BufDesc>, hand: nat, count: nat)
    requires hand < |descs| && count <= |descs| + 1
    requires forall i :: 0 <= i < |descs| ==> descs[i].valid && descs[i].pinCnt > 0
    ensures SweepFrom(descs, hand, count).victim == None
    decreases |descs| + 1 - count, RefSet(descs)
  {
    if count <= |descs| {
      var h := Advance(hand, |descs|);
      var d := descs[h];
      if d.refbit {
        var cleared := descs[h := d.(refbit := false)];
        assert h in RefSet(descs) - RefSet(cleared);
        SweepExhaustsWhenAllPinned(cleared, h, count);
      } else {
        SweepExhaustsWhenAllPinned(descs, h, count + 1);
      }
    }
  }

  /** An evictable frame `i` that the hand reaches before the counter can
      pass numBufs stops the sweep, at `i` or at a frame the hand reaches
      earlier. */
  lemma {:induction false} SweepReaches(descs: seq<BufDesc>, hand: nat, count: nat, i: nat)
    requires hand < |descs| && i < |descs| && Evictable(descs[i])
    requires count + Dist(hand, i, |descs|) <= |descs| + 1
    ensures var s := SweepFrom(descs, hand, count);
      s.victim.Some? && s.victim.value < |descs| &&
      Dist(hand, s.victim.value, |descs|) <= Dist(hand, i, |descs|)
    decreases Dist(hand, i, |descs|)
  {
    var n := |descs|;
    var h := Advance(hand, n);
    var d := descs[h];
    if h != i {
      DistStep(hand, i, n);
      var s := SweepFrom(descs, hand, count);
      if d.valid && d.refbit {
        SweepReaches(descs[h := d.(refbit := false)], h, count, i);
      } else if d.valid && d.pinCnt > 0 {
        SweepReaches(descs, h, count + 1, i);
      }
      if s.victim.value != h {
        DistStep(hand, s.victim.value, n);
      }
    }
  }

  /** Frame `i` is evictable and no frame the hand reaches before it is. */
  predicate FirstEvictable(descs: seq<BufDesc>, hand: nat, i: nat)
    requires hand < |descs|
  {
    i < |descs| && Evictable(descs[i]) &&
    forall j :: 0 <= j < |descs| && Dist(hand, j, |descs|) < Dist(hand, i, |descs|) ==> !Evictable(descs[j])
  }

  /** A sweep that finds its victim on the first pass: it stops at the first
      evictable frame after the hand, clears the reference bits of the frames
      it passed on the way and leaves every other frame as it was. */
  lemma {:induction false} SweepFirstPass(descs: seq<BufDesc>, hand: nat, count: nat, i: nat)
    requires hand < |descs| && FirstEvictable(descs, hand, i)
    requires count + Dist(hand, i, |descs|) <= |descs| + 1
    ensures var s := SweepFrom(descs, hand, count);
      s.victim == Some(i) && s.hand == i && |s.descs| == |descs| &&
      forall j :: 0 <= j < |descs| ==>
        s.descs[j] == if Dist(hand, j, |descs|) < Dist(hand, i, |descs|) then descs[j].(refbit := false) else descs[j]
    decreases Dist(hand, i, |descs|)
  {
    var n := |descs|;
    var h := Advance(hand, n);
    var d := descs[h];
    if h != i {
      DistStep(hand, i, n);
      assert Dist(hand, h, n) == 1;
      var next := if d.valid && d.refbit then descs[h := d.(refbit := false)] else descs;
      var count' := if d.valid && d.refbit then count else count + 1;
      forall j | 0 <= j < n && Dist(h, j, n) < Dist(h, i, n)
        ensures !Evictable(next[j])
      {
        if j != h {
          DistStep(hand, j, n);
        }
      }
      SweepFirstPass(next, h, count', i);
      forall j | 0 <= j < n && j != h
        ensures Dist(h, j, n) < Dist(h, i, n) <==> Dist(hand, j, n) < Dist(hand, i, n)
      {
        DistStep(hand, j, n);
      }
    }
  }

  /** Whenever some frame is evictable, one of them is the first after the hand. */
  lemma {:induction false} FirstEvictableExists(descs: seq<BufDesc>, hand: nat, i: nat)
    requires hand < |descs| && i < |descs| && Evictable(descs[i])
    ensures exists k :: FirstEvictable(descs, hand, k)
    decreases Dist(hand, i, |descs|)
  {
    if !FirstEvictable(descs, hand, i) {
      var j :| 0 <= j < |descs| && Dist(hand, j, |descs|) < Dist(hand, i, |descs|) && Evictable(descs[j]);
      FirstEvictableExists(descs, hand, j);
    }
  }

  /** Every frame holds a page and none is evictable: each is pinned, or
      unpinned with its reference bit set. The first pass then finds nothing. */
  predicate Warm(descs: seq<BufDesc>) {
    forall i :: 0 <= i < |descs| ==> descs[i].valid && !Evictable(descs[i])
  }

  /** A frame the counter counts on its first visit: valid, pinned, and with
      its reference bit already clear. */
  predicate PinnedUnreferenced(d: BufDesc) {
    d.valid && d.pinCnt > 0 && !d.refbit
  }

  /** How many of the m frames the hand visits next are pinned and unreferenced. */
  function PinnedAhead(descs: seq<BufDesc>, hand: nat, m: nat): (c: nat)
    requires hand < |descs|
    ensures c <= m
    decreases m
  {
    if m == 0 then 0
    else
      var h := Advance(hand, |descs|);
      (if PinnedUnreferenced(descs[h]) then 1 else 0) + PinnedAhead(descs, h, m - 1)
  }

  /** With no pinned frame there is nothing to count. */
  lemma {:induction false} NoPinnedAhead(descs: seq<BufDesc>, hand: nat, m: nat)
    requires hand < |descs| && forall i :: 0 <= i < |descs| ==> descs[i].pinCnt == 0
    ensures PinnedAhead(descs, hand, m) == 0
    decreases m
  {
    if m > 0 {
      NoPinnedAhead(descs, Advance(hand, |descs|), m - 1);
    }
  }

  /** The table with every reference bit cleared. */
  function RefbitsCleared(descs: seq<BufDesc>): seq<BufDesc> {
    seq(|descs|, i requires 0 <= i < |descs| => descs[i].(refbit := false))
  }

  /** Partway through the first pass over a warm table, with m frames still
      to visit: those (the next m after the hand) are as in `descs0`, hold a
      page and are not evictable; the frames already visited have lost their
      reference bit. */
  predicate MidFirstRound(descs0: seq<BufDesc>, descs: seq<BufDesc>, hand: nat, m: nat)
    requires |descs| == |descs0| && hand < |descs|
  {
    m <= |descs| &&
    (forall j :: 0 <= j < |descs| ==>
       descs[j] == if Dist(hand, j, |descs|) <= m then descs0[j] else descs0[j].(refbit := false)) &&
    (forall j :: 0 <= j < |descs| && Dist(hand, j, |descs|) <= m ==> descs0[j].valid && !Evictable(descs0[j]))
  }

  /** One step of the first pass: visiting the frame after the hand clears
      its reference bit and moves it from the frames still to visit to the
      frames visited. */
  lemma FirstRoundShift(descs0: seq<BufDesc>, descs: seq<BufDesc>, hand: nat, m: nat)
    requires |descs| == |descs0| && hand < |descs| && 0 < m && MidFirstRound(descs0, descs, hand, m)
    ensures var h := Advance(hand, |descs|);
      descs[h] == descs0[h] && descs[h].valid && !Evictable(descs[h]) &&
      MidFirstRound(descs0, descs[h := descs[h].(refbit := false)], h, m - 1)
  {
    var n := |descs|;
    var h := Advance(hand, n);
    assert Dist(hand, h, n) == 1;
    forall j | 0 <= j < n && j != h
      ensures Dist(h, j, n) == Dist(hand, j, n) - 1
    {
      DistStep(hand, j, n);
    }
  }

  /** A visit to a frame that holds a page and is not evictable clears its
      reference bit, or counts it when the bit is already clear. */
  lemma SweepVisitsWarmFrame(descs: seq<BufDesc>, hand: nat, count: nat)
    requires hand < |descs| && count <= |descs|
    requires var d := descs[Advance(hand, |descs|)]; d.valid && !Evictable(d)
    ensures var h := Advance(hand, |descs|);
      var d := descs[h];
      SweepFrom(descs, hand, count) ==
        SweepFrom(descs[h := d.(refbit := false)], h, if d.refbit then count else count + 1)
  {
    var h := Advance(hand, |descs|);
    var d := descs[h];
    if !d.refbit {
      assert descs[h := d.(refbit := false)] == descs;
    }
  }

  /** The first pass over a warm table, with m frames still to visit before
      the hand is back at `home`: the frames already visited (those outside
      the next m) have lost their reference bit, the others are as in
      `descs0`. The pass finds no victim; it ends at `home` with every
      reference bit clear and the counter raised by the pinned, unreferenced
      frames it visited. */
  lemma {:induction false} SweepFirstRound(descs0: seq<BufDesc>, cleared: seq<BufDesc>, descs: seq<BufDesc>,
                                           hand: nat, home: nat, count: nat, m: nat, total: nat)
    requires |descs| == |descs0| && hand < |descs| && home < |descs| && m <= |descs|
    requires |cleared| == |descs0| && forall j :: 0 <= j < |descs0| ==> cleared[j] == descs0[j].(refbit := false)
    requires m == 0 ==> hand == home
    requires m > 0 ==> Dist(hand, home, |descs|) == m
    requires MidFirstRound(descs0, descs, hand, m)
    requires total == count + PinnedAhead(descs0, hand, m) && total <= |descs|
    ensures SweepFrom(descs, hand, count) == SweepFrom(cleared, home, total)
    decreases m
  {
    var n := |descs|;
    if m == 0 {
      assert descs == cleared;
    } else {
      var h := Advance(hand, n);
      var d := descs[h];
      var next := descs[h := d.(refbit := false)];
      var count' := if d.refbit then count else count + 1;
      if m > 1 {
        DistStep(hand, home, n);
      }
      FirstRoundShift(descs0, descs, hand, m);
      SweepFirstRound(descs0, cleared, next, h, home, count', m - 1, total);
      SweepVisitsWarmFrame(descs, hand, count);
    }
  }

  /** A second pass in which every frame before `i` is pinned and unreferenced
      and the counter passes numBufs before the hand gets to `i`. */
  lemma {:induction false} SweepRunsOutBefore(descs: seq<BufDesc>, hand: nat, count: nat, i: nat)
    requires hand < |descs| && i < |descs| && count <= |descs| + 1
    requires forall j :: 0 <= j < |descs| && Dist(hand, j, |descs|) < Dist(hand, i, |descs|) ==>
      PinnedUnreferenced(descs[j])
    requires count + Dist(hand, i, |descs|) > |descs| + 1
    ensures SweepFrom(descs, hand, count).victim == None
    decreases |descs| + 1 - count
  {
    var n := |descs|;
    if count <= n {
      var h := Advance(hand, n);
      assert Dist(hand, h, n) == 1;
      DistStep(hand, i, n);
      forall j | 0 <= j < n && Dist(h, j, n) < Dist(h, i, n)
        ensures PinnedUnreferenced(descs[j])
      {
        if j != h {
          DistStep(hand, j, n);
        }
      }
      SweepRunsOutBefore(descs, h, count + 1, i);
    }
  }

  /** allocBuf's sweep over a warm table: the first pass clears every
      reference bit and counts the P frames that were pinned with the bit
      already clear; the second pass counts the pinned frames before u, the
      first unpinned frame after the hand. So the sweep takes u exactly when
      P + Dist(hand, u) - 1 <= numBufs, and then every reference bit is clear. */
  lemma SweepSecondPass(descs: seq<BufDesc>, hand: nat)
    requires hand < |descs| && Warm(descs)
    ensures forall u :: FirstEvictable(RefbitsCleared(descs), hand, u) ==>
      var s := SweepFrom(descs, hand, 0);
      (s.victim == None <==> PinnedAhead(descs, hand, |descs|) + Dist(hand, u, |descs|) > |descs| + 1) &&
      (s.victim.Some? ==> s.victim == Some(u) && s.hand == u && s.descs == RefbitsCleared(descs))
  {
    var n := |descs|;
    var cleared := RefbitsCleared(descs);
    var pinned := PinnedAhead(descs, hand, n);
    SweepFirstRound(descs, cleared, descs, hand, hand, 0, n, pinned);
    forall u | FirstEvictable(cleared, hand, u)
      ensures var s := SweepFrom(cleared, hand, pinned);
        (s.victim == None <==> pinned + Dist(hand, u, n) > n + 1) &&
        (s.victim.Some? ==> s.victim == Some(u) && s.hand == u && s.descs == cleared)
    {
      if pinned + Dist(hand, u, n) <= n + 1 {
        SweepFirstPass(cleared, hand, pinned, u);
        var s := SweepFrom(cleared, hand, pinned);
        assert s.descs == cleared;
      } else {
        SweepRunsOutBefore(cleared, hand, pinned, u);
      }
    }
  }

  /** A sweep started by allocBuf gives up when every frame is valid and
      pinned, and finds a frame whenever some frame is free or unpinned and
      unreferenced (the first pass reaches that frame after at most
      numBufs - 1 others) and whenever no frame is pinned (the counter never
      moves, and the second pass takes the frame after the hand). */
  lemma SweepFromStart(descs: seq<BufDesc>, hand: nat)
    requires hand < |descs|
    ensures (forall i :: 0 <= i < |descs| ==> descs[i].valid && descs[i].pinCnt > 0) ==>
              SweepFrom(descs, hand, 0).victim == None
    ensures (exists i :: 0 <= i < |descs| && Evictable(descs[i])) ==>
              SweepFrom(descs, hand, 0).victim.Some?
    ensures (forall i :: 0 <= i < |descs| ==> descs[i].pinCnt == 0) ==>
              SweepFrom(descs, hand, 0).victim.Some?
  {
    if forall i :: 0 <= i < |descs| ==> descs[i].valid && descs[i].pinCnt > 0 {
      SweepExhaustsWhenAllPinned(descs, hand, 0);
    }
    if exists i :: 0 <= i < |descs| && Evictable(descs[i]) {
      var i :| 0 <= i < |descs| && Evictable(descs[i]);
      SweepReaches(descs, hand, 0, i);
    }
    if (forall i :: 0 <= i < |descs| ==> descs[i].pinCnt == 0) && Warm(descs) {
      var u := Advance(hand, |descs|);
      assert FirstEvictable(RefbitsCleared(descs), hand, u);
      NoPinnedAhead(descs, hand, |descs|);
      SweepSecondPass(descs, hand);
    }
  }

  /** The counter counts visits to pinned frames, not frames: with two pinned
      frames visited twice each, the sweep gives up before it comes back to
      the unpinned frame whose reference bit it has just cleared. */
  lemma ExhaustedWithUnpinnedFrame()
    ensures var pinned0 := BufDesc(Some(1), 10, 0, 1, false, true, false);
      var pinned1 := BufDesc(Some(1), 11, 1, 1, false, true, false);
      var unpinned := BufDesc(Some(1), 12, 2, 0, false, true, true);
      SweepFrom([pinned0, pinned1, unpinned], 2, 0).victim == None
  {
    var pinned0 := BufDesc(Some(1), 10, 0, 1, false, true, false);
    var pinned1 := BufDesc(Some(1), 11, 1, 1, false, true, false);
    var unpinned := BufDesc(Some(1), 12, 2, 0, false, true, true);
    var before := [pinned0, pinned1, unpinned];
    var after := [pinned0, pinned1, unpinned.(refbit := false)];
    assert SweepFrom(after, 1, 4) == Sweep(after, 1, None);
    assert SweepFrom(after, 0, 3) == SweepFrom(after, 1, 4);
    assert SweepFrom(after, 2, 2) == SweepFrom(after, 0, 3);
    assert before[2 := unpinned.(refbit := false)] == after;
    assert SweepFrom(before, 1, 2) == SweepFrom(after, 2, 2);
    assert SweepFrom(before, 0, 1) == SweepFrom(before, 1, 2);
    assert SweepFrom(before, 2, 0) == SweepFrom(before, 0, 1);
  }
}
